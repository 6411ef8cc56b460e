/** Theorems about `mv` used as rename. It writes the new name into the entry and into slot 0 of
    whatever the entry points at: right for a directory, but for a file those are its own bytes. */
module RenameProofs {
  import opened Format
  import opened Volume
  import opened Edits
  import opened Tree
  import opened Allocation
  import opened Storage
  import opened DriverSpec
  import opened Reading
  import opened WriteProofs
  import opened DeleteProofs
  import opened ShellSpec
  import opened MoveProofs
  import opened CwdProofs
  import opened Limits

  // ---- The tree under a renamed entry ----------------------------------------------------

  /** The entry at `l` and, if it is a directory's, the copy in the directory's slot 0 read `e`. */
  ghost predicate Renames(m: Meta, m': Meta, lay: Layout, l: Loc, e: Entry) {
    && l in lay.chains && l.dir in lay.Dirs() && l.dir < 512 && 1 <= l.slot < 64 && |lay.chains[l]| > 0
    && m'.fat == m.fat && e == LiveEntry(e.name, e.ext, At(m, l).low, At(m, l).size)
    && Named(e) && FreshName(m.tables[l.dir][l.slot := ZERO_ENTRY], e)
    && m'.tables[l.dir] == m.tables[l.dir][l.slot := e]
    && (At(m, l).size == 0 ==> RenamesOwn(m, m', lay.chains[l][0], l.dir, e))
    && (forall d :: d in lay.Dirs() && d < 512 && d != l.dir && !(At(m, l).size == 0 && d == lay.chains[l][0])
          ==> m'.tables[d] == m.tables[d])
  }

  ghost predicate RenamesOwn(m: Meta, m': Meta, x: nat, d: nat, e: Entry) {
    && x < 512 && x != d && e.ext == NO_EXT
    && FreshName(m.tables[x][0 := ZERO_ENTRY], e) && m'.tables[x] == m.tables[x][0 := e]
  }

  lemma RenamedTable(t: Table, d: nat, s: nat, e: Entry)
    requires TableOk(t, d) && s < 64 && Live(e) && Named(e) && FreshName(t[s := ZERO_ENTRY], e)
    requires s == 0 ==> e == LiveEntry(e.name, NO_EXT, d, 0)
    ensures TableOk(t[s := e], d)
  {
    var t' := t[s := e];
    forall i, j | 0 <= i < j < 64 && Live(t'[i]) && Live(t'[j])
      ensures !SameName(t'[i], t'[j])
    {
      assert i != s ==> t[s := ZERO_ENTRY][i] == t[i];
      assert j != s ==> t[s := ZERO_ENTRY][j] == t[j];
    }
  }

  lemma RenameTables(m: Meta, m': Meta, lay: Layout, l: Loc, e: Entry)
    requires TablesOk(m, lay) && Renames(m, m', lay, l, e)
    requires At(m, l).size == 0 ==> lay.chains[l][0] in lay.home && e.low == lay.chains[l][0]
    ensures TablesOk(m', lay)
  {
    RenamedTable(m.tables[l.dir], l.dir, l.slot, e);
    if At(m, l).size == 0 {
      RenamedTable(m.tables[lay.chains[l][0]], lay.chains[l][0], 0, e);
    }
    forall d | d in lay.Dirs()
      ensures d < 512 && TableOk(m'.tables[d], d)
    {
    }
  }

  lemma RenameAt(m: Meta, m': Meta, lay: Layout, l: Loc, e: Entry, k: Loc)
    requires Renames(m, m', lay, l, e) && k.dir in lay.Dirs() && k.dir < 512 && 1 <= k.slot < 64
    ensures At(m', k) == if k == l then e else At(m, k)
  {
  }

  lemma RenameSlots(m: Meta, m': Meta, lay: Layout, l: Loc, e: Entry)
    requires SlotsMatch(m, lay) && Renames(m, m', lay, l, e)
    ensures SlotsMatch(m', lay)
  {
    forall k | k in lay.chains
      ensures k.dir in lay.Dirs() && k.dir < 512 && 1 <= k.slot < 64 && Live(At(m', k))
    {
      RenameAt(m, m', lay, l, e, k);
    }
    forall d, s | d in lay.Dirs() && d < 512 && 1 <= s < 64 && Live(At(m', Loc(d, s)))
      ensures Loc(d, s) in lay.chains
    {
      RenameAt(m, m', lay, l, e, Loc(d, s));
    }
  }

  lemma RenameEntry(m: Meta, m': Meta, lay: Layout, l: Loc, e: Entry, k: Loc)
    requires SlotsMatch(m, lay) && Disjoint(lay.chains) && Renames(m, m', lay, l, e)
    requires k in lay.chains && k.dir < 512 && k.slot < 64 && EntryOk(m, lay, k) && EntryOk(m, lay, l)
    ensures EntryOk(m', lay, k) && At(m', k).size == At(m, k).size
  {
    RenameAt(m, m', lay, l, e, k);
    var x := lay.chains[k][0];
    if At(m, k).size == 0 {
    }
  }

  lemma RenamePreserves(m: Meta, m': Meta, lay: Layout, l: Loc, e: Entry)
    requires Consistent(m, lay) && Renames(m, m', lay, l, e)
    ensures Carries(m, lay, m', lay)
  {
    assert EntryOk(m, lay, l);
    RenameTables(m, m', lay, l, e);
    RenameSlots(m, m', lay, l, e);
    forall k | k in lay.chains
      ensures k.dir < 512 && k.slot < 64 && EntryOk(m', lay, k) && At(m', k).size == At(m, k).size
    {
      RenameEntry(m, m', lay, l, e, k);
    }
    forall d | d in lay.home
      ensures HomeOk(m', lay, d)
    {
      assert HomeOk(m, lay, d);
    }
  }

  // ---- The image -----------------------------------------------------------------------------

  /** What a caller can check before renaming: the entry is there, the new name is free in its
      directory and, for a directory, also inside it and without extension. */
  ghost predicate SafeRename(img: Image, cur: nat, name: Name, ext: Ext, newName: Name, newExt: Ext)
    requires cur < 512
  {
    && Match(img, cur, name, ext) < 64
    && var t, m := TableOf(img, cur), Match(img, cur, name, ext);
       var e := RenamedEntry(t[m], newName, newExt);
       && Named(e) && FreshName(t[m := ZERO_ENTRY], e)
       && (t[m].size == 0 ==>
             && newExt == NO_EXT && HeadOf(t[m]) < 512
             && FreshName(TableOf(img, HeadOf(t[m]))[0 := ZERO_ENTRY], e))
  }

  lemma RenameMeta(img: Image, cur: nat, m: nat, newName: Name, newExt: Ext)
    requires 2 <= cur < 512 && m < 64 && 3 <= HeadOf(TableOf(img, cur)[m]) < 512 && HeadOf(TableOf(img, cur)[m]) != cur
    ensures var t, c := TableOf(img, cur), HeadOf(TableOf(img, cur)[m]);
            var own, img' := TableOf(img, c), RenameSlot(img, cur, m, newName, newExt);
            && FatOf(img') == FatOf(img)
            && TableOf(img', cur) == t[m := RenamedEntry(t[m], newName, newExt)]
            && TableOf(img', c) == own[0 := RenamedEntry(own[0], newName, newExt)]
            && SameBut(img, img', [cur, c])
  {
    var t, c := TableOf(img, cur), HeadOf(TableOf(img, cur)[m]);
    var own := TableOf(img, c);
    var img1 := RenameHalf(img, cur, m, newName, newExt);
    PutTableMeta(img, cur, t[m := RenamedEntry(t[m], newName, newExt)]);
    PutTableMeta(img1, c, own[0 := RenamedEntry(own[0], newName, newExt)]);
  }

  lemma RenameEnds(img: Image, lay: Layout, cur: nat, name: Name, ext: Ext)
    requires Consistent(MetaOf(img), lay) && cur in lay.Dirs() && cur < 512 && Match(img, cur, name, ext) < 64
    ensures var l := Loc(cur, Match(img, cur, name, ext));
            var e := TableOf(img, cur)[l.slot];
            && 2 <= cur && l.slot >= 1 && l in lay.chains && |lay.chains[l]| > 0
            && lay.chains[l][0] == HeadOf(e) == e.low && 3 <= HeadOf(e) < 512 && HeadOf(e) != cur
            && e == LiveEntry(e.name, e.ext, e.low, e.size)
            && (e.size == 0 ==> TableOf(img, HeadOf(e))[0] == e)
            && (e.size > 0 ==> HeadOf(e) !in lay.Dirs())
  {
    var l := Loc(cur, Match(img, cur, name, ext));
    DirRange(MetaOf(img), lay);
    LiveEntryFacts(img, lay, l);
    ChainStart(MetaOf(img), lay, l);
    if TableOf(img, cur)[l.slot].size == 0 {
      NotItsOwnParent(lay.home, lay.chains[l][0]);
    } else {
      FileHeadIsNoDir(img, lay, l);
    }
  }

  ghost predicate CanRename(m: Meta, lay: Layout, l: Loc, e: Entry) {
    && l in lay.chains && l.dir in lay.Dirs() && 2 <= l.dir < 512 && 1 <= l.slot < 64 && |lay.chains[l]| > 0
    && var old_, x := At(m, l), lay.chains[l][0];
       && x == old_.low && x != l.dir && 3 <= x < 512
       && old_ == LiveEntry(old_.name, old_.ext, old_.low, old_.size) && e == old_.(name := e.name, ext := e.ext)
       && Named(e) && FreshName(m.tables[l.dir][l.slot := ZERO_ENTRY], e)
       && (old_.size > 0 ==> x !in lay.Dirs())
       && (old_.size == 0 ==> e.ext == NO_EXT && m.tables[x][0] == old_ && FreshName(m.tables[x][0 := ZERO_ENTRY], e))
  }

  lemma RenameIsRenames(img: Image, lay: Layout, cur: nat, m: nat, newName: Name, newExt: Ext)
    requires 2 <= cur < 512 && m < 64 && HeadOf(TableOf(img, cur)[m]) < 512
    requires CanRename(MetaOf(img), lay, Loc(cur, m), RenamedEntry(TableOf(img, cur)[m], newName, newExt))
    requires HeadOf(TableOf(img, cur)[m]) == TableOf(img, cur)[m].low
    ensures Renames(MetaOf(img), MetaOf(RenameSlot(img, cur, m, newName, newExt)), lay, Loc(cur, m),
                    RenamedEntry(TableOf(img, cur)[m], newName, newExt))
  {
    var img' := RenameSlot(img, cur, m, newName, newExt);
    assert At(MetaOf(img), Loc(cur, m)) == TableOf(img, cur)[m];
    RenameMeta(img, cur, m, newName, newExt);
    OtherTables(img, img', lay, cur, HeadOf(TableOf(img, cur)[m]));
  }

  lemma OtherTables(img: Image, img': Image, lay: Layout, c1: nat, c2: nat)
    requires SameBut(img, img', [c1, c2])
    ensures forall d :: d in lay.Dirs() && d < 512 && d != c1 && d != c2 ==>
              MetaOf(img').tables[d] == MetaOf(img).tables[d]
  {
    forall d | d in lay.Dirs() && d < 512 && d != c1 && d != c2
      ensures MetaOf(img').tables[d] == MetaOf(img).tables[d]
    {
      assert img'[d] == img[d];
    }
  }

  lemma SafeCanRename(img: Image, lay: Layout, cur: nat, name: Name, ext: Ext, newName: Name, newExt: Ext)
    requires Consistent(MetaOf(img), lay) && cur in lay.Dirs() && cur < 512
    requires SafeRename(img, cur, name, ext, newName, newExt)
    ensures var m := Match(img, cur, name, ext);
            CanRename(MetaOf(img), lay, Loc(cur, m), RenamedEntry(TableOf(img, cur)[m], newName, newExt))
  {
    RenameEnds(img, lay, cur, name, ext);
  }

  /** A safe rename keeps the whole-disk invariant, for files and directories alike. */
  lemma RenameKeepsValid(img: Image, lay: Layout, cur: nat, name: Name, ext: Ext, newName: Name, newExt: Ext)
    requires Consistent(MetaOf(img), lay) && cur in lay.Dirs() && cur < 512
    requires SafeRename(img, cur, name, ext, newName, newExt)
    ensures HeadOf(TableOf(img, cur)[Match(img, cur, name, ext)]) < 512
    ensures Carries(MetaOf(img), lay, MetaOf(Rename(img, cur, name, ext, newName, newExt)), lay)
  {
    var m := Match(img, cur, name, ext);
    SafeCanRename(img, lay, cur, name, ext, newName, newExt);
    RenameIsRenames(img, lay, cur, m, newName, newExt);
    RenamePreserves(MetaOf(img), MetaOf(RenameSlot(img, cur, m, newName, newExt)), lay, Loc(cur, m),
                    RenamedEntry(TableOf(img, cur)[m], newName, newExt));
  }

  // ---- What a renamed file reads ---------------------------------------------------------------

  lemma RenamedEntryBytes(e: Entry, newName: Name, newExt: Ext)
    ensures EncodeEntry(RenamedEntry(e, newName, newExt)) == newName + newExt + EncodeEntry(e)[11..]
  {
    var e' := RenamedEntry(e, newName, newExt);
    assert EncodeExtent(e') == EncodeExtent(e);
    assert EncodeLabel(e') == newName + newExt + EncodeLabel(e)[11..];
    assert EncodeEntry(e)[11..] == EncodeLabel(e)[11..] + EncodeExtent(e);
  }

  /** Rewriting slot 0 of any cluster replaces its first eleven bytes and no others. */
  lemma RenamedClusterBytes(c: Cluster, newName: Name, newExt: Ext)
    ensures var t := DecodeTable(c);
            EncodeTable(t[0 := RenamedEntry(t[0], newName, newExt)]) == newName + newExt + c[11..]
  {
    var t := DecodeTable(c);
    var t' := t[0 := RenamedEntry(t[0], newName, newExt)];
    EntriesBytesRoundTrip(c);
    RenamedEntryBytes(t[0], newName, newExt);
    assert t'[1..] == t[1..];
    assert c[11..] == EncodeEntry(t[0])[11..] + EncodeEntries(t[1..]);
  }

  lemma {:induction false} GatherNewHead(img: Image, img': Image, ch: seq<nat>, head: seq<byte>, n: nat)
    requires Cells(ch) && 1 <= n <= |ch| && |head| == 11
    requires img'[ch[0]] == head + img[ch[0]][11..]
    requires forall i :: 0 < i < |ch| ==> img'[ch[i]] == img[ch[i]]
    ensures GatherTo(img', ch, n) == head + GatherTo(img, ch, n)[11..]
  {
    if n == 1 {
      assert GatherTo(img, ch, 0) == [] == GatherTo(img', ch, 0);
    } else {
      GatherNewHead(img, img', ch, head, n - 1);
    }
  }

  lemma RenamedContent(img: Image, cur: nat, m: nat, newName: Name, newExt: Ext, ch: seq<nat>)
    requires 2 <= cur < 512 && m < 64 && IsChain(FatOf(img), ch) && cur !in ch
    requires ch[0] == HeadOf(TableOf(img, cur)[m])
    ensures Gather(RenameSlot(img, cur, m, newName, newExt), ch) == newName + newExt + Gather(img, ch)[11..]
  {
    var img' := RenameSlot(img, cur, m, newName, newExt);
    assert ch[0] in ch;
    RenamedClusterBytes(img[ch[0]], newName, newExt);
    forall i | 0 < i < |ch|
      ensures img'[ch[i]] == img[ch[i]]
    {
      assert ch[i] in ch && ch[i] != ch[0];
    }
    GatherNewHead(img, img', ch, newName + newExt, |ch|);
  }

  lemma RenamedReads(img: Image, lay: Layout, cur: nat, name: Name, ext: Ext, newName: Name, newExt: Ext, size: u32)
    requires Consistent(MetaOf(img), lay) && cur in lay.Dirs() && cur < 512
    requires SafeRename(img, cur, name, ext, newName, newExt)
    requires size >= TableOf(img, cur)[Match(img, cur, name, ext)].size > 0
    ensures var m := Match(img, cur, name, ext);
            && HeadOf(TableOf(img, cur)[m]) < 512 && Loc(cur, m) in lay.chains
            && var ch, img' := lay.chains[Loc(cur, m)], RenameSlot(img, cur, m, newName, newExt);
               && IsChain(FatOf(img), ch)
               && ReadReply(img', Request(newName, newExt, cur, size)) == Reply(0, Gather(img', ch))
  {
    var m := Match(img, cur, name, ext);
    RenameEnds(img, lay, cur, name, ext);
    RenameKeepsValid(img, lay, cur, name, ext, newName, newExt);
    RenameMeta(img, cur, m, newName, newExt);
    FileAnswers(RenameSlot(img, cur, m, newName, newExt), lay, Loc(cur, m), Request(newName, newExt, cur, size));
  }

  lemma FoundFileReads(img: Image, lay: Layout, cur: nat, name: Name, ext: Ext, size: u32)
    requires Consistent(MetaOf(img), lay) && cur in lay.Dirs() && cur < 512 && Match(img, cur, name, ext) < 64
    requires size >= TableOf(img, cur)[Match(img, cur, name, ext)].size > 0
    ensures var m := Match(img, cur, name, ext);
            && HeadOf(TableOf(img, cur)[m]) < 512 && 2 <= cur && m >= 1 && Loc(cur, m) in lay.chains
            && var ch := lay.chains[Loc(cur, m)];
               && IsChain(FatOf(img), ch) && cur !in ch && ch[0] == HeadOf(TableOf(img, cur)[m])
               && ReadReply(img, Request(name, ext, cur, size)) == Reply(0, Gather(img, ch))
  {
    var l := FoundFile(img, lay, cur, name, ext);
    FileAnswers(img, lay, l, Request(name, ext, cur, size));
  }

  lemma FoundFile(img: Image, lay: Layout, cur: nat, name: Name, ext: Ext) returns (l: Loc)
    requires Consistent(MetaOf(img), lay) && cur in lay.Dirs() && cur < 512 && Match(img, cur, name, ext) < 64
    requires TableOf(img, cur)[Match(img, cur, name, ext)].size > 0
    ensures l == Loc(cur, Match(img, cur, name, ext)) && 2 <= cur && 1 <= l.slot
    ensures l in lay.chains && |lay.chains[l]| > 0
    ensures cur !in lay.chains[l] && lay.chains[l][0] == HeadOf(TableOf(img, cur)[l.slot]) < 512
  {
    l := Loc(cur, Match(img, cur, name, ext));
    RenameEnds(img, lay, cur, name, ext);
    FileAvoidsDirs(MetaOf(img), lay, l, cur);
  }

  /** A renamed file reads its old content with the first eleven bytes replaced by the new name and
      extension. */
  lemma RenamedFileReads(img: Image, lay: Layout, cur: nat, name: Name, ext: Ext, newName: Name, newExt: Ext, size: u32)
    requires Consistent(MetaOf(img), lay) && cur in lay.Dirs() && cur < 512
    requires SafeRename(img, cur, name, ext, newName, newExt)
    requires size >= TableOf(img, cur)[Match(img, cur, name, ext)].size > 0
    ensures HeadOf(TableOf(img, cur)[Match(img, cur, name, ext)]) < 512
    ensures var before := ReadReply(img, Request(name, ext, cur, size));
            && before.code == 0 && |before.bytes| >= 2048
            && ReadReply(Rename(img, cur, name, ext, newName, newExt), Request(newName, newExt, cur, size))
               == Reply(0, newName + newExt + before.bytes[11..])
  {
    var m := Match(img, cur, name, ext);
    FoundFileReads(img, lay, cur, name, ext, size);
    RenamedReads(img, lay, cur, name, ext, newName, newExt, size);
    RenamedContent(img, cur, m, newName, newExt, lay.chains[Loc(cur, m)]);
  }

  /** So renaming a file preserves its content if and only if the file already began with the new
      name and extension. */
  lemma RenameKeepsContentIff(img: Image, lay: Layout, cur: nat, name: Name, ext: Ext, newName: Name, newExt: Ext,
                              size: u32)
    requires Consistent(MetaOf(img), lay) && cur in lay.Dirs() && cur < 512
    requires SafeRename(img, cur, name, ext, newName, newExt)
    requires size >= TableOf(img, cur)[Match(img, cur, name, ext)].size > 0
    ensures HeadOf(TableOf(img, cur)[Match(img, cur, name, ext)]) < 512
    ensures var before := ReadReply(img, Request(name, ext, cur, size));
            && |before.bytes| >= 2048
            && (ReadReply(Rename(img, cur, name, ext, newName, newExt), Request(newName, newExt, cur, size)) == before
                <==> before.bytes[..11] == newName + newExt)
  {
    RenamedFileReads(img, lay, cur, name, ext, newName, newExt, size);
    SameAfterNewHead(ReadReply(img, Request(name, ext, cur, size)).bytes, newName + newExt);
  }

  lemma SameAfterNewHead(bytes: seq<byte>, head: seq<byte>)
    requires |bytes| >= 11 && |head| == 11
    ensures head + bytes[11..] == bytes <==> bytes[..11] == head
  {
  }

  // ---- Reads of other names --------------------------------------------------------------------

  /** A pair that no slot besides the table's own holds reads as nothing. */
  lemma OwnPairReads(img: Image, d: nat, q: Request)
    requires d < 512 && TableOk(TableOf(img, d), d) && q.parent == d
    requires forall i :: 1 <= i < 64 ==> !OfPair(TableOf(img, d)[i], q)
    ensures ReadReply(img, q) == Reply(0, [])
  {
    if OfPair(TableOf(img, d)[0], q) {
      ReadByMatch(img, q, 0);
      OwnEntryReply(img, d, q.size);
    } else {
      NoMatchReadsNothing(img, q);
    }
  }

  /** What differs after a rename of the entry at `l` that points at `c`. */
  ghost predicate RenamedOnly(img: Image, img': Image, lay: Layout, l: Loc, c: nat) {
    && l in lay.chains && l.dir in lay.Dirs() && 2 <= l.dir < 512 && l.slot < 64
    && |lay.chains[l]| > 0 && lay.chains[l][0] == c && 2 <= c < 512
    && FatOf(img') == FatOf(img) && SameBut(img, img', [l.dir, c])
    && (forall i :: 0 <= i < 64 && i != l.slot ==> TableOf(img', l.dir)[i] == TableOf(img, l.dir)[i])
    && (c in lay.Dirs() ==> forall i :: 1 <= i < 64 ==> TableOf(img', c)[i] == TableOf(img, c)[i])
  }

  lemma RenameKeepsFile(img: Image, img': Image, lay: Layout, l: Loc, c: nat, k: Loc)
    requires Consistent(MetaOf(img), lay) && RenamedOnly(img, img', lay, l, c)
    requires k in lay.chains && k != l && k.dir < 512 && k.slot < 64
    requires TableOf(img', k.dir)[k.slot] == TableOf(img, k.dir)[k.slot]
    ensures SameFile(img, img', lay, lay, k)
  {
    var ch := lay.chains[k];
    assert At(MetaOf(img), k) == TableOf(img, k.dir)[k.slot];
    if TableOf(img, k.dir)[k.slot].size > 0 {
      EntryChain(MetaOf(img), lay, k);
      FileAvoidsDirs(MetaOf(img), lay, k, l.dir);
      assert c in lay.chains[l];
      forall i | 0 <= i < |ch|
        ensures ch[i] < 512 && img'[ch[i]] == img[ch[i]]
      {
        assert ch[i] in ch;
      }
    }
  }

  lemma RenameMatches(img: Image, img': Image, lay: Layout, l: Loc, c: nat, q: Request)
    requires Consistent(MetaOf(img), lay) && RenamedOnly(img, img', lay, l, c)
    requires q.parent in lay.Dirs() && q.parent < 512
    requires q.parent == l.dir ==> !OfPair(TableOf(img, l.dir)[l.slot], q) && !OfPair(TableOf(img', l.dir)[l.slot], q)
    requires q.parent == c && c != l.dir ==> !OfPair(TableOf(img, c)[0], q) && !OfPair(TableOf(img', c)[0], q)
    ensures SameMatches(img, img', lay, lay, q)
  {
    var t, t' := TableOf(img, q.parent), TableOf(img', q.parent);
    forall i | 0 <= i < 64 && (OfPair(t[i], q) || OfPair(t'[i], q))
      ensures t'[i] == t[i]
      ensures i > 0 ==> SameFile(img, img', lay, lay, Loc(q.parent, i))
    {
      if q.parent != l.dir && q.parent != c {
        assert img'[q.parent] == img[q.parent];
      }
      if i > 0 {
        LiveSlotOwnsChain(img, lay, Loc(q.parent, i));
        RenameKeepsFile(img, img', lay, l, c, Loc(q.parent, i));
      }
    }
  }

  lemma RenameDiffers(img: Image, lay: Layout, cur: nat, name: Name, ext: Ext, newName: Name, newExt: Ext)
    returns (img': Image, l: Loc, c: nat)
    requires Consistent(MetaOf(img), lay) && cur in lay.Dirs() && cur < 512 && Match(img, cur, name, ext) < 64
    ensures RenameReady(img, cur, name, ext) && img' == Rename(img, cur, name, ext, newName, newExt)
    ensures l == Loc(cur, Match(img, cur, name, ext)) && RenamedOnly(img, img', lay, l, c) && c != l.dir
    ensures c == HeadOf(TableOf(img, cur)[l.slot]) && TableOf(img, cur)[l.slot].name == name
    ensures TableOf(img, cur)[l.slot].ext == ext
    ensures c in lay.Dirs() <==> TableOf(img, cur)[l.slot].size == 0
    ensures TableOf(img', cur)[l.slot] == RenamedEntry(TableOf(img, cur)[l.slot], newName, newExt)
    ensures TableOf(img', c)[0] == RenamedEntry(TableOf(img, c)[0], newName, newExt)
    ensures TableOf(img, cur)[l.slot].size == 0 ==> TableOf(img, c)[0] == TableOf(img, cur)[l.slot]
  {
    var m := Match(img, cur, name, ext);
    RenameEnds(img, lay, cur, name, ext);
    l, c := Loc(cur, m), HeadOf(TableOf(img, cur)[m]);
    LiveEntryFacts(img, lay, l);
    RenameMeta(img, cur, m, newName, newExt);
    img' := Rename(img, cur, name, ext, newName, newExt);
  }

  /** In a renamed directory its old and its new name read as nothing, before and after. */
  lemma RenamedOwnReads(img: Image, img': Image, lay: Layout, l: Loc, c: nat, e: Entry, q: Request)
    requires c < 512 && c in lay.Dirs() && q.parent == c && TableOf(img', c)[0] == e
    requires Consistent(MetaOf(img), lay) && Consistent(MetaOf(img'), lay) && RenamedOnly(img, img', lay, l, c)
    requires OfPair(TableOf(img, c)[0], q) || OfPair(e, q)
    requires FreshName(TableOf(img, c)[0 := ZERO_ENTRY], e) && e.ext == NO_EXT
    ensures ReadReply(img', q) == ReadReply(img, q)
  {
    var t := TableOf(img, c);
    DirTableOk(img, lay, c);
    DirTableOk(img', lay, c);
    forall i | 1 <= i < 64
      ensures !OfPair(t[i], q)
    {
      assert t[0 := ZERO_ENTRY][i] == t[i];
      assert Live(t[i]) ==> !SameName(t[0], t[i]) && !SameName(t[i], e);
    }
    OwnPairReads(img, c, q);
    OwnPairReads(img', c, q);
  }

  lemma RenamedReadsSame(img: Image, img': Image, lay: Layout, l: Loc, c: nat, q: Request)
    requires Consistent(MetaOf(img), lay) && Consistent(MetaOf(img'), lay) && RenamedOnly(img, img', lay, l, c)
    requires q.parent in lay.Dirs() && q.parent < 512 && c != l.dir
    requires q.parent == l.dir ==> !OfPair(TableOf(img, l.dir)[l.slot], q) && !OfPair(TableOf(img', l.dir)[l.slot], q)
    requires c in lay.Dirs() ==>
      TableOf(img', c)[0].ext == NO_EXT && FreshName(TableOf(img, c)[0 := ZERO_ENTRY], TableOf(img', c)[0])
    ensures ReadReply(img', q) == ReadReply(img, q)
  {
    if q.parent == c && (OfPair(TableOf(img, c)[0], q) || OfPair(TableOf(img', c)[0], q)) {
      RenamedOwnReads(img, img', lay, l, c, TableOf(img', c)[0], q);
    } else {
      RenameMatches(img, img', lay, l, c, q);
      ReadSame(img, img', lay, lay, q);
    }
  }

  lemma RenamedOwnIsFresh(img: Image, lay: Layout, cur: nat, name: Name, ext: Ext, newName: Name, newExt: Ext, c: nat)
    requires Consistent(MetaOf(img), lay) && cur in lay.Dirs() && cur < 512
    requires SafeRename(img, cur, name, ext, newName, newExt)
    requires var e := TableOf(img, cur)[Match(img, cur, name, ext)];
             e.size == 0 && c == HeadOf(e) < 512 && TableOf(img, c)[0] == e
    ensures var e' := RenamedEntry(TableOf(img, c)[0], newName, newExt);
            e'.ext == NO_EXT && FreshName(TableOf(img, c)[0 := ZERO_ENTRY], e')
  {
  }

  /** A safe rename changes the answer to no read besides those of the old and the new name. */
  lemma RenameKeepsOtherReads(img: Image, lay: Layout, cur: nat, name: Name, ext: Ext, newName: Name, newExt: Ext,
                              q: Request)
    requires Consistent(MetaOf(img), lay) && cur in lay.Dirs() && cur < 512
    requires SafeRename(img, cur, name, ext, newName, newExt) && q.parent < 512 && q.parent in lay.Dirs()
    requires q.parent == cur ==> !(q.name == name && q.ext == ext) && !(q.name == newName && q.ext == newExt)
    ensures RenameReady(img, cur, name, ext)
    ensures ReadReply(Rename(img, cur, name, ext, newName, newExt), q) == ReadReply(img, q)
  {
    var img', l, c := RenameDiffers(img, lay, cur, name, ext, newName, newExt);
    RenameKeepsValid(img, lay, cur, name, ext, newName, newExt);
    if c in lay.Dirs() {
      RenamedOwnIsFresh(img, lay, cur, name, ext, newName, newExt, c);
    }
    RenamedReadsSame(img, img', lay, l, c, q);
  }
}
