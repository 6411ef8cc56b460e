/** Theorems about `mv` between directories: written past the driver, with raw cluster writes, it
    still keeps the whole-disk invariant and every file's content. */
module MoveProofs {
  import opened Format
  import opened Volume
  import opened Edits
  import opened Tree
  import opened Storage
  import opened DriverSpec
  import opened Reading
  import opened WriteProofs
  import opened DeleteProofs
  import opened ShellSpec

  /** Clear slot `l`, then put `e` into slot `k`, each time rewriting one table. */
  function Cleared(img: Image, l: Loc): Image
    requires l.dir < 512 && l.slot < 64
  {
    PutTable(img, l.dir, TableOf(img, l.dir)[l.slot := ZERO_ENTRY])
  }

  function Relocated(img: Image, l: Loc, k: Loc, e: Entry): Image
    requires l.dir < 512 && l.slot < 64 && k.dir < 512 && k.slot < 64
  {
    Published(Cleared(img, l), Cleared(img, l), k, e)
  }

  lemma ClearedMeta(img: Image, l: Loc)
    requires 2 <= l.dir < 512 && l.slot < 64
    ensures FatOf(Cleared(img, l)) == FatOf(img)
    ensures TableOf(Cleared(img, l), l.dir) == TableOf(img, l.dir)[l.slot := ZERO_ENTRY]
    ensures forall c :: 0 <= c < 2048 && c != l.dir ==> Cleared(img, l)[c] == img[c]
  {
    PutSlotMeta(img, l.dir, TableOf(img, l.dir)[l.slot := ZERO_ENTRY], Cleared(img, l));
  }

  lemma PutSlotMeta(img: Image, c: nat, t: Table, img': Image)
    requires 2 <= c < 512 && img' == PutTable(img, c, t)
    ensures FatOf(img') == FatOf(img) && TableOf(img', c) == t
    ensures forall d :: 0 <= d < 2048 && d != c ==> img'[d] == img[d]
  {
    PutTableMeta(img, c, t);
  }

  lemma ClearedIsSetSlot(img: Image, l: Loc)
    requires 2 <= l.dir < 512 && l.slot < 64
    ensures MetaOf(Cleared(img, l)) == SetSlot(MetaOf(img), l, ZERO_ENTRY)
  {
    ClearedMeta(img, l);
  }

  lemma RelocatedMeta(img: Image, l: Loc, k: Loc, e: Entry)
    requires 2 <= l.dir < 512 && l.slot < 64 && 2 <= k.dir < 512 && k.slot < 64
    ensures FatOf(Relocated(img, l, k, e)) == FatOf(img)
    ensures forall c :: 0 <= c < 2048 && c != l.dir && c != k.dir ==> Relocated(img, l, k, e)[c] == img[c]
    ensures TableOf(Relocated(img, l, k, e), k.dir) == TableOf(Cleared(img, l), k.dir)[k.slot := e]
    ensures l.dir != k.dir ==> TableOf(Relocated(img, l, k, e), l.dir) == TableOf(img, l.dir)[l.slot := ZERO_ENTRY]
  {
    ClearedMeta(img, l);
    PutTableMeta(Cleared(img, l), k.dir, TableOf(Cleared(img, l), k.dir)[k.slot := e]);
  }

  /** The conditions under which a relocation is a legal move in the tree. */
  ghost predicate Movable(img: Image, lay: Layout, l: Loc, k: Loc) {
    && l in lay.chains && l.dir in lay.Dirs() && l.dir < 512 && l.slot < 64 && |lay.chains[l]| > 0
    && k.dir in lay.Dirs() && k.dir < 512 && 1 <= k.slot < 64
    && 2 <= l.dir && !Live(TableOf(Cleared(img, l), k.dir)[k.slot])
    && FreshName(TableOf(Cleared(img, l), k.dir), TableOf(img, l.dir)[l.slot])
    && (TableOf(img, l.dir)[l.slot].size == 0 ==> WellFounded(lay.home[lay.chains[l][0] := k]))
  }

  lemma RelocatedSlot(img: Image, lay: Layout, l: Loc, k: Loc, e: Entry)
    requires 2 <= l.dir < 512 && l.slot < 64 && 2 <= k.dir < 512 && 1 <= k.slot < 64 && k.dir in lay.Dirs()
    requires !Live(TableOf(Cleared(img, l), k.dir)[k.slot]) && FreshName(TableOf(Cleared(img, l), k.dir), e)
    requires Live(e) && Named(e)
    ensures AddsSlot(SetSlot(MetaOf(img), l, ZERO_ENTRY), MetaOf(Relocated(img, l, k, e)), lay, k, e)
  {
    ClearedIsSetSlot(img, l);
    var img1 := Cleared(img, l);
    PutTableMeta(img1, k.dir, TableOf(img1, k.dir)[k.slot := e]);
    forall d | d in lay.Dirs() && d < 512 && d != k.dir
      ensures MetaOf(Relocated(img, l, k, e)).tables[d] == MetaOf(img1).tables[d]
    {
    }
  }

  lemma RelocatedMoves(img: Image, lay: Layout, l: Loc, k: Loc)
    requires Consistent(MetaOf(img), lay) && Movable(img, lay, l, k)
    ensures Moves(MetaOf(img), MetaOf(Relocated(img, l, k, TableOf(img, l.dir)[l.slot])), lay, l, k)
  {
    var e := TableOf(img, l.dir)[l.slot];
    DirRange(MetaOf(img), lay);
    LiveEntryFacts(img, lay, l);
    RelocatedSlot(img, lay, l, k, e);
    RelocatedMeta(img, l, k, e);
  }

  lemma LiveEntryFacts(img: Image, lay: Layout, l: Loc)
    requires Consistent(MetaOf(img), lay) && l in lay.chains && l.dir < 512 && l.slot < 64
    ensures var e := TableOf(img, l.dir)[l.slot];
            && Live(e) && Named(e) && l.slot >= 1 && l.dir in lay.Dirs() && HeadOf(e) < 512
            && e == LiveEntry(e.name, e.ext, HeadOf(e), e.size)
            && |lay.chains[l]| > 0 && lay.chains[l][0] == HeadOf(e)
    ensures var e := TableOf(img, l.dir)[l.slot];
            e.size == 0 ==>
              && e.ext == NO_EXT && lay.chains[l] == [HeadOf(e)]
              && HeadOf(e) in lay.home && lay.home[HeadOf(e)] == l && TableOf(img, HeadOf(e))[0] == e
  {
    assert EntryOk(MetaOf(img), lay, l);
    assert TableOk(MetaOf(img).tables[l.dir], l.dir);
    if At(MetaOf(img), l).size == 0 {
      var x := lay.chains[l][0];
      assert TableOk(MetaOf(img).tables[x], x);
    }
  }

  /** A legal relocation keeps the whole-disk invariant. */
  lemma RelocationKeepsValid(img: Image, lay: Layout, l: Loc, k: Loc)
    requires Consistent(MetaOf(img), lay) && Movable(img, lay, l, k)
    ensures var e := TableOf(img, l.dir)[l.slot];
            Carries(MetaOf(img), lay, MetaOf(Relocated(img, l, k, e)), MoveEntry(lay, l, k, e.size == 0))
  {
    var e := TableOf(img, l.dir)[l.slot];
    var m' := MetaOf(Relocated(img, l, k, e));
    RelocatedMoves(img, lay, l, k);
    MovePreserves(MetaOf(img), m', lay, l, k);
    MoveTarget(MetaOf(img), m', lay, l, k);
    FreeIsNotOwned(MetaOf(img), lay, l, k);
    MoveLeaksNothing(MetaOf(img), m', lay, l, k, e.size == 0);
  }

  lemma FreeIsNotOwned(m: Meta, lay: Layout, l: Loc, k: Loc)
    requires SlotsMatch(m, lay) && k.dir < 512 && k.slot < 64 && (k == l || !Live(At(m, k)))
    ensures k == l || k !in lay.chains
  {
  }

  // ---- Content and reads -----------------------------------------------------------------

  lemma RelocationKeepsContent(img: Image, lay: Layout, l: Loc, k: Loc, e: Entry, j: Loc)
    requires Consistent(MetaOf(img), lay) && j in lay.chains && j.dir < 512 && j.slot < 64
    requires 2 <= l.dir < 512 && l.slot < 64 && 2 <= k.dir < 512 && k.slot < 64
    requires l.dir in lay.Dirs() && k.dir in lay.Dirs() && TableOf(img, j.dir)[j.slot].size > 0
    ensures SameContent(img, Relocated(img, l, k, e), lay.chains[j])
  {
    FileAvoidsDirs(MetaOf(img), lay, j, l.dir);
    FileAvoidsDirs(MetaOf(img), lay, j, k.dir);
    EntryChain(MetaOf(img), lay, j);
    forall i | 0 <= i < |lay.chains[j]|
      ensures lay.chains[j][i] != l.dir && lay.chains[j][i] != k.dir
    {
      assert lay.chains[j][i] in lay.chains[j];
    }
  }

  lemma RelocatedSlots(img: Image, l: Loc, k: Loc, e: Entry, d: nat, i: nat)
    requires 2 <= l.dir < 512 && l.slot < 64 && 2 <= k.dir < 512 && k.slot < 64 && 2 <= d < 512 && i < 64
    ensures TableOf(Relocated(img, l, k, e), d)[i]
         == if Loc(d, i) == k then e else if Loc(d, i) == l then ZERO_ENTRY else TableOf(img, d)[i]
  {
    ClearedMeta(img, l);
    RelocatedMeta(img, l, k, e);
  }

  lemma MoveSameFile(img: Image, img': Image, lay: Layout, l: Loc, k: Loc, isDir: bool, j: Loc)
    requires l in lay.chains && |lay.chains[l]| > 0 && j in lay.chains && j != l && j != k && j.dir < 512 && j.slot < 64
    requires TableOf(img', j.dir)[j.slot] == TableOf(img, j.dir)[j.slot]
    requires TableOf(img, j.dir)[j.slot].size > 0 ==> SameContent(img, img', lay.chains[j])
    ensures SameFile(img, img', lay, MoveEntry(lay, l, k, isDir), j)
  {
  }

  lemma RelocationMatches(img: Image, lay: Layout, l: Loc, k: Loc, q: Request)
    requires Consistent(MetaOf(img), lay) && Movable(img, lay, l, k) && 2 <= k.dir
    requires 2 <= q.parent < 512 && q.parent in lay.Dirs()
    requires !((q.parent == l.dir || q.parent == k.dir) && OfPair(TableOf(img, l.dir)[l.slot], q))
    ensures var e := TableOf(img, l.dir)[l.slot];
            SameMatches(img, Relocated(img, l, k, e), lay, MoveEntry(lay, l, k, e.size == 0), q)
  {
    var e := TableOf(img, l.dir)[l.slot];
    var img' := Relocated(img, l, k, e);
    var t, t' := TableOf(img, q.parent), TableOf(img', q.parent);
    FreeUnlessCleared(img, l, k);
    forall i | 0 <= i < 64 && (OfPair(t[i], q) || OfPair(t'[i], q))
      ensures t'[i] == t[i]
      ensures i > 0 ==> SameFile(img, img', lay, MoveEntry(lay, l, k, e.size == 0), Loc(q.parent, i))
    {
      RelocatedSlots(img, l, k, e, q.parent, i);
      if i > 0 {
        var j := Loc(q.parent, i);
        LiveSlotOwnsChain(img, lay, j);
        if t[i].size > 0 {
          RelocationKeepsContent(img, lay, l, k, e, j);
        }
        MoveSameFile(img, img', lay, l, k, e.size == 0, j);
      }
    }
  }

  lemma FreeUnlessCleared(img: Image, l: Loc, k: Loc)
    requires 2 <= l.dir < 512 && l.slot < 64 && k.dir < 512 && k.slot < 64
    requires !Live(TableOf(Cleared(img, l), k.dir)[k.slot])
    ensures k == l || !Live(TableOf(img, k.dir)[k.slot])
  {
    ClearedMeta(img, l);
  }

  lemma RelocationDirs(img: Image, lay: Layout, l: Loc, k: Loc)
    requires Consistent(MetaOf(img), lay) && l in lay.chains && l.dir < 512 && l.slot < 64 && |lay.chains[l]| > 0
    ensures MoveEntry(lay, l, k, TableOf(img, l.dir)[l.slot].size == 0).Dirs() == lay.Dirs()
    ensures forall d :: d in lay.Dirs() ==> 2 <= d < 512
    ensures Live(TableOf(img, l.dir)[l.slot]) && l.slot >= 1
  {
    DirRange(MetaOf(img), lay);
    LiveEntryFacts(img, lay, l);
  }

  lemma RelocationKeepsReads(img: Image, lay: Layout, l: Loc, k: Loc, q: Request)
    requires Consistent(MetaOf(img), lay) && Movable(img, lay, l, k)
    requires q.parent < 512 && q.parent in lay.Dirs()
    requires !((q.parent == l.dir || q.parent == k.dir) && OfPair(TableOf(img, l.dir)[l.slot], q))
    ensures ReadReply(Relocated(img, l, k, TableOf(img, l.dir)[l.slot]), q) == ReadReply(img, q)
  {
    var e := TableOf(img, l.dir)[l.slot];
    RelocationKeepsValid(img, lay, l, k);
    RelocationDirs(img, lay, l, k);
    RelocationMatches(img, lay, l, k, q);
    ReadSame(img, Relocated(img, l, k, e), lay, MoveEntry(lay, l, k, e.size == 0), q);
  }

  lemma RelocatedTableOk(img: Image, lay: Layout, l: Loc, k: Loc)
    requires Consistent(MetaOf(img), lay) && Movable(img, lay, l, k)
    ensures 2 <= k.dir < 512 && TableOk(TableOf(Relocated(img, l, k, TableOf(img, l.dir)[l.slot]), k.dir), k.dir)
    ensures TableOk(TableOf(img, l.dir), l.dir)
  {
    var e := TableOf(img, l.dir)[l.slot];
    RelocationKeepsValid(img, lay, l, k);
    RelocationDirs(img, lay, l, k);
    DirTableOk(img, lay, l.dir);
    DirTableOk(Relocated(img, l, k, e), MoveEntry(lay, l, k, e.size == 0), k.dir);
  }

  /** The moved name reads in its new directory as it read in the old one. */
  lemma RelocationCarriesReads(img: Image, lay: Layout, l: Loc, k: Loc, q: Request)
    requires Consistent(MetaOf(img), lay) && Movable(img, lay, l, k)
    requires q.parent == l.dir && OfPair(TableOf(img, l.dir)[l.slot], q)
    ensures ReadReply(Relocated(img, l, k, TableOf(img, l.dir)[l.slot]), q.(parent := k.dir)) == ReadReply(img, q)
  {
    var e := TableOf(img, l.dir)[l.slot];
    var img' := Relocated(img, l, k, e);
    RelocatedTableOk(img, lay, l, k);
    RelocatedSlots(img, l, k, e, k.dir, k.slot);
    ReadByMatch(img, q, l.slot);
    ReadByMatch(img', q.(parent := k.dir), k.slot);
    MovedReply(img, lay, l, k, q.size);
  }

  lemma MovedReply(img: Image, lay: Layout, l: Loc, k: Loc, size: u32)
    requires Consistent(MetaOf(img), lay) && Movable(img, lay, l, k) && 2 <= k.dir
    ensures var e := TableOf(img, l.dir)[l.slot];
            EntryReply(Relocated(img, l, k, e), e, size) == EntryReply(img, e, size)
  {
    var e := TableOf(img, l.dir)[l.slot];
    var img' := Relocated(img, l, k, e);
    RelocatedMeta(img, l, k, e);
    LiveEntryFacts(img, lay, l);
    if e.size == 0 {
      EmptyReply(img, e, size);
      EmptyReply(img', e, size);
    } else {
      FileReply(img, lay, l, size);
      RelocationKeepsContent(img, lay, l, k, e, l);
      GatherFrame(img, img', lay.chains[l]);
    }
  }

  // ---- mv name /target ---------------------------------------------------------------------

  function MoveFrom(img: Image, cur: nat, name: Name, ext: Ext): Loc
    requires cur < 512
  {
    Loc(cur, MoveSlot(img, cur, name, ext))
  }

  function MoveTo(img: Image, cur: nat, target: Name): Loc
    requires MoveIntoReady(img, cur, target) && TargetSlot(img, cur, target) < 64
  {
    var c := HeadOf(TableOf(img, cur)[TargetSlot(img, cur, target)]);
    Loc(c, First(TableOf(img, c), FreeSlot, 1))
  }

  /** What a caller can check before `mv name /target`: both names are there and differ, the
      target is a directory with a free slot, and it has no live entry of the moved name. */
  ghost predicate SafeMove(img: Image, cur: nat, name: Name, ext: Ext, target: Name)
    requires MoveIntoReady(img, cur, target)
  {
    var t, n, m := TableOf(img, cur), MoveSlot(img, cur, name, ext), TargetSlot(img, cur, target);
    && n < 64 && m < 64 && n != m && Live(t[n]) && t[m].size == 0
    && MoveTo(img, cur, target).slot < 64
    && FreshName(TableOf(img, HeadOf(t[m])), t[n])
  }

  lemma MovedEntryIsSame(e: Entry)
    requires HeadOf(e) < 512 && e == LiveEntry(e.name, e.ext, HeadOf(e), e.size)
    ensures MovedEntry(ZERO_ENTRY, e, e.name, e.ext) == e && ClearedEntry(e) == ZERO_ENTRY
  {
  }

  lemma OwnedSlot(img: Image, lay: Layout, l: Loc)
    requires Consistent(MetaOf(img), lay) && l.dir in lay.Dirs() && l.dir < 512 && 1 <= l.slot < 64
    requires Live(TableOf(img, l.dir)[l.slot])
    ensures l in lay.chains && |lay.chains[l]| > 0
  {
    LiveSlotOwnsChain(img, lay, l);
  }

  /** Of two entries in one table, `t` a directory: where `t` points is another directory than the
      one they are in and than the one `l` may name. */
  lemma SiblingEnds(img: Image, lay: Layout, l: Loc, t: Loc, c: nat)
    requires Consistent(MetaOf(img), lay) && l.dir == t.dir && l.dir in lay.Dirs() && l.dir < 512 && l != t
    requires 1 <= l.slot < 64 && Live(TableOf(img, l.dir)[l.slot])
    requires 1 <= t.slot < 64 && Live(TableOf(img, t.dir)[t.slot]) && TableOf(img, t.dir)[t.slot].size == 0
    requires c == HeadOf(TableOf(img, t.dir)[t.slot])
    ensures l in lay.chains && |lay.chains[l]| > 0 && 2 <= l.dir
    ensures c in lay.home && lay.home[c].dir == l.dir && 2 <= c < 512 && c != l.dir && c != lay.chains[l][0]
    ensures forall s :: 0 <= s < 64 && !Live(TableOf(img, c)[s]) ==> TableOf(img, c)[s] == ZERO_ENTRY
  {
    DirRange(MetaOf(img), lay);
    OwnedSlot(img, lay, t);
    LiveEntryFacts(img, lay, t);
    OwnedSlot(img, lay, l);
    NotItsOwnParent(lay.home, c);
    DirTableOk(img, lay, c);
    assert lay.chains[l][0] in lay.chains[l] && c in lay.chains[t];
  }

  /** The target is a child directory of the current one, different from what is moved. */
  lemma MoveEnds(img: Image, lay: Layout, cur: nat, name: Name, ext: Ext, target: Name)
    requires Consistent(MetaOf(img), lay) && cur in lay.Dirs() && MoveIntoReady(img, cur, target)
    requires SafeMove(img, cur, name, ext, target)
    ensures var l, k := MoveFrom(img, cur, name, ext), MoveTo(img, cur, target);
            && l in lay.chains && |lay.chains[l]| > 0 && 2 <= cur < 512
            && k.dir in lay.home && lay.home[k.dir].dir == cur && 2 <= k.dir < 512 && k.dir != cur
            && k.dir != lay.chains[l][0] && 1 <= k.slot < 64
            && TableOf(img, k.dir)[k.slot] == ZERO_ENTRY
  {
    var l, k := MoveFrom(img, cur, name, ext), MoveTo(img, cur, target);
    SiblingEnds(img, lay, l, Loc(cur, TargetSlot(img, cur, target)), k.dir);
    assert Hits(FreeSlot, TableOf(img, k.dir)[k.slot]);
  }

  lemma SiblingMovable(img: Image, lay: Layout, l: Loc, k: Loc)
    requires Consistent(MetaOf(img), lay) && l in lay.chains && |lay.chains[l]| > 0 && 2 <= l.dir < 512 && l.slot < 64
    requires k.dir in lay.home && lay.home[k.dir].dir == l.dir && 2 <= k.dir < 512 && k.dir != l.dir
    requires k.dir != lay.chains[l][0] && 1 <= k.slot < 64 && !Live(TableOf(img, k.dir)[k.slot])
    requires FreshName(TableOf(img, k.dir), TableOf(img, l.dir)[l.slot])
    ensures Movable(img, lay, l, k)
  {
    LiveEntryFacts(img, lay, l);
    if TableOf(img, l.dir)[l.slot].size == 0 {
      IntoSiblingWellFounded(lay.home, lay.chains[l][0], k);
    }
  }

  lemma MoveIntoIs(img: Image, cur: nat, name: Name, ext: Ext, target: Name, l: Loc, k: Loc, e: Entry)
    requires 2 <= cur < 512 && MoveIntoReady(img, cur, target) && TargetSlot(img, cur, target) < 64
    requires l == MoveFrom(img, cur, name, ext) && l.slot < 64 && k == MoveTo(img, cur, target) && k.slot < 64
    requires 2 <= k.dir < 512 && k.dir != cur && TableOf(img, k.dir)[k.slot] == ZERO_ENTRY
    requires e == TableOf(img, cur)[l.slot] && MovedEntry(ZERO_ENTRY, e, name, ext) == e
    requires ClearedEntry(e) == ZERO_ENTRY
    ensures MoveInto(img, cur, name, ext, target) == Relocated(img, l, k, e)
  {
    MoveOrder(img, l, k, e);
  }

  lemma MoveIntoIsRelocation(img: Image, lay: Layout, cur: nat, name: Name, ext: Ext, target: Name)
    requires Consistent(MetaOf(img), lay) && cur in lay.Dirs() && MoveIntoReady(img, cur, target)
    requires SafeMove(img, cur, name, ext, target)
    ensures var l, k := MoveFrom(img, cur, name, ext), MoveTo(img, cur, target);
            && Movable(img, lay, l, k)
            && MoveInto(img, cur, name, ext, target) == Relocated(img, l, k, TableOf(img, l.dir)[l.slot])
  {
    var l, k := MoveFrom(img, cur, name, ext), MoveTo(img, cur, target);
    MoveEnds(img, lay, cur, name, ext, target);
    LiveEntryFacts(img, lay, l);
    MovedEntryIsSame(TableOf(img, cur)[l.slot]);
    SiblingMovable(img, lay, l, k);
    MoveIntoIs(img, cur, name, ext, target, l, k, TableOf(img, cur)[l.slot]);
  }

  /** Depositing first and clearing afterwards makes no difference between different tables. */
  lemma MoveOrder(img: Image, l: Loc, k: Loc, e: Entry)
    requires 2 <= l.dir < 512 && l.slot < 64 && 2 <= k.dir < 512 && k.slot < 64 && l.dir != k.dir
    ensures PutTable(PutTable(img, k.dir, TableOf(img, k.dir)[k.slot := e]), l.dir,
                     TableOf(img, l.dir)[l.slot := ZERO_ENTRY])
         == Relocated(img, l, k, e)
  {
    ClearedMeta(img, l);
  }

  /** Past the only target the scan changes nothing more. */
  lemma {:induction false} ScanFindsNothing(img: Image, cur: nat, t: Table, i: nat, name: Name, ext: Ext, target: Name)
    requires cur < 512 && 1 <= i <= 64 && TargetsReadable(t, target)
    requires forall j :: i <= j < 64 ==> !Hits(ByLivePair(target, NO_EXT), t[j])
    ensures MoveScan(img, cur, t, i, name, ext, target) == img && MoveSteps(img, cur, t, i, name, ext, target) == []
    decreases |t| - i
  {
    if i < 64 {
      ScanFindsNothing(img, cur, t, i + 1, name, ext, target);
    }
  }

  lemma {:induction false} ScanReaches(img: Image, cur: nat, t: Table, i: nat, m: nat, name: Name, ext: Ext,
                                       target: Name)
    requires cur < 512 && 1 <= i <= m <= 64 && TargetsReadable(t, target)
    requires forall j :: i <= j < m ==> !Hits(ByLivePair(target, NO_EXT), t[j])
    ensures MoveScan(img, cur, t, i, name, ext, target) == MoveScan(img, cur, t, m, name, ext, target)
    ensures MoveSteps(img, cur, t, i, name, ext, target) == MoveSteps(img, cur, t, m, name, ext, target)
    decreases m - i
  {
    if i < m {
      ScanReaches(img, cur, t, i + 1, m, name, ext, target);
    }
  }

  lemma OnlyTarget(t: Table, d: nat, m: nat, target: Name)
    requires TableOk(t, d) && m < 64 && Hits(ByLivePair(target, NO_EXT), t[m])
    ensures forall j :: m < j < 64 ==> !Hits(ByLivePair(target, NO_EXT), t[j])
  {
    forall j | m < j < 64
      ensures !Hits(ByLivePair(target, NO_EXT), t[j])
    {
      assert Live(t[j]) ==> !SameName(t[m], t[j]);
    }
  }

  lemma ScanActsOnce(img: Image, cur: nat, t: Table, m: nat, name: Name, ext: Ext, target: Name)
    requires cur < 512 && 1 <= m < 64 && TableOk(t, cur) && TargetsReadable(t, target)
    requires m == First(t, ByLivePair(target, NO_EXT), 1)
    ensures MoveScan(img, cur, t, 1, name, ext, target) == MoveOnto(img, cur, t, m, name, ext).0
    ensures MoveSteps(img, cur, t, 1, name, ext, target) == MoveOntoSteps(img, cur, t, m, name, ext)
  {
    ScanReaches(img, cur, t, 1, m, name, ext, target);
    OnlyTarget(t, cur, m, target);
    var img', t' := AfterTarget(img, cur, t, m, name, ext, target);
    ScanFindsNothing(img', cur, t', m + 1, name, ext, target);
  }

  lemma AfterTarget(img: Image, cur: nat, t: Table, m: nat, name: Name, ext: Ext, target: Name)
    returns (img': Image, t': Table)
    requires cur < 512 && 1 <= m < 64 && Hits(ByLivePair(target, NO_EXT), t[m]) && TargetsReadable(t, target)
    requires forall j :: m < j < 64 ==> !Hits(ByLivePair(target, NO_EXT), t[j])
    ensures (img', t') == MoveOnto(img, cur, t, m, name, ext) && TargetsReadable(t', target)
    ensures forall j :: m < j < 64 ==> !Hits(ByLivePair(target, NO_EXT), t'[j])
    ensures MoveScan(img, cur, t, m, name, ext, target) == MoveScan(img', cur, t', m + 1, name, ext, target)
    ensures MoveSteps(img, cur, t, m, name, ext, target)
            == MoveOntoSteps(img, cur, t, m, name, ext) + MoveSteps(img', cur, t', m + 1, name, ext, target)
  {
    img', t' := MoveOnto(img, cur, t, m, name, ext).0, MoveOnto(img, cur, t, m, name, ext).1;
  }

  /** Names on a consistent disk are unique, so the scan of `mv` acts once at most. */
  lemma ScanIsMoveInto(img: Image, lay: Layout, cur: nat, name: Name, ext: Ext, target: Name)
    requires Consistent(MetaOf(img), lay) && cur in lay.Dirs() && cur < 512
    ensures MoveIntoReady(img, cur, target) && TargetsReadable(TableOf(img, cur), target)
    ensures MoveScan(img, cur, TableOf(img, cur), 1, name, ext, target) == MoveInto(img, cur, name, ext, target)
  {
    var t, m := TableOf(img, cur), TargetSlot(img, cur, target);
    TargetsAreReadable(img, lay, cur, target);
    DirTableOk(img, lay, cur);
    if m < 64 {
      ScanActsOnce(img, cur, t, m, name, ext, target);
    } else {
      ScanFindsNothing(img, cur, t, 1, name, ext, target);
    }
  }

  /** A safe move is two writes: the target's table, then the current one. */
  lemma SafeMoveSteps(img: Image, lay: Layout, cur: nat, name: Name, ext: Ext, target: Name)
    requires Consistent(MetaOf(img), lay) && cur in lay.Dirs() && MoveIntoReady(img, cur, target)
    requires SafeMove(img, cur, name, ext, target)
    ensures TargetsReadable(TableOf(img, cur), target) && MoveTo(img, cur, target).dir < 512
    ensures var l, c := MoveFrom(img, cur, name, ext), MoveTo(img, cur, target).dir;
            MoveSteps(img, cur, TableOf(img, cur), 1, name, ext, target)
            == [Deposit(img, c, c, TableOf(img, cur)[l.slot], name, ext), MoveInto(img, cur, name, ext, target)]
  {
    TargetsAreReadable(img, lay, cur, target);
    DirTableOk(img, lay, cur);
    MoveEnds(img, lay, cur, name, ext, target);
    ScanActsOnce(img, cur, TableOf(img, cur), TargetSlot(img, cur, target), name, ext, target);
  }

  lemma TargetsAreReadable(img: Image, lay: Layout, cur: nat, target: Name)
    requires Consistent(MetaOf(img), lay) && cur in lay.Dirs() && cur < 512
    ensures TargetsReadable(TableOf(img, cur), target)
  {
    forall m | 1 <= m < 64 && Hits(ByLivePair(target, NO_EXT), TableOf(img, cur)[m])
      ensures HeadOf(TableOf(img, cur)[m]) < 2048
    {
      LiveEntryFacts(img, lay, Loc(cur, m));
    }
  }

  /** A safe `mv name /target` keeps the whole-disk invariant; the entry, its chain and everything
      below it keep their clusters. */
  lemma MoveIntoKeepsValid(img: Image, lay: Layout, cur: nat, name: Name, ext: Ext, target: Name)
    requires Consistent(MetaOf(img), lay) && cur in lay.Dirs() && MoveIntoReady(img, cur, target)
    requires SafeMove(img, cur, name, ext, target)
    ensures var l, k := MoveFrom(img, cur, name, ext), MoveTo(img, cur, target);
            && l in lay.chains && |lay.chains[l]| > 0
            && Carries(MetaOf(img), lay, MetaOf(MoveInto(img, cur, name, ext, target)),
                     MoveEntry(lay, l, k, TableOf(img, cur)[l.slot].size == 0))
            && SameBut(img, MoveInto(img, cur, name, ext, target), [cur, k.dir])
  {
    var l, k := MoveFrom(img, cur, name, ext), MoveTo(img, cur, target);
    MoveIntoIsRelocation(img, lay, cur, name, ext, target);
    RelocationKeepsValid(img, lay, l, k);
    RelocationTouchesTables(img, lay, l, k);
  }

  lemma RelocationTouchesTables(img: Image, lay: Layout, l: Loc, k: Loc)
    requires TablesOk(MetaOf(img), lay) && l.dir in lay.Dirs() && k.dir in lay.Dirs()
    requires l.dir < 512 && l.slot < 64 && k.dir < 512 && k.slot < 64
    ensures SameBut(img, Relocated(img, l, k, TableOf(img, l.dir)[l.slot]), [l.dir, k.dir])
  {
  }

  /** After a safe `mv name /target` the name reads in the target as it read before, and no other
      read changes. */
  lemma MoveIntoReads(img: Image, lay: Layout, cur: nat, name: Name, ext: Ext, target: Name, q: Request)
    requires Consistent(MetaOf(img), lay) && cur in lay.Dirs() && MoveIntoReady(img, cur, target)
    requires SafeMove(img, cur, name, ext, target) && q.parent < 512 && q.parent in lay.Dirs()
    ensures var img', k := MoveInto(img, cur, name, ext, target), MoveTo(img, cur, target);
            && k.dir < 512
            && if q.parent == cur && q.name == name && q.ext == ext
               then ReadReply(img', q.(parent := k.dir)) == ReadReply(img, q)
               else !(q.parent == k.dir && q.name == name && q.ext == ext) ==> ReadReply(img', q) == ReadReply(img, q)
  {
    var l, k := MoveFrom(img, cur, name, ext), MoveTo(img, cur, target);
    MoveIntoIsRelocation(img, lay, cur, name, ext, target);
    if q.parent == cur && q.name == name && q.ext == ext {
      RelocationCarriesReads(img, lay, l, k, q);
    } else if !(q.parent == k.dir && q.name == name && q.ext == ext) {
      RelocationKeepsReads(img, lay, l, k, q);
    }
  }
}
