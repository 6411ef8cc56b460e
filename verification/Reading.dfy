/** What `read` returns on a consistent disk, and when two disks give a reader the same answer. */
module Reading {
  import opened Format
  import opened Volume
  import opened Allocation
  import opened Storage
  import opened DriverSpec

  predicate OfPair(e: Entry, r: Request) {
    Live(e) && e.name == r.name && e.ext == r.ext
  }

  lemma MatchIsUnique(t: Table, d: nat, r: Request, i: nat)
    requires TableOk(t, d) && i < 64 && OfPair(t[i], r)
    ensures First(t, ByPair(r.name, r.ext), 0) == i
  {
    var k := First(t, ByPair(r.name, r.ext), 0);
    assert k < i ==> SameName(t[k], t[i]);
  }

  lemma NoMatchReadsNothing(img: Image, r: Request)
    requires r.parent < 512 && TableOk(TableOf(img, r.parent), r.parent)
    requires forall i :: 0 <= i < 64 ==> !OfPair(TableOf(img, r.parent)[i], r)
    ensures ReadReply(img, r) == Reply(0, [])
  {
    var t := TableOf(img, r.parent);
    var k := First(t, ByPair(r.name, r.ext), 0);
    if k < 64 {
      assert Hits(ByPair(r.name, r.ext), t[k]);
      assert !OfPair(t[k], r);
      assert t[k] == ZERO_ENTRY;
      EmptyReply(img, t[k], r.size);
    }
  }

  /** An entry of size 0 reads as nothing, whatever it points at. */
  lemma EmptyReply(img: Image, e: Entry, size: u32)
    requires e.size == 0 && e.attribute == 0
    ensures EntryReply(img, e, size) == Reply(0, [])
  {
    assert Follow(FatOf(img), HeadOf(e), 0) == [];
  }

  lemma FileReply(img: Image, lay: Layout, l: Loc, size: u32)
    requires EntriesOk(MetaOf(img), lay) && l in lay.chains
    requires l.dir < 512 && l.slot < 64 && TableOf(img, l.dir)[l.slot].size > 0
    ensures var e, ch := TableOf(img, l.dir)[l.slot], lay.chains[l];
            && e.attribute == 0 && |ch| == ClusterCount(e.size) && IsChain(FatOf(img), ch)
            && Follow(FatOf(img), HeadOf(e), ClusterCount(e.size)) == ch
            && EntryReply(img, e, size) == if size < e.size then Reply(2, []) else Reply(0, Gather(img, ch))
  {
    var m := MetaOf(img);
    assert EntryOk(m, lay, l);
    FollowChain(m.fat, lay.chains[l]);
  }

  /** On a consistent disk a read of a file is answered with 2 and nothing if the buffer is too small for
      it, and otherwise with 0 and the clusters of its chain. */
  lemma FileAnswer(img: Image, lay: Layout, r: Request, i: nat)
    requires Consistent(MetaOf(img), lay) && r.parent in lay.Dirs()
    requires i < 64 && OfPair(TableOf(img, r.parent)[i], r) && TableOf(img, r.parent)[i].size > 0
    ensures r.size < TableOf(img, r.parent)[i].size ==> ReadReply(img, r) == Reply(2, [])
    ensures r.size >= TableOf(img, r.parent)[i].size ==>
              && Loc(r.parent, i) in lay.chains && IsChain(FatOf(img), lay.chains[Loc(r.parent, i)])
              && ReadReply(img, r) == Reply(0, Gather(img, lay.chains[Loc(r.parent, i)]))
  {
    var m := MetaOf(img);
    assert TableOk(m.tables[r.parent], r.parent);
    assert Live(At(m, Loc(r.parent, i)));
    MatchIsUnique(TableOf(img, r.parent), r.parent, r, i);
    FileReply(img, lay, Loc(r.parent, i), r.size);
  }

  /** On a consistent disk every read stays in bounds. */
  lemma ReadIsReady(img: Image, lay: Layout, r: Request)
    requires Consistent(MetaOf(img), lay) && r.parent in lay.Dirs()
    ensures ReadReady(img, r)
  {
    var m := MetaOf(img);
    var t := TableOf(img, r.parent);
    assert TableOk(m.tables[r.parent], r.parent);
    var i := First(t, ByPair(r.name, r.ext), 0);
    if i < 64 && t[i].size > 0 {
      assert Live(At(m, Loc(r.parent, i)));
      FileReply(img, lay, Loc(r.parent, i), 0);
    }
  }

  /** The file at `l` is the same on both disks: entry, chain and every cluster of content. */
  ghost predicate SameFile(img: Image, img': Image, lay: Layout, lay': Layout, l: Loc) {
    && l in lay.chains && l in lay'.chains && l.dir < 512 && l.slot < 64
    && TableOf(img', l.dir)[l.slot] == TableOf(img, l.dir)[l.slot]
    && (TableOf(img, l.dir)[l.slot].size > 0
        ==> SameContent(img, img', lay.chains[l]) && lay'.chains[l] == lay.chains[l])
  }

  ghost predicate SameContent(img: Image, img': Image, ch: seq<nat>) {
    forall i :: 0 <= i < |ch| ==> ch[i] < 512 && img'[ch[i]] == img[ch[i]]
  }

  lemma SameFileSameReply(img: Image, img': Image, lay: Layout, lay': Layout, l: Loc, size: u32)
    requires EntriesOk(MetaOf(img), lay) && EntriesOk(MetaOf(img'), lay')
    requires SameFile(img, img', lay, lay', l)
    ensures var e := TableOf(img, l.dir)[l.slot]; EntryReply(img', e, size) == EntryReply(img, e, size)
  {
    var e := TableOf(img, l.dir)[l.slot];
    if e.size == 0 {
      assert EntryOk(MetaOf(img), lay, l);
      EmptyReply(img, e, size);
      EmptyReply(img', e, size);
    } else {
      FileReply(img, lay, l, size);
      FileReply(img', lay', l, size);
      GatherFrame(img, img', lay.chains[l]);
    }
  }

  /** The entries that answer the request, if any, are the same. */
  ghost predicate SameMatches(img: Image, img': Image, lay: Layout, lay': Layout, r: Request)
    requires r.parent < 512
  {
    var t, t' := TableOf(img, r.parent), TableOf(img', r.parent);
    forall i :: 0 <= i < 64 && (OfPair(t[i], r) || OfPair(t'[i], r)) ==>
      t'[i] == t[i] && (i > 0 ==> SameFile(img, img', lay, lay', Loc(r.parent, i)))
  }

  lemma DirTableOk(img: Image, lay: Layout, d: nat)
    requires Consistent(MetaOf(img), lay) && d in lay.Dirs()
    ensures d < 512 && TableOk(TableOf(img, d), d)
  {
    assert TableOk(MetaOf(img).tables[d], d);
  }

  lemma ReadByMatch(img: Image, r: Request, i: nat)
    requires r.parent < 512 && TableOk(TableOf(img, r.parent), r.parent)
    requires i < 64 && OfPair(TableOf(img, r.parent)[i], r)
    ensures ReadReply(img, r) == EntryReply(img, TableOf(img, r.parent)[i], r.size)
  {
    MatchIsUnique(TableOf(img, r.parent), r.parent, r, i);
  }

  /** A live file answers with its chain, to whoever names it. */
  lemma FileAnswers(img: Image, lay: Layout, l: Loc, r: Request)
    requires Consistent(MetaOf(img), lay) && l.dir in lay.Dirs() && l.dir < 512 && l.slot < 64 && l in lay.chains
    requires r.parent == l.dir && OfPair(TableOf(img, l.dir)[l.slot], r)
    requires r.size >= TableOf(img, l.dir)[l.slot].size > 0
    ensures IsChain(FatOf(img), lay.chains[l]) && ReadReply(img, r) == Reply(0, Gather(img, lay.chains[l]))
    ensures |lay.chains[l]| == ClusterCount(TableOf(img, l.dir)[l.slot].size)
  {
    FileReply(img, lay, l, r.size);
    ReadByMatch(img, r, l.slot);
  }

  lemma OwnEntryReply(img: Image, d: nat, size: u32)
    requires d < 512 && TableOk(TableOf(img, d), d)
    ensures EntryReply(img, TableOf(img, d)[0], size) == Reply(0, [])
  {
    EmptyReply(img, TableOf(img, d)[0], size);
  }

  lemma ReadSame(img: Image, img': Image, lay: Layout, lay': Layout, r: Request)
    requires Consistent(MetaOf(img), lay) && Consistent(MetaOf(img'), lay')
    requires r.parent < 512 && r.parent in lay.Dirs() && r.parent in lay'.Dirs()
    requires SameMatches(img, img', lay, lay', r)
    ensures ReadReply(img', r) == ReadReply(img, r)
  {
    DirTableOk(img, lay, r.parent);
    DirTableOk(img', lay', r.parent);
    if i :| 0 <= i < 64 && OfPair(TableOf(img, r.parent)[i], r) {
      ReadByMatch(img, r, i);
      ReadByMatch(img', r, i);
      if i == 0 {
        OwnEntryReply(img, r.parent, r.size);
        OwnEntryReply(img', r.parent, r.size);
      } else {
        SameFileSameReply(img, img', lay, lay', Loc(r.parent, i), r.size);
      }
    } else {
      NoMatchReadsNothing(img, r);
      NoMatchReadsNothing(img', r);
    }
  }
}
