/** Where `delete` stops being safe: a crash half-way through it, and requests whose target is not
    an entry of the right kind. */
module Limits {
  import opened Format
  import opened Volume
  import opened Edits
  import opened Tree
  import opened Allocation
  import opened Storage
  import opened DriverSpec
  import opened Reading
  import opened DeleteProofs

  // ---- A crash between the two writes ----------------------------------------------

  ghost predicate SameEntries(m: Meta, m': Meta, lay: Layout) {
    forall l :: l in lay.chains && l.dir < 512 && l.slot < 64 ==> At(m', l) == At(m, l)
  }

  /** Directories stay reachable as long as the entries of the tree are unchanged. */
  lemma SameEntriesNameDirs(m: Meta, m': Meta, lay: Layout)
    requires Consistent(m, lay) && SameEntries(m, m', lay)
    ensures NamesDirs(m', lay.home)
  {
    HomeNamesDirs(m, lay);
    forall d | d in lay.home
      ensures NamesDir(m', lay.home, d)
    {
      assert NamesDir(m, lay.home, d);
    }
  }

  /** `delete` writes the map first. Stopping there leaves an entry whose chain is gone: no layout
      makes that disk consistent. */
  lemma DeleteIsNotCrashSafe(img: Image, lay: Layout, r: Request)
    requires Valid(MetaOf(img), lay) && r.parent in lay.Dirs() && r.parent < 512 && Deletable(img, r)
    requires DeleteReady(img, r) && DeleteOutcome(img, r).code == 0
    ensures var mid := PutFat(img, FatOf(DeleteOutcome(img, r).img));
            forall lay' :: !Consistent(MetaOf(mid), lay')
  {
    var l := Loc(r.parent, Target(img, r));
    DeleteRemoves(img, lay, r);
    forall lay'
      ensures !Consistent(MetaOf(PutFat(img, FatOf(Freed(img, lay, l)))), lay')
    {
      FreedHeadIsLost(img, lay, l, lay');
    }
  }

  lemma FreedHeadIsLost(img: Image, lay: Layout, l: Loc, lay': Layout)
    requires Consistent(MetaOf(img), lay) && l in lay.chains && l.dir < 512 && l.slot < 64
    requires IsChain(FatOf(img), lay.chains[l])
    ensures !Consistent(MetaOf(PutFat(img, FatOf(Freed(img, lay, l)))), lay')
  {
    FreedFat(img, lay, l);
    LostHead(img, FatOf(Freed(img, lay, l)), lay, l, lay');
  }

  lemma LostHead(img: Image, fat: Fat, lay: Layout, l: Loc, lay': Layout)
    requires Consistent(MetaOf(img), lay) && l in lay.chains && l.dir < 512 && l.slot < 64
    requires At(MetaOf(img), l).low < 512 ==> fat[At(MetaOf(img), l).low] == 0
    ensures !Consistent(MetaOf(PutFat(img, fat)), lay')
  {
    PutFatKeepsTables(img, fat, lay);
    if Consistent(MetaOf(PutFat(img, fat)), lay') {
      SameEntriesNameDirs(MetaOf(img), MetaOf(PutFat(img, fat)), lay);
      NamedDirsAreIn(MetaOf(PutFat(img, fat)), lay', lay.home);
      assert l == Loc(l.dir, l.slot);
      assert EntryOk(MetaOf(PutFat(img, fat)), lay', l);
      assert lay'.chains[l][0] in lay'.chains[l];
      ChainIsTaken(MetaOf(PutFat(img, fat)).fat, lay'.chains[l], lay'.chains[l][0]);
    }
  }

  lemma FreedFat(img: Image, lay: Layout, l: Loc)
    requires Consistent(MetaOf(img), lay) && l in lay.chains && l.dir < 512 && l.slot < 64
    requires IsChain(FatOf(img), lay.chains[l])
    ensures forall c :: 0 <= c < 512 ==>
      FatOf(Freed(img, lay, l))[c] == if c in lay.chains[l] then 0 else FatOf(img)[c]
    ensures At(MetaOf(img), l).low == lay.chains[l][0] && lay.chains[l][0] in lay.chains[l]
  {
    DirRange(MetaOf(img), lay);
    assert EntryOk(MetaOf(img), lay, l);
    UnlinkFrees(FatOf(img), lay.chains[l]);
    RemovedMeta(img, Unlink(FatOf(img), lay.chains[l], |lay.chains[l]|), l);
  }

  lemma PutFatKeepsTables(img: Image, fat: Fat, lay: Layout)
    requires Consistent(MetaOf(img), lay)
    ensures MetaOf(PutFat(img, fat)).fat == fat
    ensures SameEntries(MetaOf(img), MetaOf(PutFat(img, fat)), lay)
  {
    PutFatMeta(img, fat);
    DirRange(MetaOf(img), lay);
  }

  // ---- Which targets are safe ----------------------------------------------------------

  /** `m'` has the entries of `m` and perhaps fewer. */
  ghost predicate Shrinks(m: Meta, m': Meta) {
    forall d, s :: 2 <= d < 512 && 0 <= s < 64 ==>
      At(m', Loc(d, s)) == At(m, Loc(d, s)) || At(m', Loc(d, s)) == ZERO_ENTRY
  }

  lemma ShrinkNamesDirs(m: Meta, m': Meta, h: map<nat, Loc>)
    requires NamesDirs(m', h) && Shrinks(m, m') && forall d :: d in h ==> d >= 2
    ensures NamesDirs(m, h)
  {
    forall d | d in h
      ensures NamesDir(m, h, d)
    {
      assert NamesDir(m', h, d);
    }
  }

  lemma ShrinkKeepsDirs(m: Meta, m': Meta, lay: Layout, lay': Layout)
    requires Consistent(m, lay) && Consistent(m', lay') && Shrinks(m, m')
    ensures lay'.Dirs() <= lay.Dirs()
  {
    HomeNamesDirs(m', lay');
    ShrinkNamesDirs(m, m', lay'.home);
    NamedDirsAreIn(m, lay, lay'.home);
  }

  lemma ShrinkKeepsEntry(m: Meta, m': Meta, lay: Layout, lay': Layout, k: Loc)
    requires Consistent(m, lay) && Consistent(m', lay') && Shrinks(m, m') && k in lay'.chains
    ensures k.dir in lay'.Dirs() && k.dir < 512 && k.slot < 64 && Live(At(m', k))
    ensures k in lay.chains && At(m', k) == At(m, k)
  {
    ShrinkKeepsDirs(m, m', lay, lay');
  }

  /** If cells of `l`'s chain were changed and its entry removed, a cell still taken belongs to an
      entry other than `l` that is still there. */
  lemma TakenHasOtherOwner(m: Meta, m': Meta, lay: Layout, lay': Layout, l: Loc, j: Loc, c: nat)
    requires Consistent(m, lay) && Valid(m', lay') && Shrinks(m, m')
    requires l in lay.chains && l.dir < 512 && l.slot < 64 && !Live(At(m', l))
    requires forall x :: 0 <= x < 512 && x !in lay.chains[l] ==> m'.fat[x] == m.fat[x]
    requires j in lay.chains && c in lay.chains[j] && 3 <= c < 512 && m'.fat[c] != 0
    ensures j != l && j in lay'.chains
  {
    assert Owned(lay', c);
    var k :| k in lay'.chains && c in lay'.chains[k];
    ShrinkKeepsEntry(m, m', lay, lay', k);
    assert k != l;
    forall x | 0 <= x < 512 && x in lay.chains[k]
      ensures m'.fat[x] == m.fat[x]
    {
    }
    EntryChain(m, lay, k);
    EntryChain(m', lay', k);
    SameChainAcross(m'.fat, m.fat, lay'.chains[k], lay.chains[k]);
  }

  lemma RemovedShrinks(img: Image, fat: Fat, l: Loc)
    requires 2 <= l.dir < 512 && l.slot < 64
    ensures Shrinks(MetaOf(img), MetaOf(Removed(img, fat, l)))
    ensures At(MetaOf(Removed(img, fat, l)), l) == ZERO_ENTRY
    ensures MetaOf(Removed(img, fat, l)).fat == fat
  {
    RemovedMeta(img, fat, l);
  }

  /** Clearing only the first cell of a longer chain leaks the rest. */
  lemma LeakyRemoval(img: Image, fat: Fat, lay: Layout, l: Loc, lay': Layout)
    requires Consistent(MetaOf(img), lay) && l in lay.chains && 2 <= l.dir < 512 && l.slot < 64
    requires forall x :: 0 <= x < 512 && x !in lay.chains[l] ==> fat[x] == FatOf(img)[x]
    requires exists c :: c in lay.chains[l] && 3 <= c < 512 && fat[c] != 0
    ensures !Valid(MetaOf(Removed(img, fat, l)), lay')
  {
    var c :| c in lay.chains[l] && 3 <= c < 512 && fat[c] != 0;
    RemovedShrinks(img, fat, l);
    if Valid(MetaOf(Removed(img, fat, l)), lay') {
      TakenHasOtherOwner(MetaOf(img), MetaOf(Removed(img, fat, l)), lay, lay', l, l, c);
    }
  }

  /** Freeing a directory that still has an entry leaves that entry's chain without an owner. */
  lemma DanglingRemoval(img: Image, fat: Fat, lay: Layout, l: Loc, j: Loc, lay': Layout)
    requires Consistent(MetaOf(img), lay) && l in lay.chains && 2 <= l.dir < 512 && l.slot < 64
    requires forall x :: 0 <= x < 512 && x !in lay.chains[l] ==> fat[x] == FatOf(img)[x]
    requires j in lay.chains && j != l && j.dir in lay.chains[l] && j.dir < 512 && fat[j.dir] == 0
    ensures !Valid(MetaOf(Removed(img, fat, l)), lay')
  {
    var m' := MetaOf(Removed(img, fat, l));
    ChainStart(MetaOf(img), lay, j);
    var c := lay.chains[j][0];
    RemovedShrinks(img, fat, l);
    assert c !in lay.chains[l];
    if Valid(m', lay') {
      TakenHasOtherOwner(MetaOf(img), m', lay, lay', l, j, c);
      DirsAreTaken(m', lay', j.dir);
    }
  }

  lemma ChainStart(m: Meta, lay: Layout, j: Loc)
    requires EntriesOk(m, lay) && j in lay.chains
    ensures |lay.chains[j]| > 0 && lay.chains[j][0] in lay.chains[j] && 3 <= lay.chains[j][0] < 512
    ensures m.fat[lay.chains[j][0]] != 0
  {
    assert EntryOk(m, lay, j);
    ChainIsTaken(m.fat, lay.chains[j], lay.chains[j][0]);
  }

  lemma OwnRemovalKeepsEntries(img: Image, fat: Fat, lay: Layout, d: nat)
    requires Consistent(MetaOf(img), lay) && 2 <= d < 512
    ensures SameEntries(MetaOf(img), MetaOf(Removed(img, fat, Loc(d, 0))), lay)
    ensures MetaOf(Removed(img, fat, Loc(d, 0))).fat == fat
  {
    RemovedMeta(img, fat, Loc(d, 0));
    DirRange(MetaOf(img), lay);
    forall l | l in lay.chains && l.dir < 512 && l.slot < 64
      ensures At(MetaOf(Removed(img, fat, Loc(d, 0))), l) == At(MetaOf(img), l)
    {
      assert l.dir in lay.Dirs() && l.slot >= 1;
    }
  }

  /** Removing a table's own entry and freeing its cluster is never recovered from. */
  lemma OwnRemoval(img: Image, fat: Fat, lay: Layout, d: nat, lay': Layout)
    requires Consistent(MetaOf(img), lay) && d in lay.Dirs() && 2 <= d < 512 && fat[d] == 0
    ensures !Consistent(MetaOf(Removed(img, fat, Loc(d, 0))), lay')
  {
    OwnRemovalKeepsEntries(img, fat, lay, d);
    if Consistent(MetaOf(Removed(img, fat, Loc(d, 0))), lay') {
      SameEntriesNameDirs(MetaOf(img), MetaOf(Removed(img, fat, Loc(d, 0))), lay);
      NamedDirsAreIn(MetaOf(Removed(img, fat, Loc(d, 0))), lay', lay.home);
      DirsAreTaken(MetaOf(Removed(img, fat, Loc(d, 0))), lay', d);
    }
  }

  // ---- Exactly when delete is safe -------------------------------------------------------

  /** What a caller can check first: the target is a live entry besides the table's own; a matched
      directory is empty; a file is not deleted in directory mode unless it has one cluster. */
  predicate SafeTarget(img: Image, r: Request)
    requires r.parent < 512
  {
    var t, i := TableOf(img, r.parent), Target(img, r);
    && 1 <= i < 64 && Live(t[i]) && HeadOf(t[i]) < 512
    && if t[i].size == 0 then EmptyTable(TableOf(img, HeadOf(t[i]))) else r.size > 0 || t[i].size <= 2048
  }

  lemma SafeOutcome(img: Image, lay: Layout, r: Request)
    requires Consistent(MetaOf(img), lay) && r.parent in lay.Dirs() && r.parent < 512 && SafeTarget(img, r)
    ensures var l := Loc(r.parent, Target(img, r));
            && l in lay.chains && IsChain(FatOf(img), lay.chains[l]) && DeleteReady(img, r)
            && DeleteOutcome(img, r).img == if DeleteOutcome(img, r).code == 0 then Freed(img, lay, l) else img
    ensures DeleteOutcome(img, r).code == 0 && TableOf(img, r.parent)[Target(img, r)].size == 0
            ==> EmptyTable(TableOf(img, HeadOf(TableOf(img, r.parent)[Target(img, r)])))
  {
    TargetChain(img, lay, r);
    if r.size == 0 {
      DeleteDirectoryRemoves(img, r, lay);
    } else {
      DeleteFileRemoves(img, r, lay);
    }
  }

  /** Deleting a safe target keeps the disk valid without it. */
  lemma SafeDelete(img: Image, lay: Layout, r: Request)
    requires Consistent(MetaOf(img), lay) && r.parent in lay.Dirs() && r.parent < 512 && SafeTarget(img, r)
    ensures DeleteReady(img, r)
    ensures var l := Loc(r.parent, Target(img, r));
            && l in lay.chains && |lay.chains[l]| > 0
            && if DeleteOutcome(img, r).code == 0 then
                 Carries(MetaOf(img), lay, MetaOf(DeleteOutcome(img, r).img),
                         DropEntry(lay, l, TableOf(img, l.dir)[l.slot].size == 0))
               else DeleteOutcome(img, r).img == img
  {
    var l := Loc(r.parent, Target(img, r));
    SafeOutcome(img, lay, r);
    if DeleteOutcome(img, r).code == 0 {
      FreedKeepsValid(img, lay, l);
    }
  }

  lemma FreeSlotHead(t: Table, d: nat, i: nat)
    requires TableOk(t, d) && i < 64 && !Live(t[i])
    ensures HeadOf(t[i]) == 0 && t[i].size == 0
  {
  }

  lemma OwnSlotHead(t: Table, d: nat)
    requires TableOk(t, d)
    ensures Live(t[0]) && HeadOf(t[0]) == d && t[0].size == 0
  {
  }

  lemma LongFileLeaks(img: Image, lay: Layout, l: Loc, lay': Layout)
    requires Consistent(MetaOf(img), lay) && l in lay.chains && 2 <= l.dir < 512 && l.slot < 64
    requires IsChain(FatOf(img), lay.chains[l]) && |lay.chains[l]| > 1
    ensures !Valid(MetaOf(Removed(img, WithCell(FatOf(img), lay.chains[l][0], 0), l)), lay')
  {
    var ch := lay.chains[l];
    assert ch[1] in ch && ch[0] in ch;
    ChainIsTaken(FatOf(img), ch, ch[1]);
    LeakyRemoval(img, WithCell(FatOf(img), ch[0], 0), lay, l, lay');
  }

  lemma DirectoryModeOutcome(img: Image, r: Request)
    requires r.parent < 512 && r.size == 0 && DeleteReady(img, r) && DeleteOutcome(img, r).code == 0
    ensures var t, i := TableOf(img, r.parent), Target(img, r);
            var l := Loc(r.parent, if i < 64 then i else 0);
            var head := if i < 64 then HeadOf(t[i]) else 0;
            && head < 512 && EmptyTable(TableOf(img, head))
            && DeleteOutcome(img, r).img == Removed(img, WithCell(FatOf(img), head, 0), l)
  {
  }

  lemma UnsafeDirectoryTarget(img: Image, lay: Layout, r: Request, lay': Layout)
    requires Consistent(MetaOf(img), lay) && r.parent in lay.Dirs() && 2 <= r.parent < 512 && r.size == 0
    requires 1 <= Target(img, r) < 64 && Live(TableOf(img, r.parent)[Target(img, r)])
    requires TableOf(img, r.parent)[Target(img, r)].size > 2048
    requires HeadOf(TableOf(img, r.parent)[Target(img, r)]) < 512
    ensures var l := Loc(r.parent, Target(img, r));
            !Valid(MetaOf(Removed(img, WithCell(FatOf(img), HeadOf(TableOf(img, r.parent)[l.slot]), 0), l)), lay')
  {
    TargetChain(img, lay, r);
    LongFileLeaks(img, lay, Loc(r.parent, Target(img, r)), lay');
  }

  /** In directory mode everything follows from the head and the slot the search produced. */
  lemma DirectoryModeAt(img: Image, r: Request, head: nat, index: nat)
    requires r.parent < 512 && r.size == 0 && DeleteReady(img, r) && DeleteOutcome(img, r).code == 0
    requires DirTarget(TableOf(img, r.parent), r.name) == (head, index)
    ensures head < 512 && index < 64
    ensures DeleteOutcome(img, r).img == Removed(img, WithCell(FatOf(img), head, 0), Loc(r.parent, index))
  {
  }

  lemma MissingTarget(t: Table, d: nat, name: Name)
    requires TableOk(t, d)
    requires var i := First(t, ByName(name), 0); i < 64 ==> !Live(t[i])
    ensures DirTarget(t, name).0 == 0
  {
    var i := First(t, ByName(name), 0);
    if i < 64 {
      FreeSlotHead(t, d, i);
    }
  }

  /** In directory mode a name that is not there makes the driver free cluster 0, unless it is ROOT
      or cluster 0 looks like an occupied table. */
  lemma MissingDirectory(img: Image, r: Request, lay': Layout)
    requires 2 <= r.parent < 512 && r.size == 0 && TableOk(TableOf(img, r.parent), r.parent)
    requires Target(img, r) < 64 ==> !Live(TableOf(img, r.parent)[Target(img, r)])
    requires r.name != ROOT_NAME && EmptyTable(TableOf(img, 0))
    ensures DeleteReady(img, r) && DeleteOutcome(img, r).code == 0
    ensures !Consistent(MetaOf(DeleteOutcome(img, r).img), lay')
  {
    MissingTarget(TableOf(img, r.parent), r.parent, r.name);
    var (head, index) := DirTarget(TableOf(img, r.parent), r.name);
    RemovedMeta(img, WithCell(FatOf(img), head, 0), Loc(r.parent, index));
  }

  lemma OwnDirectory(img: Image, lay: Layout, r: Request, lay': Layout)
    requires Consistent(MetaOf(img), lay) && r.parent in lay.Dirs() && 2 <= r.parent < 512 && r.size == 0
    requires TableOk(TableOf(img, r.parent), r.parent) && Target(img, r) == 0
    requires DeleteReady(img, r) && DeleteOutcome(img, r).code == 0
    ensures !Consistent(MetaOf(DeleteOutcome(img, r).img), lay')
  {
    OwnSlotHead(TableOf(img, r.parent), r.parent);
    DirectoryModeAt(img, r, r.parent, 0);
    OwnRemoval(img, WithCell(FatOf(img), r.parent, 0), lay, r.parent, lay');
  }

  lemma NotRefused(img: Image, r: Request)
    requires r.parent < 512 && r.size == 0 && DeleteReady(img, r) && DeleteOutcome(img, r).code == 0
    ensures r.name != ROOT_NAME && EmptyTable(TableOf(img, DirTarget(TableOf(img, r.parent), r.name).0))
  {
  }

  lemma UnsafeDirectoryMode(img: Image, lay: Layout, r: Request, lay': Layout)
    requires Consistent(MetaOf(img), lay) && r.parent in lay.Dirs() && 2 <= r.parent < 512 && r.size == 0
    requires TableOk(TableOf(img, r.parent), r.parent)
    requires DeleteReady(img, r) && DeleteOutcome(img, r).code == 0 && !SafeTarget(img, r)
    ensures !Valid(MetaOf(DeleteOutcome(img, r).img), lay')
  {
    var i := Target(img, r);
    if i == 64 || !Live(TableOf(img, r.parent)[i]) {
      MissingTarget(TableOf(img, r.parent), r.parent, r.name);
      NotRefused(img, r);
      MissingDirectory(img, r, lay');
    } else if i == 0 {
      OwnDirectory(img, lay, r, lay');
    } else {
      DirectoryModeOutcome(img, r);
      UnsafeDirectoryTarget(img, lay, r, lay');
    }
  }

  lemma FreeSlotHeadsNothing(fat: Fat, t: Table, d: nat, i: nat)
    requires fat[0] == CLUSTER_0_VALUE && TableOk(t, d) && i < 64
    ensures !Live(t[i]) ==> !HeadsChain(fat, t[i])
  {
    ReservedCellEndsNothing(fat);
    if !Live(t[i]) {
      FreeSlotHead(t, d, i);
    }
  }

  /** From cell 0 the walk leaves the map at once, without an end mark. */
  lemma ReservedCellEndsNothing(fat: Fat)
    requires fat[0] == CLUSTER_0_VALUE
    ensures ToEnd(fat, 0, 512) == [0] && !EndsWell(fat, [0])
  {
    assert ToEnd(fat, fat[0], 511) == [];
  }

  lemma DirectoryEnds(m: Meta, lay: Layout, d: nat)
    requires Consistent(m, lay) && d in lay.Dirs()
    ensures d < 512 && m.fat[d] == END_OF_FILE && ToEnd(m.fat, d, 512) == [d]
  {
    if d != ROOT {
      assert HomeOk(m, lay, d) && EntryOk(m, lay, lay.home[d]);
    }
  }

  lemma OccupiedDirectoryDangles(img: Image, lay: Layout, l: Loc, lay': Layout)
    requires Consistent(MetaOf(img), lay) && l in lay.chains && 2 <= l.dir < 512 && l.slot < 64
    requires IsChain(FatOf(img), lay.chains[l]) && At(MetaOf(img), l).size == 0
    requires !EmptyTable(TableOf(img, lay.chains[l][0]))
    ensures !Valid(MetaOf(Freed(img, lay, l)), lay')
  {
    var x := lay.chains[l][0];
    var s :| 1 <= s < 64 && Live(TableOf(img, x)[s]);
    var ch := lay.chains[l];
    assert EntryOk(MetaOf(img), lay, l);
    var j := Loc(x, s);
    assert Live(At(MetaOf(img), j));
    UnlinkFrees(FatOf(img), ch);
    assert x in ch;
    OwnDirIsElsewhere(MetaOf(img), lay, l);
    DanglingRemoval(img, Unlink(FatOf(img), ch, |ch|), lay, l, j, lay');
  }

  lemma OwnDirIsElsewhere(m: Meta, lay: Layout, l: Loc)
    requires EntriesOk(m, lay) && WellFounded(lay.home)
    requires l in lay.chains && l.dir < 512 && l.slot < 64 && At(m, l).size == 0
    ensures |lay.chains[l]| > 0 && l.dir != lay.chains[l][0]
  {
    assert EntryOk(m, lay, l);
    NotItsOwnParent(lay.home, lay.chains[l][0]);
  }

  lemma UnsafeFileTarget(img: Image, lay: Layout, r: Request, lay': Layout)
    requires Consistent(MetaOf(img), lay) && r.parent in lay.Dirs() && 2 <= r.parent < 512
    requires 1 <= Target(img, r) < 64 && Live(TableOf(img, r.parent)[Target(img, r)])
    requires var e := TableOf(img, r.parent)[Target(img, r)];
             e.size == 0 && (HeadOf(e) < 512 ==> !EmptyTable(TableOf(img, HeadOf(e))))
    ensures var l := Loc(r.parent, Target(img, r));
            var e := TableOf(img, r.parent)[l.slot];
            var ch := ToEnd(FatOf(img), HeadOf(e), 512);
            !Valid(MetaOf(Removed(img, Unlink(FatOf(img), ch, |ch|), l)), lay')
  {
    TargetChain(img, lay, r);
    OccupiedDirectoryDangles(img, lay, Loc(r.parent, Target(img, r)), lay');
  }

  lemma FileModeOn(img: Image, r: Request) returns (i: nat, ch: seq<nat>)
    requires r.parent < 512 && r.size > 0 && DeleteReady(img, r) && DeleteOutcome(img, r).code == 0
    ensures i == Target(img, r) < 64 && HeadsChain(FatOf(img), TableOf(img, r.parent)[i])
    ensures var e := TableOf(img, r.parent)[i]; ch == ToEnd(FatOf(img), HeadOf(e), 512)
    ensures |ch| > 0 && forall k :: 0 <= k < |ch| ==> ch[k] < 512
    ensures DeleteOutcome(img, r).img == Removed(img, Unlink(FatOf(img), ch, |ch|), Loc(r.parent, i))
  {
    i := Target(img, r);
    ch := ToEnd(FatOf(img), HeadOf(TableOf(img, r.parent)[i]), 512);
  }

  lemma UnsafeFileMode(img: Image, lay: Layout, r: Request, lay': Layout)
    requires Consistent(MetaOf(img), lay) && r.parent in lay.Dirs() && 2 <= r.parent < 512 && r.size > 0
    requires TableOk(TableOf(img, r.parent), r.parent)
    requires DeleteReady(img, r) && DeleteOutcome(img, r).code == 0 && !SafeTarget(img, r)
    ensures !Valid(MetaOf(DeleteOutcome(img, r).img), lay')
  {
    var i, ch := FileModeOn(img, r);
    if i == 0 {
      OwnSlotHead(TableOf(img, r.parent), r.parent);
      DirectoryEnds(MetaOf(img), lay, r.parent);
      OwnEntryFreed(FatOf(img), r.parent);
      OwnRemoval(img, Unlink(FatOf(img), [r.parent], 1), lay, r.parent, lay');
    } else {
      FreeSlotHeadsNothing(FatOf(img), TableOf(img, r.parent), r.parent, i);
      UnsafeFileTarget(img, lay, r, lay');
    }
  }

  lemma OwnEntryFreed(fat: Fat, d: nat)
    requires d < 512
    ensures Unlink(fat, [d], 1)[d] == 0
  {
  }

  /** In a directory, directory mode always has an answer, and file mode has one unless it stops at a free slot. */
  predicate Answerable(img: Image, r: Request)
    requires r.parent < 512
  {
    r.size == 0 || Target(img, r) == 64 || Live(TableOf(img, r.parent)[Target(img, r)])
  }

  lemma RefusedIff(img: Image, r: Request)
    requires DeleteReady(img, r)
    ensures DeleteOutcome(img, r).code != 0 <==> Refused(img, r)
    ensures Refused(img, r) ==> DeleteOutcome(img, r).img == img
  {
  }

  lemma EntryHeads(img: Image, lay: Layout, d: nat, i: nat)
    requires Consistent(MetaOf(img), lay) && d in lay.Dirs() && d < 512 && i < 64
    ensures HeadOf(TableOf(img, d)[i]) < 512
    ensures Live(TableOf(img, d)[i]) ==> HeadsChain(FatOf(img), TableOf(img, d)[i])
  {
    DirTableOk(img, lay, d);
    if !Live(TableOf(img, d)[i]) {
      FreeSlotHead(TableOf(img, d), d, i);
    } else if i == 0 {
      OwnSlotHead(TableOf(img, d), d);
      DirectoryEnds(MetaOf(img), lay, d);
    } else {
      LiveSlotOwnsChain(img, lay, Loc(d, i));
      EntryChain(MetaOf(img), lay, Loc(d, i));
      ChainToEnd(FatOf(img), lay.chains[Loc(d, i)]);
      assert At(MetaOf(img), Loc(d, i)) == TableOf(img, d)[i];
    }
  }

  /** In a directory the walk of `delete` leaves the map for a free slot alone. */
  lemma DeleteReadyInDirectory(img: Image, lay: Layout, r: Request)
    requires Consistent(MetaOf(img), lay) && r.parent in lay.Dirs() && r.parent < 512
    ensures DeleteReady(img, r) <==> Answerable(img, r)
  {
    DirTableOk(img, lay, r.parent);
    var i := Target(img, r);
    if i < 64 {
      EntryHeads(img, lay, r.parent, i);
      FreeSlotHeadsNothing(FatOf(img), TableOf(img, r.parent), r.parent, i);
    }
  }

  lemma SafeDeleteSound(img: Image, lay: Layout, r: Request)
    requires Valid(MetaOf(img), lay) && r.parent in lay.Dirs() && r.parent < 512 && SafeTarget(img, r)
    ensures DeleteReady(img, r) && (DeleteOutcome(img, r).code == 0 ==> Sound(MetaOf(DeleteOutcome(img, r).img)))
  {
    var l := Loc(r.parent, Target(img, r));
    SafeDelete(img, lay, r);
    if DeleteOutcome(img, r).code == 0 {
      CarriesSound(MetaOf(img), lay, MetaOf(DeleteOutcome(img, r).img),
                   DropEntry(lay, l, TableOf(img, l.dir)[l.slot].size == 0));
    }
  }

  lemma DeleteInDirectoryIff(img: Image, lay: Layout, r: Request)
    requires Valid(MetaOf(img), lay) && r.parent in lay.Dirs() && DeleteReady(img, r)
    ensures Sound(MetaOf(DeleteOutcome(img, r).img)) <==> Refused(img, r) || SafeTarget(img, r)
  {
    RefusedIff(img, r);
    DirTableOk(img, lay, r.parent);
    DirRange(MetaOf(img), lay);
    if Refused(img, r) {
      assert Valid(MetaOf(img), lay);
    } else if SafeTarget(img, r) {
      SafeDeleteSound(img, lay, r);
    } else {
      forall lay'
        ensures !Valid(MetaOf(DeleteOutcome(img, r).img), lay')
      {
        UnsafeDelete(img, lay, r, lay');
      }
    }
  }

  lemma UnsafeDelete(img: Image, lay: Layout, r: Request, lay': Layout)
    requires Consistent(MetaOf(img), lay) && r.parent in lay.Dirs() && 2 <= r.parent < 512
    requires TableOk(TableOf(img, r.parent), r.parent)
    requires DeleteReady(img, r) && DeleteOutcome(img, r).code == 0 && !SafeTarget(img, r)
    ensures !Valid(MetaOf(DeleteOutcome(img, r).img), lay')
  {
    if r.size == 0 {
      UnsafeDirectoryMode(img, lay, r, lay');
    } else {
      UnsafeFileMode(img, lay, r, lay');
    }
  }

  // ---- Parents that are no directory -----------------------------------------------------------

  /** The entries of the tree are unchanged, and a cell that differs has become free. */
  ghost predicate OnlyFrees(m: Meta, m': Meta, lay: Layout) {
    && SameEntries(m, m', lay)
    && (forall c :: 0 <= c < 512 && m'.fat[c] != 0 ==> m'.fat[c] == m.fat[c])
  }

  lemma FreeingKeepsChain(m: Meta, m': Meta, lay: Layout, lay': Layout, l: Loc)
    requires Consistent(m, lay) && Consistent(m', lay') && OnlyFrees(m, m', lay) && l in lay.chains
    ensures l in lay'.chains && lay'.chains[l] == lay.chains[l] && IsChain(m'.fat, lay'.chains[l])
  {
    SameEntriesNameDirs(m, m', lay);
    NamedDirsAreIn(m', lay', lay.home);
    EntryChain(m, lay, l);
    DirRange(m, lay);
    assert l == Loc(l.dir, l.slot) && l.dir in lay'.Dirs() && Live(At(m', l));
    EntryChain(m', lay', l);
    forall c | 0 <= c < 512 && c in lay'.chains[l]
      ensures m.fat[c] == m'.fat[c]
    {
      ChainIsTaken(m'.fat, lay'.chains[l], c);
    }
    SameChainAcross(m.fat, m'.fat, lay.chains[l], lay'.chains[l]);
  }

  /** A taken cell that is freed while all entries stay breaks the chain it was on. */
  lemma LostCell(m: Meta, m': Meta, lay: Layout, lay': Layout, c: nat)
    requires Valid(m, lay) && OnlyFrees(m, m', lay) && c < 512 && m.fat[c] != 0 && m'.fat[c] == 0
    ensures !Consistent(m', lay')
  {
    if Consistent(m', lay') && c >= 3 {
      assert Owned(lay, c);
      var l :| l in lay.chains && c in lay.chains[l];
      FreeingKeepsChain(m, m', lay, lay', l);
      ChainIsTaken(m'.fat, lay'.chains[l], c);
    }
  }

  /** The slot the request clears and the map it writes. */
  function ClearedSlot(img: Image, r: Request): nat
    requires r.parent < 512
  {
    if r.size == 0 then DirTarget(TableOf(img, r.parent), r.name).1 else Target(img, r)
  }

  ghost function FreedMap(img: Image, r: Request): Fat
    requires DeleteReady(img, r) && !Refused(img, r)
  {
    var t := TableOf(img, r.parent);
    if r.size == 0 then WithCell(FatOf(img), DirTarget(t, r.name).0, 0)
    else var ch := ToEnd(FatOf(img), HeadOf(t[Target(img, r)]), 512); Unlink(FatOf(img), ch, |ch|)
  }

  lemma DeleteIsRemoved(img: Image, r: Request)
    requires DeleteReady(img, r) && !Refused(img, r)
    ensures ClearedSlot(img, r) < 64
    ensures DeleteOutcome(img, r).img == Removed(img, FreedMap(img, r), Loc(r.parent, ClearedSlot(img, r)))
  {
  }

  /** Every mode frees something, except directory mode when its cell is free already. */
  lemma FreedMapIs(img: Image, r: Request) returns (c: nat)
    requires DeleteReady(img, r) && !Refused(img, r)
    ensures var fat, fat' := FatOf(img), FreedMap(img, r);
            && (forall x :: 0 <= x < 512 && fat'[x] != 0 ==> fat'[x] == fat[x])
            && c < 512 && fat'[c] == 0 && (fat[c] == 0 ==> fat' == fat)
            && (if r.size == 0 then c == DirTarget(TableOf(img, r.parent), r.name).0 else fat[c] != 0)
  {
    var t := TableOf(img, r.parent);
    if r.size == 0 {
      c := DirTarget(t, r.name).0;
    } else {
      var ch := ToEnd(FatOf(img), HeadOf(t[Target(img, r)]), 512);
      c := ch[|ch| - 1];
      UnlinkCells(FatOf(img), ch, |ch|);
    }
  }

  /** What a caller can check when the parent is no directory: what the code clears is free already -
      the cell it frees, or the eight cells under the slot it clears when it takes the map for a table. */
  predicate FreesNothing(img: Image, r: Request)
    requires r.parent < 512
  {
    var s := ClearedSlot(img, r);
    if r.parent == 1 then forall c :: 8 * s <= c < 8 * s + 8 && c < 512 ==> FatOf(img)[c] == 0
    else r.size == 0 && var c := DirTarget(TableOf(img, r.parent), r.name).0; c < 512 && FatOf(img)[c] == 0
  }

  lemma StrayRemoval(img: Image, fat: Fat, lay: Layout, l: Loc)
    requires Consistent(MetaOf(img), lay) && l.dir < 512 && l.slot < 64 && l.dir != 1 && l.dir !in lay.Dirs()
    ensures var m' := MetaOf(Removed(img, fat, l));
            && m'.fat == fat && SameEntries(MetaOf(img), m', lay)
            && forall d :: d in lay.Dirs() && d < 512 ==> m'.tables[d] == MetaOf(img).tables[d]
  {
    var img' := Removed(img, fat, l);
    DirRange(MetaOf(img), lay);
    PutFatMeta(img, fat);
    forall d | d in lay.Dirs() && d < 512
      ensures TableOf(img', d) == TableOf(img, d)
    {
      assert img'[d] == img[d];
    }
  }

  /** The map and the tables of all directories are as they were. */
  ghost predicate TreeStays(m: Meta, m': Meta, lay: Layout) {
    m'.fat == m.fat && forall d :: d in lay.Dirs() && d < 512 ==> m'.tables[d] == m.tables[d]
  }

  lemma StrayDelete(img: Image, lay: Layout, r: Request)
    requires Valid(MetaOf(img), lay) && DeleteReady(img, r) && !Refused(img, r)
    requires r.parent != 1 && r.parent !in lay.Dirs()
    ensures Sound(MetaOf(DeleteOutcome(img, r).img)) <==> FreesNothing(img, r)
    ensures FreesNothing(img, r) ==> TreeStays(MetaOf(img), MetaOf(DeleteOutcome(img, r).img), lay)
  {
    var m, m' := MetaOf(img), MetaOf(DeleteOutcome(img, r).img);
    DeleteIsRemoved(img, r);
    StrayRemoval(img, FreedMap(img, r), lay, Loc(r.parent, ClearedSlot(img, r)));
    var c := FreedMapIs(img, r);
    SoundIff(m, m', lay, c);
  }

  lemma SoundIff(m: Meta, m': Meta, lay: Layout, c: nat)
    requires Valid(m, lay) && OnlyFrees(m, m', lay) && c < 512 && m'.fat[c] == 0 && (m.fat[c] == 0 ==> m'.fat == m.fat)
    requires forall d :: d in lay.Dirs() && d < 512 ==> m'.tables[d] == m.tables[d]
    ensures Sound(m') <==> m.fat[c] == 0
  {
    if m.fat[c] == 0 {
      TakenFrame(m, m', lay);
      assert Valid(m', lay);
    } else {
      forall lay'
        ensures !Valid(m', lay')
      {
        LostCell(m, m', lay, lay', c);
      }
    }
  }

  // ---- The map taken for a directory -------------------------------------------------------------

  lemma NothingInZero(j: nat)
    requires j < 8
    ensures Long(EncodeEntry(ZERO_ENTRY)[4 * j..4 * j + 4]) == 0
  {
    ZeroEntryBytes();
    ValueOfZeros(EncodeEntry(ZERO_ENTRY)[4 * j..4 * j + 4]);
  }

  /** Clearing a slot of the map read as a table frees the eight cells under it and no others. */
  lemma MapSlotCleared(img: Image, fat: Fat, s: nat, c: nat)
    requires s < 64 && c < 512
    ensures FatOf(Removed(img, fat, Loc(1, s)))[c] == if 8 * s <= c < 8 * s + 8 then 0 else FatOf(img)[c]
  {
    var t := TableOf(img, 1);
    EntriesBytesRoundTrip(img[1]);
    CellOfEntry(t, c / 8, c % 8);
    CellOfEntry(t[s := ZERO_ENTRY], c / 8, c % 8);
    if c / 8 == s {
      NothingInZero(c % 8);
    }
  }

  lemma MapAsParent(img: Image, lay: Layout, r: Request)
    requires Valid(MetaOf(img), lay) && DeleteReady(img, r) && !Refused(img, r) && r.parent == 1
    ensures Sound(MetaOf(DeleteOutcome(img, r).img)) <==> FreesNothing(img, r)
    ensures FreesNothing(img, r) ==> TreeStays(MetaOf(img), MetaOf(DeleteOutcome(img, r).img), lay)
  {
    var s := ClearedSlot(img, r);
    var m, m' := MetaOf(img), MetaOf(DeleteOutcome(img, r).img);
    DeleteIsRemoved(img, r);
    DirRange(m, lay);
    forall c | 0 <= c < 512
      ensures m'.fat[c] == if 8 * s <= c < 8 * s + 8 then 0 else m.fat[c]
    {
      MapSlotCleared(img, FreedMap(img, r), s, c);
    }
    forall d | d in lay.Dirs() && d < 512
      ensures m'.tables[d] == m.tables[d]
    {
    }
    if FreesNothing(img, r) {
      assert m'.fat == m.fat;
      SoundIff(m, m', lay, 8 * s);
    } else {
      var c :| 8 * s <= c < 8 * s + 8 && c < 512 && m.fat[c] != 0;
      SoundIff(m, m', lay, c);
    }
  }

  // ---- Every request -------------------------------------------------------------------------------

  /** Directory mode has to find a cluster inside the map, file mode nothing or the head of a walk that
      starts at a taken cell besides the first. */
  predicate Walkable(img: Image, r: Request)
    requires r.parent < 512
  {
    var t, i := TableOf(img, r.parent), Target(img, r);
    if r.size == 0 then DirTarget(t, r.name).0 < 512
    else i < 64 ==> 0 < HeadOf(t[i]) < 512 && FatOf(img)[HeadOf(t[i])] != 0
  }

  lemma FreeCellEndsNothing(fat: Fat, c: nat)
    requires fat[0] == CLUSTER_0_VALUE && 0 < c < 512 && fat[c] == 0
    ensures !EndsWell(fat, ToEnd(fat, c, 512))
  {
    assert ToEnd(fat, fat[0], 510) == [];
    assert ToEnd(fat, fat[c], 511) == [0] + ToEnd(fat, fat[0], 510) == [0];
    assert ToEnd(fat, c, 512) == [c] + ToEnd(fat, fat[c], 511) == [c, 0];
  }

  lemma SuffixEnds(fat: Fat, ch: seq<nat>, i: nat)
    requires IsChain(fat, ch) && i < |ch|
    ensures Cells(ToEnd(fat, ch[i], 512)) && EndsWell(fat, ToEnd(fat, ch[i], 512))
  {
    Pigeonhole(ch, 3, 512);
    ToEndSuffix(fat, ch, i, 512);
  }

  lemma TakenCellEnds(m: Meta, lay: Layout, c: nat)
    requires Valid(m, lay) && 0 < c < 512 && m.fat[c] != 0
    ensures Cells(ToEnd(m.fat, c, 512)) && EndsWell(m.fat, ToEnd(m.fat, c, 512))
  {
    if c >= 3 {
      var ch, i := OnChain(m, lay, c);
      SuffixEnds(m.fat, ch, i);
    } else {
      assert ToEnd(m.fat, c, 512) == [c];
    }
  }

  lemma OnChain(m: Meta, lay: Layout, c: nat) returns (ch: seq<nat>, i: nat)
    requires Valid(m, lay) && 3 <= c < 512 && m.fat[c] != 0
    ensures IsChain(m.fat, ch) && i < |ch| && ch[i] == c
  {
    assert Owned(lay, c);
    var l :| l in lay.chains && c in lay.chains[l];
    assert EntryOk(m, lay, l);
    ch := lay.chains[l];
    i :| 0 <= i < |ch| && ch[i] == c;
  }

  lemma HeadsChainIff(m: Meta, lay: Layout, e: Entry)
    requires Valid(m, lay)
    ensures HeadsChain(m.fat, e) <==> 0 < HeadOf(e) < 512 && m.fat[HeadOf(e)] != 0
  {
    var c := HeadOf(e);
    if c == 0 {
      ReservedCellEndsNothing(m.fat);
    } else if c < 512 {
      if m.fat[c] == 0 {
        FreeCellEndsNothing(m.fat, c);
      } else {
        TakenCellEnds(m, lay, c);
      }
    }
  }

  /** On a valid disk, whatever parent the request names, the walk of `delete` stays inside the map
      and ends exactly for the walkable requests. */
  lemma DeleteReadyIff(img: Image, lay: Layout, r: Request)
    requires Valid(MetaOf(img), lay) && r.parent < 512
    ensures DeleteReady(img, r) <==> Walkable(img, r)
  {
    var i := Target(img, r);
    if r.size > 0 && i < 64 {
      HeadsChainIff(MetaOf(img), lay, TableOf(img, r.parent)[i]);
    }
  }

  /** On a valid disk, whatever request `delete` can carry out, the disk stays sound if and only if the
      request is refused, or its parent is a directory and its target safe, or its parent is no
      directory and nothing is freed. */
  lemma DeleteIsSoundIff(img: Image, lay: Layout, r: Request)
    requires Valid(MetaOf(img), lay) && DeleteReady(img, r)
    ensures Sound(MetaOf(DeleteOutcome(img, r).img))
            <==> Refused(img, r) || if r.parent in lay.Dirs() then SafeTarget(img, r) else FreesNothing(img, r)
  {
    if r.parent in lay.Dirs() {
      DeleteInDirectoryIff(img, lay, r);
    } else if Refused(img, r) {
      RefusedIff(img, r);
      assert Valid(MetaOf(img), lay);
    } else if r.parent == 1 {
      MapAsParent(img, lay, r);
    } else {
      StrayDelete(img, lay, r);
    }
  }
}
