/** Theorems about `delete`: what it frees, which reads it changes, that it undoes `write`, and
    exactly which requests keep the whole-disk invariant. */
module DeleteProofs {
  import opened Format
  import opened Volume
  import opened Edits
  import opened Allocation
  import opened Storage
  import opened DriverSpec
  import opened Reading
  import opened Crash
  import opened WriteProofs

  /** The image with `fat` in place of the map and slot `l` cleared: the effect of both modes. */
  function Removed(img: Image, fat: Fat, l: Loc): Image
    requires l.dir < 512 && l.slot < 64
  {
    PutTable(PutFat(img, fat), l.dir, TableOf(img, l.dir)[l.slot := ZERO_ENTRY])
  }

  lemma RemovedMeta(img: Image, fat: Fat, l: Loc)
    requires 2 <= l.dir < 512 && l.slot < 64
    ensures FatOf(Removed(img, fat, l)) == fat
    ensures forall d :: 2 <= d < 512 && d != l.dir ==> TableOf(Removed(img, fat, l), d) == TableOf(img, d)
    ensures TableOf(Removed(img, fat, l), l.dir) == TableOf(img, l.dir)[l.slot := ZERO_ENTRY]
    ensures forall c :: 0 <= c < 2048 && c != 1 && c != l.dir ==> Removed(img, fat, l)[c] == img[c]
  {
    PutFatMeta(img, fat);
    PutTableMeta(PutFat(img, fat), l.dir, TableOf(img, l.dir)[l.slot := ZERO_ENTRY]);
  }

  lemma RemovedDrops(img: Image, fat: Fat, lay: Layout, l: Loc)
    requires l in lay.chains && 2 <= l.dir < 512 && 1 <= l.slot < 64 && l.dir in lay.Dirs()
    requires forall d :: d in lay.Dirs() ==> d >= 2
    requires Frees(FatOf(img), fat, lay.chains[l])
    requires At(MetaOf(img), l).size == 0 && |lay.chains[l]| > 0 && lay.chains[l][0] < 512
             ==> EmptyTable(TableOf(img, lay.chains[l][0]))
    ensures Drops(MetaOf(img), MetaOf(Removed(img, fat, l)), lay, l)
    ensures FatOf(Removed(img, fat, l)) == fat
  {
    RemovedMeta(img, fat, l);
    var m, m' := MetaOf(img), MetaOf(Removed(img, fat, l));
    forall d | d in lay.Dirs() && d < 512 && d != l.dir
      ensures m'.tables[d] == m.tables[d]
    {
    }
  }

  lemma DirRange(m: Meta, lay: Layout)
    requires TablesOk(m, lay)
    ensures forall d :: d in lay.Dirs() ==> 2 <= d < 512
  {
  }

  // ---- The match -------------------------------------------------------------------

  /** The slot `delete` acts on, or 64: by name alone in directory mode, by pair in file mode. */
  function Target(img: Image, r: Request): nat
    requires r.parent < 512
  {
    First(TableOf(img, r.parent), WriteKey(r), 0)
  }

  /** The target is a live entry besides the table's own, of the kind the mode asks for. */
  predicate Deletable(img: Image, r: Request)
    requires r.parent < 512
  {
    var t, i := TableOf(img, r.parent), Target(img, r);
    1 <= i < 64 && Live(t[i]) && (t[i].size == 0 <==> r.size == 0)
  }

  lemma TargetChain(img: Image, lay: Layout, r: Request)
    requires Consistent(MetaOf(img), lay) && r.parent in lay.Dirs() && r.parent < 512
    requires 1 <= Target(img, r) < 64 && Live(TableOf(img, r.parent)[Target(img, r)])
    ensures var l := Loc(r.parent, Target(img, r));
            var e := TableOf(img, r.parent)[l.slot];
            && l in lay.chains && IsChain(FatOf(img), lay.chains[l]) && |lay.chains[l]| == ClustersOf(e.size)
            && lay.chains[l][0] == HeadOf(e) && ToEnd(FatOf(img), HeadOf(e), 512) == lay.chains[l]
  {
    var l := Loc(r.parent, Target(img, r));
    assert Live(At(MetaOf(img), l));
    assert EntryOk(MetaOf(img), lay, l);
    ChainToEnd(FatOf(img), lay.chains[l]);
  }

  lemma UnlinkFrees(fat: Fat, ch: seq<nat>)
    requires IsChain(fat, ch)
    ensures Cells(ch) && Frees(fat, Unlink(fat, ch, |ch|), ch)
  {
    UnlinkCells(fat, ch, |ch|);
    forall c | 0 <= c < 512
      ensures Unlink(fat, ch, |ch|)[c] == if c in ch then 0 else fat[c]
    {
      if c in ch {
        var i :| 0 <= i < |ch| && ch[i] == c;
      }
    }
  }

  /** What `delete` returns when the target is deletable. */
  function DeleteCode(img: Image, r: Request): int
    requires r.parent < 512 && Deletable(img, r) && HeadOf(TableOf(img, r.parent)[Target(img, r)]) < 512
  {
    if r.size > 0 then 0
    else if !EmptyTable(TableOf(img, HeadOf(TableOf(img, r.parent)[Target(img, r)]))) then 2
    else if r.name == ROOT_NAME then -1
    else 0
  }

  /** `l` with its chain freed and its slot cleared. */
  function Freed(img: Image, lay: Layout, l: Loc): Image
    requires l in lay.chains && l.dir < 512 && l.slot < 64
    requires forall i :: 0 <= i < |lay.chains[l]| ==> lay.chains[l][i] < 512
  {
    Removed(img, Unlink(FatOf(img), lay.chains[l], |lay.chains[l]|), l)
  }

  lemma DeleteFileRemoves(img: Image, r: Request, lay: Layout)
    requires r.parent < 512 && r.size > 0 && 1 <= Target(img, r) < 64
    requires var l := Loc(r.parent, Target(img, r));
             var e := TableOf(img, r.parent)[l.slot];
             && l in lay.chains && IsChain(FatOf(img), lay.chains[l])
             && ToEnd(FatOf(img), HeadOf(e), 512) == lay.chains[l]
    ensures DeleteReady(img, r)
    ensures DeleteOutcome(img, r) == Outcome(0, Freed(img, lay, Loc(r.parent, Target(img, r))))
  {
  }

  lemma DeleteDirectoryRemoves(img: Image, r: Request, lay: Layout)
    requires r.parent < 512 && r.size == 0 && 1 <= Target(img, r) < 64
    requires var l := Loc(r.parent, Target(img, r));
             var e := TableOf(img, r.parent)[l.slot];
             HeadOf(e) < 512 && l in lay.chains && lay.chains[l] == [HeadOf(e)]
    ensures DeleteReady(img, r)
    ensures var l := Loc(r.parent, Target(img, r));
            var e := TableOf(img, r.parent)[l.slot];
            DeleteOutcome(img, r) ==
              if !EmptyTable(TableOf(img, HeadOf(e))) then Outcome(2, img)
              else if r.name == ROOT_NAME then Outcome(-1, img)
              else Outcome(0, Freed(img, lay, l))
  {
    var l := Loc(r.parent, Target(img, r));
    assert Unlink(FatOf(img), lay.chains[l], 0) == FatOf(img);
  }

  /** `delete` of a deletable target succeeds unless the directory is occupied or called ROOT, and
      then frees exactly the target's chain and clears exactly its slot. */
  lemma DeleteRemoves(img: Image, lay: Layout, r: Request)
    requires Consistent(MetaOf(img), lay) && r.parent in lay.Dirs() && r.parent < 512 && Deletable(img, r)
    ensures DeleteReady(img, r) && HeadOf(TableOf(img, r.parent)[Target(img, r)]) < 512
    ensures var l, code := Loc(r.parent, Target(img, r)), DeleteCode(img, r);
            && l in lay.chains && IsChain(FatOf(img), lay.chains[l])
            && DeleteOutcome(img, r) == Outcome(code, if code == 0 then Freed(img, lay, l) else img)
  {
    TargetChain(img, lay, r);
    if r.size == 0 {
      DeleteDirectoryRemoves(img, r, lay);
    } else {
      DeleteFileRemoves(img, r, lay);
    }
  }

  lemma EntryChain(m: Meta, lay: Layout, l: Loc)
    requires EntriesOk(m, lay) && l in lay.chains && l.dir < 512 && l.slot < 64
    ensures IsChain(m.fat, lay.chains[l]) && lay.chains[l][0] == HeadOf(At(m, l))
  {
    assert EntryOk(m, lay, l);
  }

  lemma FreedKeepsValid(img: Image, lay: Layout, l: Loc)
    requires Consistent(MetaOf(img), lay) && l in lay.chains && l.dir < 512 && l.slot < 64
    requires At(MetaOf(img), l).size == 0
             ==> HeadOf(At(MetaOf(img), l)) < 512 && EmptyTable(TableOf(img, HeadOf(At(MetaOf(img), l))))
    ensures IsChain(FatOf(img), lay.chains[l])
    ensures Carries(MetaOf(img), lay, MetaOf(Freed(img, lay, l)), DropEntry(lay, l, At(MetaOf(img), l).size == 0))
  {
    EntryChain(MetaOf(img), lay, l);
    UnlinkFrees(FatOf(img), lay.chains[l]);
    var m, m' := MetaOf(img), MetaOf(Removed(img, Unlink(FatOf(img), lay.chains[l], |lay.chains[l]|), l));
    DirRange(m, lay);
    RemovedDrops(img, Unlink(FatOf(img), lay.chains[l], |lay.chains[l]|), lay, l);
    DropPreserves(m, m', lay, l);
    DropLeaksNothing(m, m', lay, l, At(m, l).size == 0);
  }

  // ---- The theorems ------------------------------------------------------------------

  function DeleteLayout(img: Image, lay: Layout, r: Request): Layout
    requires r.parent < 512 && Deletable(img, r) && HeadOf(TableOf(img, r.parent)[Target(img, r)]) < 512
    requires var l := Loc(r.parent, Target(img, r)); l in lay.chains && |lay.chains[l]| > 0
  {
    if DeleteCode(img, r) == 0 then DropEntry(lay, Loc(r.parent, Target(img, r)), r.size == 0) else lay
  }

  /** `delete` of a deletable target keeps the whole-disk invariant, whatever it returns. */
  lemma DeleteKeepsValid(img: Image, lay: Layout, r: Request)
    requires Consistent(MetaOf(img), lay) && r.parent in lay.Dirs() && r.parent < 512 && Deletable(img, r)
    ensures DeleteReady(img, r) && HeadOf(TableOf(img, r.parent)[Target(img, r)]) < 512
    ensures var l := Loc(r.parent, Target(img, r)); l in lay.chains && |lay.chains[l]| > 0
    ensures Carries(MetaOf(img), lay, MetaOf(DeleteOutcome(img, r).img), DeleteLayout(img, lay, r))
  {
    DeleteRemoves(img, lay, r);
    var l := Loc(r.parent, Target(img, r));
    if DeleteCode(img, r) == 0 {
      FreedKeepsValid(img, lay, l);
    }
  }

  // ---- Other reads ---------------------------------------------------------------------

  lemma FreedContent(img: Image, lay: Layout, l: Loc, k: Loc)
    requires Consistent(MetaOf(img), lay) && l in lay.chains && k in lay.chains
    requires 2 <= l.dir < 512 && l.dir in lay.Dirs() && l.slot < 64 && k.dir < 512 && k.slot < 64
    requires IsChain(FatOf(img), lay.chains[l]) && IsChain(FatOf(img), lay.chains[k])
    ensures TableOf(img, k.dir)[k.slot].size > 0 ==> SameContent(img, Freed(img, lay, l), lay.chains[k])
  {
    if At(MetaOf(img), k).size > 0 {
      FileAvoidsDirs(MetaOf(img), lay, k, l.dir);
      RemovedMeta(img, Unlink(FatOf(img), lay.chains[l], |lay.chains[l]|), l);
      forall i | 0 <= i < |lay.chains[k]|
        ensures lay.chains[k][i] != l.dir
      {
        assert lay.chains[k][i] in lay.chains[k];
      }
    }
  }

  lemma FreedSlot(img: Image, lay: Layout, l: Loc, d: nat, i: nat)
    requires l in lay.chains && 2 <= l.dir < 512 && l.slot < 64 && IsChain(FatOf(img), lay.chains[l])
    requires 2 <= d < 512 && i < 64
    ensures TableOf(Freed(img, lay, l), d)[i] == if Loc(d, i) == l then ZERO_ENTRY else TableOf(img, d)[i]
  {
    RemovedMeta(img, Unlink(FatOf(img), lay.chains[l], |lay.chains[l]|), l);
  }

  lemma LiveSlotOwnsChain(img: Image, lay: Layout, k: Loc)
    requires Consistent(MetaOf(img), lay) && k.dir in lay.Dirs() && k.dir < 512 && 1 <= k.slot < 64
    requires Live(TableOf(img, k.dir)[k.slot])
    ensures k in lay.chains && IsChain(FatOf(img), lay.chains[k]) && k.dir >= 2
  {
    EntryChain(MetaOf(img), lay, k);
  }

  lemma FreedMatch(img: Image, lay: Layout, l: Loc, isDir: bool, k: Loc)
    requires Consistent(MetaOf(img), lay) && l in lay.chains && 2 <= l.dir < 512 && l.slot < 64
    requires l.dir in lay.Dirs() && IsChain(FatOf(img), lay.chains[l]) && k != l
    requires k in lay.chains && IsChain(FatOf(img), lay.chains[k]) && 2 <= k.dir < 512 && k.slot < 64
    ensures SameFile(img, Freed(img, lay, l), lay, DropEntry(lay, l, isDir), k)
  {
    FreedContent(img, lay, l, k);
    FreedSlot(img, lay, l, k.dir, k.slot);
    DropSameFile(img, Freed(img, lay, l), lay, l, isDir, k);
  }

  lemma DropSameFile(img: Image, img': Image, lay: Layout, l: Loc, isDir: bool, k: Loc)
    requires l in lay.chains && |lay.chains[l]| > 0 && k in lay.chains && k != l && k.dir < 512 && k.slot < 64
    requires TableOf(img', k.dir)[k.slot] == TableOf(img, k.dir)[k.slot]
    requires TableOf(img, k.dir)[k.slot].size > 0 ==> SameContent(img, img', lay.chains[k])
    ensures SameFile(img, img', lay, DropEntry(lay, l, isDir), k)
  {
  }

  lemma FreedMatches(img: Image, lay: Layout, l: Loc, isDir: bool, q: Request)
    requires Consistent(MetaOf(img), lay) && l in lay.chains && 2 <= l.dir < 512 && l.slot < 64
    requires l.dir in lay.Dirs() && IsChain(FatOf(img), lay.chains[l])
    requires 2 <= q.parent < 512 && q.parent in lay.Dirs()
    requires !(q.parent == l.dir && OfPair(TableOf(img, l.dir)[l.slot], q))
    ensures SameMatches(img, Freed(img, lay, l), lay, DropEntry(lay, l, isDir), q)
  {
    var img' := Freed(img, lay, l);
    var t, t' := TableOf(img, q.parent), TableOf(img', q.parent);
    forall i | 0 <= i < 64 && (OfPair(t[i], q) || OfPair(t'[i], q))
      ensures t'[i] == t[i]
      ensures i > 0 ==> SameFile(img, img', lay, DropEntry(lay, l, isDir), Loc(q.parent, i))
    {
      FreedSlot(img, lay, l, q.parent, i);
      if i > 0 {
        LiveSlotOwnsChain(img, lay, Loc(q.parent, i));
        FreedMatch(img, lay, l, isDir, Loc(q.parent, i));
      }
    }
  }

  /** A delete changes the answer to no read of another name in any directory that stays. */
  lemma DeleteKeepsOtherReads(img: Image, lay: Layout, r: Request, q: Request)
    requires Consistent(MetaOf(img), lay) && r.parent in lay.Dirs() && r.parent < 512 && Deletable(img, r)
    requires q.parent < 512 && q.parent in lay.Dirs()
    requires !(q.parent == r.parent && OfPair(TableOf(img, r.parent)[Target(img, r)], q))
    requires r.size == 0 ==> q.parent != HeadOf(TableOf(img, r.parent)[Target(img, r)])
    ensures DeleteReady(img, r) && ReadReply(DeleteOutcome(img, r).img, q) == ReadReply(img, q)
  {
    var l := Loc(r.parent, Target(img, r));
    DeleteKeepsValid(img, lay, r);
    DeleteRemoves(img, lay, r);
    if DeleteCode(img, r) == 0 {
      DirRange(MetaOf(img), lay);
      EntryChain(MetaOf(img), lay, l);
      FreedMatches(img, lay, l, r.size == 0, q);
      ReadSame(img, Freed(img, lay, l), lay, DropEntry(lay, l, r.size == 0), q);
    }
  }

  // ---- Undoing a write -------------------------------------------------------------------

  lemma FirstAfterInsert(t: Table, k: Key, s: nat, e: Entry)
    requires First(t, k, 0) == 64 && s < 64 && Hits(k, e)
    ensures First(t[s := e], k, 0) == s
  {
    var t' := t[s := e];
    assert Hits(k, t'[s]);
  }

  /** `img'` equals `img` except in clusters of `ch`. */
  ghost predicate SameBut(img: Image, img': Image, ch: seq<nat>) {
    forall c :: 0 <= c < 2048 && c !in ch ==> img'[c] == img[c]
  }

  lemma RestoredTable(img: Image, img1: Image, fat: Fat, l: Loc, e: Entry)
    requires 2 <= l.dir < 512 && l.slot < 64 && TableOf(img, l.dir)[l.slot] == ZERO_ENTRY
    ensures Removed(Published(img, img1, l, e), fat, l)[l.dir] == img[l.dir]
  {
    var t := TableOf(img, l.dir);
    PutTableMeta(img1, l.dir, t[l.slot := e]);
    assert t[l.slot := e][l.slot := ZERO_ENTRY] == t;
    WriteBackIsNoOp(img, l.dir);
    assert PutTable(img, l.dir, t)[l.dir] == img[l.dir];
  }

  /** Clearing a freshly published slot and restoring the map gives the old image back, except in
      clusters that were scribbled on before publishing. */
  lemma RemoveUndoesPublish(img: Image, img1: Image, l: Loc, e: Entry, ch: seq<nat>)
    requires 2 <= l.dir < 512 && l.slot < 64 && l.dir !in ch && TableOf(img, l.dir)[l.slot] == ZERO_ENTRY
    requires forall c :: 0 <= c < 2048 && c != 1 && c !in ch ==> img1[c] == img[c]
    ensures SameBut(img, Removed(Published(img, img1, l, e), FatOf(img), l), ch)
  {
    RestoredTable(img, img1, FatOf(img), l, e);
    WriteBackIsNoOp(img, 1);
  }

  /** Writing a file and deleting it again restores the map, the parent's table and every cluster
      that was not free. */
  lemma DeleteUndoesWriteFile(img: Image, lay: Layout, r: Request, data: seq<byte>)
    requires Consistent(MetaOf(img), lay) && r.parent in lay.Dirs()
    requires WriteReady(img, r) && Accepted(img, r) && r.size == |data| > 0
    ensures var img' := WriteFile(img, r, data);
            && DeleteReady(img', r) && DeleteOutcome(img', r).code == 0
            && SameBut(img, DeleteOutcome(img', r).img, FileChain(img, r))
  {
    var ch, l, img' := FileChain(img, r), FileLoc(img, r), WriteFile(img, r, data);
    var e := LiveEntry(r.name, r.ext, ch[0], r.size);
    var lay' := AddEntry(lay, l, ch, false);
    FileKeepsValid(img, lay, r, data);
    FileIsPublished(img, lay, r, data);
    AcceptedRoom(img, lay, r, r.ext);
    PublishedTarget(img, BeforePublish(img, r, data), r, l, e);
    DeleteRemoves(img', lay', r);
    DirsAreTaken(MetaOf(img), lay, r.parent);
    FileMapRestored(img, r, data, l, e);
    PartFileElsewhere(img, r, data);
    RemoveUndoesPublish(img, BeforePublish(img, r, data), l, e, ch);
  }

  lemma PublishedTarget(img: Image, img1: Image, r: Request, l: Loc, e: Entry)
    requires l.dir == r.parent < 512 && 1 <= l.slot < 64 && Live(e) && Hits(WriteKey(r), e)
    requires e.size == r.size && First(TableOf(img, r.parent), WriteKey(r), 0) == 64
    ensures Target(Published(img, img1, l, e), r) == l.slot && Deletable(Published(img, img1, l, e), r)
    ensures TableOf(Published(img, img1, l, e), l.dir)[l.slot] == e
  {
    PutTableMeta(img1, l.dir, TableOf(img, l.dir)[l.slot := e]);
    FirstAfterInsert(TableOf(img, l.dir), WriteKey(r), l.slot, e);
  }

  lemma FileMapRestored(img: Image, r: Request, data: seq<byte>, l: Loc, e: Entry)
    requires FatHeader(FatOf(img)) && r.size == |data| > 0 && ClusterCount(r.size) <= |Free(FatOf(img))|
    requires 2 <= l.dir < 512 && l.slot < 64
    ensures var ch := FileChain(img, r);
            Unlink(FatOf(Published(img, BeforePublish(img, r, data), l, e)), ch, |ch|) == FatOf(img)
  {
    var n := ClusterCount(r.size);
    var ch := FileChain(img, r);
    LowestAreCells(FatOf(img), n);
    PartFileFat(img, ch, Pad(data), n, n);
    PutTableMeta(BeforePublish(img, r, data), l.dir, TableOf(img, l.dir)[l.slot := e]);
    UnlinkUndoesLink(FatOf(img), ch);
  }

  lemma PartFileElsewhere(img: Image, r: Request, data: seq<byte>)
    requires r.size == |data| && ClusterCount(r.size) <= |Free(FatOf(img))|
    ensures forall c :: 0 <= c < 2048 && c != 1 && c !in FileChain(img, r) ==> BeforePublish(img, r, data)[c] == img[c]
    ensures forall c :: c in FileChain(img, r) ==> c < 512 && FatOf(img)[c] == 0
  {
    var n := ClusterCount(r.size);
    LowestAreCells(FatOf(img), n);
    ScatterCells(img, FileChain(img, r), Pad(data), n);
  }

  lemma PublishedFat(img: Image, img1: Image, l: Loc, e: Entry)
    requires 2 <= l.dir < 512 && l.slot < 64
    ensures FatOf(Published(img, img1, l, e)) == FatOf(img1)
  {
  }

  lemma DirMapRestored(img: Image, e: Entry, l: Loc)
    requires 3 <= e.low < 512 && FatOf(img)[e.low] == 0 && 2 <= l.dir < 512 && l.slot < 64
    ensures Unlink(FatOf(Published(img, NewDirectory(img, e), l, e)), [e.low], 1) == FatOf(img)
  {
    NewDirectoryTouchesOnlyFree(img, e);
  }

  lemma NewDirectoryRestored(img: Image, e: Entry, l: Loc)
    requires 3 <= e.low < 512 && FatOf(img)[e.low] == 0 && 2 <= l.dir < 512 && l.slot < 64 && l.dir != e.low
    requires TableOf(img, l.dir)[l.slot] == ZERO_ENTRY
    ensures var img' := Published(img, NewDirectory(img, e), l, e);
            SameBut(img, Removed(img', Unlink(FatOf(img'), [e.low], 1), l), [e.low])
  {
    DirMapRestored(img, e, l);
    RemoveUndoesPublish(img, NewDirectory(img, e), l, e, [e.low]);
  }

  lemma NewDirectoryIsDeleted(img: Image, r: Request, e: Entry, l: Loc)
    requires r.size == 0 && l.dir == r.parent && 2 <= r.parent < 512 && 1 <= l.slot < 64
    requires e == LiveEntry(r.name, NO_EXT, e.low, 0) && 3 <= e.low < 512 && e.low != r.parent
    requires First(TableOf(img, r.parent), WriteKey(r), 0) == 64
    ensures var img' := Published(img, NewDirectory(img, e), l, e);
            && DeleteReady(img', r)
            && DeleteOutcome(img', r) ==
                 if r.name == ROOT_NAME then Outcome(-1, img')
                 else Outcome(0, Removed(img', Unlink(FatOf(img'), [e.low], 1), l))
  {
    PublishedTarget(img, NewDirectory(img, e), r, l, e);
    PutTableMeta(PutFat(img, WithCell(FatOf(img), e.low, END_OF_FILE)), e.low, NewTable(e));
    assert TableOf(Published(img, NewDirectory(img, e), l, e), e.low) == NewTable(e);
  }

  /** The same for a directory, unless its name is ROOT, which `delete` refuses. */
  lemma DeleteUndoesWriteDirectory(img: Image, lay: Layout, r: Request)
    requires Consistent(MetaOf(img), lay) && r.parent in lay.Dirs()
    requires WriteReady(img, r) && Accepted(img, r) && r.size == 0
    ensures var img', c := WriteDirectory(img, r), DirEntry(img, r).low;
            && DeleteReady(img', r)
            && if r.name == ROOT_NAME then DeleteOutcome(img', r) == Outcome(-1, img')
               else DeleteOutcome(img', r).code == 0 && SameBut(img, DeleteOutcome(img', r).img, [c])
  {
    var e, l := DirEntry(img, r), FileLoc(img, r);
    DirectoryKeepsValid(img, lay, r);
    AcceptedRoom(img, lay, r, NO_EXT);
    ScanStops(FatOf(img), 0, e.low);
    DirsAreTaken(MetaOf(img), lay, r.parent);
    NewDirectoryIsDeleted(img, r, e, l);
    NewDirectoryRestored(img, e, l);
  }
}
