/** Cluster accounting: free, owned and reserved cells add up to the map, and an operation moves
    exactly one chain between the first two. */
module Accounting {
  import opened Format
  import opened Volume
  import opened Edits
  import opened Allocation
  import opened Storage
  import opened DriverSpec
  import opened Crash
  import opened WriteProofs
  import opened DeleteProofs

  ghost function TakenFrom(fat: Fat, i: nat): set<nat> {
    set c | i <= c < 512 && fat[c] != 0
  }

  ghost function OwnedCells(lay: Layout): set<nat> {
    set c | 0 <= c < 512 && Owned(lay, c)
  }

  lemma {:induction false} FreeAndTaken(fat: Fat, i: nat)
    requires i <= 512
    ensures |FreeFrom(fat, i)| + |TakenFrom(fat, i)| == 512 - i
    decreases |fat| - i
  {
    if i < 512 {
      FreeAndTaken(fat, i + 1);
      if fat[i] == 0 {
        assert TakenFrom(fat, i) == TakenFrom(fat, i + 1);
      } else {
        assert TakenFrom(fat, i) == TakenFrom(fat, i + 1) + {i};
      }
    }
  }

  lemma AboveThree(A: set<nat>, B: set<nat>)
    requires forall c: nat :: c in A <==> c in B || c < 3
    requires forall c: nat :: c in B ==> c >= 3
    ensures |A| == |B| + 3
  {
    assert A == B + {0, 1, 2};
  }

  /** Free cells, cells of chains and the three reserved cells are the whole map. */
  lemma CellsAreConserved(m: Meta, lay: Layout)
    requires Valid(m, lay)
    ensures |Free(m.fat)| + |OwnedCells(lay)| + 3 == 512
  {
    FreeAndTaken(m.fat, 0);
    forall c | 0 <= c < 512
      ensures m.fat[c] != 0 <==> Owned(lay, c) || c < 3
      ensures Owned(lay, c) ==> c >= 3
    {
      if Owned(lay, c) {
        OwnedIsTaken(m, lay, c);
      }
    }
    forall c: nat
      ensures c in TakenFrom(m.fat, 0) <==> c in OwnedCells(lay) || c < 3
      ensures c in OwnedCells(lay) ==> c >= 3
    {
    }
    AboveThree(TakenFrom(m.fat, 0), OwnedCells(lay));
  }

  /** Freeing a chain makes exactly its length of cells free. */
  lemma FreeingCounts(fat: Fat, fat': Fat, ch: seq<nat>)
    requires Cells(ch) && Frees(fat, fat', ch) && forall i :: 0 <= i < |ch| ==> fat[ch[i]] != 0
    ensures |Free(fat')| == |Free(fat)| + |ch|
  {
    FreeAndTaken(fat, 0);
    FreeAndTaken(fat', 0);
    var C := set i | 0 <= i < |ch| :: ch[i];
    DistinctCount(ch, |ch|);
    forall c | 0 <= c < 512
      ensures c in ch <==> c in C
    {
    }
    assert TakenFrom(fat, 0) == TakenFrom(fat', 0) + C;
  }

  /** A successful delete returns exactly the clusters the entry's size accounts for. */
  lemma DeleteReturnsClusters(img: Image, lay: Layout, r: Request)
    requires Consistent(MetaOf(img), lay) && r.parent in lay.Dirs() && r.parent < 512 && Deletable(img, r)
    ensures DeleteReady(img, r)
    ensures DeleteOutcome(img, r).code == 0 ==>
      |Free(FatOf(DeleteOutcome(img, r).img))|
        == |Free(FatOf(img))| + ClustersOf(TableOf(img, r.parent)[Target(img, r)].size)
  {
    DeleteRemoves(img, lay, r);
    TargetChain(img, lay, r);
    var l := Loc(r.parent, Target(img, r));
    var ch := lay.chains[l];
    DirsAreTaken(MetaOf(img), lay, r.parent);
    UnlinkFrees(FatOf(img), ch);
    RemovedMeta(img, Unlink(FatOf(img), ch, |ch|), l);
    forall i | 0 <= i < |ch|
      ensures FatOf(img)[ch[i]] != 0
    {
      assert ch[i] in ch;
      ChainIsTaken(FatOf(img), ch, ch[i]);
    }
    FreeingCounts(FatOf(img), Unlink(FatOf(img), ch, |ch|), ch);
  }

  /** A successful write takes exactly the clusters the size asks for: one for a directory. */
  lemma WriteTakesClusters(img: Image, lay: Layout, r: Request, data: seq<byte>)
    requires Consistent(MetaOf(img), lay) && r.parent in lay.Dirs() && WriteReady(img, r) && |data| == r.size
    ensures WriteOutcome(img, r, data).code == 0 ==>
      |Free(FatOf(WriteOutcome(img, r, data).img))| == |Free(FatOf(img))| - ClustersOf(r.size)
  {
    DirsAreTaken(MetaOf(img), lay, r.parent);
    if Accepted(img, r) {
      if r.size == 0 {
        DirectoryTakesOne(img, lay, r);
      } else {
        FileMap(img, lay, r, data);
        RescanFindsNext(FatOf(img), ClusterCount(r.size), ClusterCount(r.size));
      }
    }
  }

  lemma DirectoryTakesOne(img: Image, lay: Layout, r: Request)
    requires Consistent(MetaOf(img), lay) && r.parent in lay.Dirs() && 2 <= r.parent < 512
    requires WriteReady(img, r) && Accepted(img, r) && r.size == 0
    ensures |Free(FatOf(WriteDirectory(img, r)))| == |Free(FatOf(img))| - 1
  {
    var e, l := DirEntry(img, r), FileLoc(img, r);
    DirectoryKeepsValid(img, lay, r);
    NewDirectoryTouchesOnlyFree(img, e);
    PutTableMeta(NewDirectory(img, e), r.parent, TableOf(img, r.parent)[l.slot := e]);
    TakeLowest(FatOf(img), e.low, END_OF_FILE);
  }

  /** The map after a file was published is the one its chain was linked into. */
  lemma FileMap(img: Image, lay: Layout, r: Request, data: seq<byte>)
    requires Consistent(MetaOf(img), lay) && r.parent in lay.Dirs() && 2 <= r.parent < 512
    requires WriteReady(img, r) && Accepted(img, r) && r.size == |data| > 0
    ensures FatOf(WriteFile(img, r, data)) == Link(FatOf(img), FileChain(img, r), ClusterCount(r.size))
  {
    var n, ch := ClusterCount(r.size), FileChain(img, r);
    FileIsPublished(img, lay, r, data);
    PartFileFat(img, ch, Pad(data), n, n);
    PublishedFat(img, BeforePublish(img, r, data), FileLoc(img, r), LiveEntry(r.name, r.ext, ch[0], r.size));
  }
}
