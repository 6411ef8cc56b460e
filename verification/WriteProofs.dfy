/** Theorems about `write`: it keeps the whole-disk invariant, what was written reads back, no other
    read changes, and a crash at any point leaves the old tree or the new one. */
module WriteProofs {
  import opened Format
  import opened Volume
  import opened Edits
  import opened Allocation
  import opened Storage
  import opened DriverSpec
  import opened Crash
  import opened Reading

  lemma FileAvoidsDirs(m: Meta, lay: Layout, l: Loc, d: nat)
    requires Consistent(m, lay) && l in lay.chains && l.dir < 512 && l.slot < 64 && At(m, l).size > 0
    requires d in lay.Dirs()
    ensures d !in lay.chains[l]
  {
    assert EntryOk(m, lay, l);
    if d != ROOT {
      assert HomeOk(m, lay, d);
    }
  }

  // ---- Crash safety ------------------------------------------------------------

  lemma HarmlessFrame(img: Image, img': Image, lay: Layout)
    requires Consistent(MetaOf(img), lay) && OnlyFreeTouched(img, img')
    ensures SameOnTaken(MetaOf(img), MetaOf(img'), lay)
  {
    forall d | d in lay.Dirs() && d < 512
      ensures img'[d] == img[d]
    {
      DirsAreTaken(MetaOf(img), lay, d);
    }
  }

  lemma HarmlessContent(img: Image, img': Image, lay: Layout, l: Loc)
    requires Consistent(MetaOf(img), lay) && OnlyFreeTouched(img, img') && l in lay.chains
    ensures SameContent(img, img', lay.chains[l])
  {
    var ch := lay.chains[l];
    assert EntryOk(MetaOf(img), lay, l);
    forall i | 0 <= i < |ch|
      ensures ch[i] < 512 && img'[ch[i]] == img[ch[i]]
    {
      ChainIsTaken(FatOf(img), ch, ch[i]);
    }
  }

  /** An image that differs from a consistent one only where nothing was in use describes the same
      tree, and every read of it answers the same. */
  lemma HarmlessKeepsTree(img: Image, img': Image, lay: Layout)
    requires Consistent(MetaOf(img), lay) && OnlyFreeTouched(img, img')
    ensures Consistent(MetaOf(img'), lay)
  {
    HarmlessFrame(img, img', lay);
    TakenFrame(MetaOf(img), MetaOf(img'), lay);
  }

  lemma HarmlessKeepsReads(img: Image, img': Image, lay: Layout, r: Request)
    requires Consistent(MetaOf(img), lay) && OnlyFreeTouched(img, img')
    requires r.parent < 512 && r.parent in lay.Dirs()
    ensures ReadReply(img', r) == ReadReply(img, r)
  {
    HarmlessKeepsTree(img, img', lay);
    HarmlessFrame(img, img', lay);
    var t := TableOf(img, r.parent);
    assert MetaOf(img').tables[r.parent] == MetaOf(img).tables[r.parent];
    forall i | 0 < i < 64 && OfPair(t[i], r)
      ensures SameFile(img, img', lay, lay, Loc(r.parent, i))
    {
      assert Live(At(MetaOf(img), Loc(r.parent, i)));
      HarmlessContent(img, img', lay, Loc(r.parent, i));
    }
    ReadSame(img, img', lay, lay, r);
  }

  // ---- Publishing an entry -------------------------------------------------------

  /** What an accepted request knows about its parent's table: a free slot beyond slot 0, all
      zero, and no live entry of the name. */
  lemma AcceptedRoom(img: Image, lay: Layout, r: Request, ext: Ext)
    requires Consistent(MetaOf(img), lay) && r.parent in lay.Dirs() && WriteReady(img, r) && Accepted(img, r)
    requires r.size > 0 ==> ext == r.ext
    ensures var t := TableOf(img, r.parent);
            var s := First(t, FreeSlot, 0);
            && 1 <= s < 64 && t[s] == ZERO_ENTRY
            && forall e :: Live(e) && e.name == r.name && e.ext == ext ==> Named(e) && FreshName(t, e)
  {
    DirTableOk(img, lay, r.parent);
    var t := TableOf(img, r.parent);
    var s := First(t, FreeSlot, 0);
    assert Hits(FreeSlot, t[s]) && !Live(t[s]);
    assert !Hits(WriteKey(r), t[s]);
    forall i | 0 <= i < 64
      ensures !Hits(WriteKey(r), t[i])
    {
    }
  }

  /** `img1` with the entry written into the table that `img` had. */
  function Published(img: Image, img1: Image, l: Loc, e: Entry): Image
    requires l.dir < 512 && l.slot < 64
  {
    PutTable(img1, l.dir, TableOf(img, l.dir)[l.slot := e])
  }

  lemma PublishSlot(img: Image, img1: Image, lay: Layout, l: Loc, e: Entry)
    requires SameOnTaken(MetaOf(img), MetaOf(img1), lay)
    requires l.dir in lay.Dirs() && l.dir < 512 && 1 <= l.slot < 64 && !Live(TableOf(img, l.dir)[l.slot])
    requires Live(e) && Named(e) && FreshName(TableOf(img, l.dir), e)
    ensures AddsSlot(MetaOf(img), MetaOf(Published(img, img1, l, e)), lay, l, e)
  {
    var t' := TableOf(img, l.dir)[l.slot := e];
    PutTableMeta(img1, l.dir, t');
    forall d | d in lay.Dirs() && d < 512 && d != l.dir
      ensures MetaOf(Published(img, img1, l, e)).tables[d] == MetaOf(img).tables[d]
    {
      assert MetaOf(img1).tables[d] == MetaOf(img).tables[d];
    }
  }

  lemma PublishAdds(img: Image, img1: Image, lay: Layout, l: Loc, e: Entry, ch: seq<nat>)
    requires SameOnTaken(MetaOf(img), MetaOf(img1), lay)
    requires l.dir in lay.Dirs() && 2 <= l.dir < 512 && 1 <= l.slot < 64 && FatOf(img)[l.dir] != 0
    requires !Live(TableOf(img, l.dir)[l.slot])
    requires Live(e) && Named(e) && FreshName(TableOf(img, l.dir), e)
    requires AddsChain(FatOf(img), FatOf(img1), e, ch)
    requires e.size == 0 ==> e.ext == NO_EXT && TableOf(img1, ch[0]) == NewTable(e)
    ensures Adds(MetaOf(img), MetaOf(Published(img, img1, l, e)), lay, l, e, ch)
    ensures FatOf(Published(img, img1, l, e)) == FatOf(img1)
  {
    PublishSlot(img, img1, lay, l, e);
    assert ch[0] in ch;
  }

  lemma PublishKeepsValid(img: Image, img1: Image, lay: Layout, l: Loc, e: Entry, ch: seq<nat>)
    requires Consistent(MetaOf(img), lay) && l.dir < 512 && l.slot < 64
    requires forall c :: 0 <= c < 512 && c !in ch ==> FatOf(img1)[c] == FatOf(img)[c]
    requires Adds(MetaOf(img), MetaOf(Published(img, img1, l, e)), lay, l, e, ch)
    requires FatOf(Published(img, img1, l, e)) == FatOf(img1)
    ensures l !in lay.chains
    ensures Carries(MetaOf(img), lay, MetaOf(Published(img, img1, l, e)), AddEntry(lay, l, ch, e.size == 0))
  {
    var m' := MetaOf(Published(img, img1, l, e));
    AddPreserves(MetaOf(img), m', lay, l, e, ch);
    AddLeaksNothing(MetaOf(img), m', lay, l, ch, e.size == 0);
  }

  lemma PublishKeepsMatch(img: Image, img1: Image, lay: Layout, l: Loc, e: Entry, ch: seq<nat>, k: Loc)
    requires Consistent(MetaOf(img), lay) && OnlyFreeTouched(img, img1) && l.dir < 512 && l.slot < 64 && |ch| > 0
    requires l.dir in lay.Dirs() && l !in lay.chains && k in lay.chains && k.dir < 512 && k.slot < 64
    requires TableOf(Published(img, img1, l, e), k.dir)[k.slot] == TableOf(img, k.dir)[k.slot]
    ensures SameFile(img, Published(img, img1, l, e), lay, AddEntry(lay, l, ch, e.size == 0), k)
  {
    PublishKeepsFile(img, img1, lay, l, e, k);
  }

  lemma PublishedTables(img: Image, img1: Image, lay: Layout, l: Loc, e: Entry, d: nat, i: nat)
    requires l.dir < 512 && l.slot < 64 && d < 512 && d in lay.Dirs() && i < 64
    requires AddsSlot(MetaOf(img), MetaOf(Published(img, img1, l, e)), lay, l, e)
    ensures TableOf(Published(img, img1, l, e), d)[i] == if Loc(d, i) == l then e else TableOf(img, d)[i]
    ensures Loc(d, i) == l ==> !Live(TableOf(img, d)[i])
  {
  }

  lemma PublishKeepsMatches(img: Image, img1: Image, lay: Layout, l: Loc, e: Entry, ch: seq<nat>, r: Request)
    requires Consistent(MetaOf(img), lay) && OnlyFreeTouched(img, img1) && l.dir < 512 && l.slot < 64 && |ch| > 0
    requires AddsSlot(MetaOf(img), MetaOf(Published(img, img1, l, e)), lay, l, e) && l !in lay.chains
    requires r.parent < 512 && r.parent in lay.Dirs() && !(r.parent == l.dir && OfPair(e, r))
    ensures SameMatches(img, Published(img, img1, l, e), lay, AddEntry(lay, l, ch, e.size == 0), r)
  {
    var img' := Published(img, img1, l, e);
    var t, t' := TableOf(img, r.parent), TableOf(img', r.parent);
    forall i | 0 <= i < 64 && (OfPair(t[i], r) || OfPair(t'[i], r))
      ensures t'[i] == t[i]
      ensures i > 0 ==> SameFile(img, img', lay, AddEntry(lay, l, ch, e.size == 0), Loc(r.parent, i))
    {
      PublishedTables(img, img1, lay, l, e, r.parent, i);
      if i > 0 {
        assert Live(At(MetaOf(img), Loc(r.parent, i)));
        PublishKeepsMatch(img, img1, lay, l, e, ch, Loc(r.parent, i));
      }
    }
  }

  /** Publishing changes the answer to no read except of the published name. */
  lemma PublishKeepsReads(img: Image, img1: Image, lay: Layout, l: Loc, e: Entry, ch: seq<nat>, r: Request)
    requires Consistent(MetaOf(img), lay) && OnlyFreeTouched(img, img1) && l.dir < 512 && l.slot < 64 && |ch| > 0
    requires AddsSlot(MetaOf(img), MetaOf(Published(img, img1, l, e)), lay, l, e) && l !in lay.chains
    requires Consistent(MetaOf(Published(img, img1, l, e)), AddEntry(lay, l, ch, e.size == 0))
    requires r.parent < 512 && r.parent in lay.Dirs() && !(r.parent == l.dir && OfPair(e, r))
    ensures ReadReply(Published(img, img1, l, e), r) == ReadReply(img, r)
  {
    PublishKeepsMatches(img, img1, lay, l, e, ch, r);
    ReadSame(img, Published(img, img1, l, e), lay, AddEntry(lay, l, ch, e.size == 0), r);
  }

  lemma PublishKeepsFile(img: Image, img1: Image, lay: Layout, l: Loc, e: Entry, k: Loc)
    requires Consistent(MetaOf(img), lay) && OnlyFreeTouched(img, img1) && l.dir < 512 && l.slot < 64
    requires l.dir in lay.Dirs() && k in lay.chains && k.dir < 512 && k.slot < 64
    ensures At(MetaOf(img), k).size > 0 ==> SameContent(img, Published(img, img1, l, e), lay.chains[k])
  {
    if At(MetaOf(img), k).size > 0 {
      HarmlessContent(img, img1, lay, k);
      FileAvoidsDirs(MetaOf(img), lay, k, l.dir);
      forall i | 0 <= i < |lay.chains[k]|
        ensures lay.chains[k][i] != l.dir
      {
        assert lay.chains[k][i] in lay.chains[k];
      }
    }
  }

  // ---- Files ---------------------------------------------------------------------

  /** The pieces of a file write: where the entry goes, what it says, which clusters it owns. */
  function FileLoc(img: Image, r: Request): Loc
    requires r.parent < 512
  {
    Loc(r.parent, First(TableOf(img, r.parent), FreeSlot, 0))
  }

  function FileChain(img: Image, r: Request): seq<nat>
    requires ClusterCount(r.size) <= |Free(FatOf(img))|
  {
    Lowest(FatOf(img), ClusterCount(r.size))
  }

  function BeforePublish(img: Image, r: Request, data: seq<byte>): Image
    requires r.size == |data| && ClusterCount(r.size) <= |Free(FatOf(img))|
  {
    PartFile(img, FileChain(img, r), Pad(data), ClusterCount(r.size), ClusterCount(r.size))
  }

  lemma FileIsPublished(img: Image, lay: Layout, r: Request, data: seq<byte>)
    requires Consistent(MetaOf(img), lay) && r.parent in lay.Dirs()
    requires WriteReady(img, r) && Accepted(img, r) && r.size == |data| > 0
    ensures var ch, l := FileChain(img, r), FileLoc(img, r);
            && |ch| > 0 && l.slot < 64
            && WriteFile(img, r, data)
               == Published(img, BeforePublish(img, r, data), l, LiveEntry(r.name, r.ext, ch[0], r.size))
  {
    AcceptedRoom(img, lay, r, r.ext);
    FileEntryOverZero(r, FileChain(img, r)[0]);
  }

  /** Accumulating the size over a zeroed slot gives the size itself. */
  lemma FileEntryOverZero(r: Request, head: u16)
    ensures FileEntry(ZERO_ENTRY, r, head) == LiveEntry(r.name, r.ext, head, r.size)
  {
  }

  lemma FileChainIsNew(img: Image, r: Request, data: seq<byte>)
    requires FatHeader(FatOf(img)) && r.size == |data| > 0 && ClusterCount(r.size) <= |Free(FatOf(img))|
    ensures var ch, img1 := FileChain(img, r), BeforePublish(img, r, data);
            && OnlyFreeTouched(img, img1)
            && IsChain(FatOf(img1), ch)
            && (forall c :: c in ch ==> c < 512 && FatOf(img)[c] == 0)
            && (forall c :: 0 <= c < 512 && c !in ch ==> FatOf(img1)[c] == FatOf(img)[c])
  {
    var n := ClusterCount(r.size);
    var ch := FileChain(img, r);
    LowestAreCells(FatOf(img), n);
    PartFileTouchesOnlyFree(img, ch, Pad(data), n, n);
    PartFileFat(img, ch, Pad(data), n, n);
    LinkedIsChain(FatOf(img), ch);
    LinkCells(FatOf(img), ch, n);
  }

  lemma FileKeepsValid(img: Image, lay: Layout, r: Request, data: seq<byte>)
    requires Consistent(MetaOf(img), lay) && r.parent in lay.Dirs()
    requires WriteReady(img, r) && Accepted(img, r) && r.size == |data| > 0
    ensures var ch, l := FileChain(img, r), FileLoc(img, r);
            && |ch| > 0 && l !in lay.chains && l.slot < 64 && IsChain(FatOf(BeforePublish(img, r, data)), ch)
            && OnlyFreeTouched(img, BeforePublish(img, r, data))
            && Adds(MetaOf(img), MetaOf(WriteFile(img, r, data)), lay, l, LiveEntry(r.name, r.ext, ch[0], r.size), ch)
            && Carries(MetaOf(img), lay, MetaOf(WriteFile(img, r, data)), AddEntry(lay, l, ch, false))
  {
    var ch, l, img1 := FileChain(img, r), FileLoc(img, r), BeforePublish(img, r, data);
    FileIsPublished(img, lay, r, data);
    FileChainIsNew(img, r, data);
    AcceptedRoom(img, lay, r, r.ext);
    HarmlessFrame(img, img1, lay);
    DirsAreTaken(MetaOf(img), lay, r.parent);
    var e := LiveEntry(r.name, r.ext, ch[0], r.size);
    PublishAdds(img, img1, lay, l, e, ch);
    PublishKeepsValid(img, img1, lay, l, e, ch);
  }

  // ---- Directories ---------------------------------------------------------------

  function DirEntry(img: Image, r: Request): Entry
    requires |Free(FatOf(img))| > 0
  {
    LiveEntry(r.name, NO_EXT, Free(FatOf(img))[0], 0)
  }

  function DirChain(img: Image, r: Request): seq<nat>
    requires |Free(FatOf(img))| > 0
  {
    [DirEntry(img, r).low]
  }

  lemma DirChainIsNew(img: Image, r: Request)
    requires FatHeader(FatOf(img)) && |Free(FatOf(img))| > 0
    ensures var e := DirEntry(img, r);
            var img1 := NewDirectory(img, e);
            && 3 <= e.low < 512 && OnlyFreeTouched(img, img1)
            && AddsChain(FatOf(img), FatOf(img1), e, [e.low])
            && TableOf(img1, e.low) == NewTable(e)
            && forall c :: 0 <= c < 512 && c != e.low ==> FatOf(img1)[c] == FatOf(img)[c]
  {
    var e := DirEntry(img, r);
    ScanStops(FatOf(img), 0, e.low);
    NewDirectoryTouchesOnlyFree(img, e);
    PutTableMeta(PutFat(img, WithCell(FatOf(img), e.low, END_OF_FILE)), e.low, NewTable(e));
  }

  lemma DirectoryKeepsValid(img: Image, lay: Layout, r: Request)
    requires Consistent(MetaOf(img), lay) && r.parent in lay.Dirs()
    requires WriteReady(img, r) && Accepted(img, r) && r.size == 0
    ensures var e, l, ch := DirEntry(img, r), FileLoc(img, r), DirChain(img, r);
            && e.low < 512 && l !in lay.chains && l.slot < 64 && OnlyFreeTouched(img, NewDirectory(img, e))
            && WriteDirectory(img, r) == Published(img, NewDirectory(img, e), l, e)
            && Adds(MetaOf(img), MetaOf(WriteDirectory(img, r)), lay, l, e, ch)
            && Carries(MetaOf(img), lay, MetaOf(WriteDirectory(img, r)), AddEntry(lay, l, ch, true))
  {
    var e, l := DirEntry(img, r), FileLoc(img, r);
    var img1 := NewDirectory(img, e);
    DirChainIsNew(img, r);
    AcceptedRoom(img, lay, r, NO_EXT);
    HarmlessFrame(img, img1, lay);
    DirsAreTaken(MetaOf(img), lay, r.parent);
    PublishAdds(img, img1, lay, l, e, [e.low]);
    PublishKeepsValid(img, img1, lay, l, e, [e.low]);
  }

  // ---- The theorems ----------------------------------------------------------------

  /** The layout after a write: the old one, or one entry more. */
  function WriteLayout(img: Image, lay: Layout, r: Request): Layout
    requires WriteReady(img, r)
  {
    if !Accepted(img, r) then lay
    else if r.size == 0 then AddEntry(lay, FileLoc(img, r), DirChain(img, r), true)
    else AddEntry(lay, FileLoc(img, r), FileChain(img, r), false)
  }

  /** `write` keeps the whole-disk invariant, whatever it returns. */
  lemma WriteKeepsValid(img: Image, lay: Layout, r: Request, data: seq<byte>)
    requires Consistent(MetaOf(img), lay) && r.parent in lay.Dirs() && WriteReady(img, r) && |data| == r.size
    ensures Carries(MetaOf(img), lay, MetaOf(WriteOutcome(img, r, data).img), WriteLayout(img, lay, r))
    ensures WriteOutcome(img, r, data).code == if Accepted(img, r) then 0 else 1
  {
    DirsAreTaken(MetaOf(img), lay, r.parent);
    if Accepted(img, r) {
      if r.size == 0 {
        DirectoryKeepsValid(img, lay, r);
      } else {
        FileKeepsValid(img, lay, r, data);
      }
    }
  }

  /** The file once written: its place, its chain, its entry and its content. */
  lemma WrittenFile(img: Image, lay: Layout, r: Request, data: seq<byte>) returns (img': Image, lay': Layout, l: Loc)
    requires Consistent(MetaOf(img), lay) && r.parent in lay.Dirs()
    requires WriteReady(img, r) && Accepted(img, r) && r.size == |data| > 0
    ensures img' == WriteFile(img, r, data) && Consistent(MetaOf(img'), lay')
    ensures l.dir == r.parent < 512 && l.slot < 64 && l.dir in lay'.Dirs() && l in lay'.chains
    ensures var e := TableOf(img', l.dir)[l.slot]; OfPair(e, r) && e.size == r.size
    ensures lay'.chains[l] == FileChain(img, r)
  {
    var ch := FileChain(img, r);
    FileKeepsValid(img, lay, r, data);
    l, img' := FileLoc(img, r), WriteFile(img, r, data);
    lay' := AddedEntry(img, img', lay, l, LiveEntry(r.name, r.ext, ch[0], r.size), ch);
  }

  lemma AddedEntry(img: Image, img': Image, lay: Layout, l: Loc, e: Entry, ch: seq<nat>) returns (lay': Layout)
    requires Adds(MetaOf(img), MetaOf(img'), lay, l, e, ch) && Consistent(MetaOf(img'), AddEntry(lay, l, ch, false))
    ensures Consistent(MetaOf(img'), lay')
    ensures l.dir in lay'.Dirs() && l.dir < 512 && l.slot < 64 && Live(e) && TableOf(img', l.dir)[l.slot] == e
    ensures l in lay'.chains && lay'.chains[l] == ch
  {
    lay' := AddEntry(lay, l, ch, false);
  }

  lemma WriteReadsPad(img: Image, lay: Layout, r: Request, data: seq<byte>, bufSize: u32)
    requires Consistent(MetaOf(img), lay) && r.parent in lay.Dirs()
    requires WriteReady(img, r) && Accepted(img, r) && r.size == |data| > 0 && bufSize >= r.size
    ensures ReadReply(WriteFile(img, r, data), r.(size := bufSize)) == Reply(0, Pad(data))
  {
    WrittenContent(img, lay, r, data);
    var img', lay', l := WrittenFile(img, lay, r, data);
    FileAnswers(img', lay', l, r.(size := bufSize));
  }

  /** What was written reads back, for every buffer that is large enough: the data byte by byte, then
      zeros up to the cluster boundary. */
  lemma WriteReadsBack(img: Image, lay: Layout, r: Request, data: seq<byte>, bufSize: u32)
    requires Consistent(MetaOf(img), lay) && r.parent in lay.Dirs()
    requires WriteReady(img, r) && r.size == |data| > 0 && bufSize >= r.size && WriteOutcome(img, r, data).code == 0
    ensures var reply := ReadReply(WriteOutcome(img, r, data).img, r.(size := bufSize));
            && reply.code == 0 && |data| <= |reply.bytes| < |data| + 2048 && |reply.bytes| % 2048 == 0
            && reply.bytes[..|data|] == data
            && forall i :: |data| <= i < |reply.bytes| ==> reply.bytes[i] == 0
  {
    WriteReadsPad(img, lay, r, data, bufSize);
    PadIsZeroFilled(data);
  }

  lemma WriteFileElsewhere(img: Image, r: Request, data: seq<byte>) returns (img': Image)
    requires WriteReady(img, r) && Accepted(img, r) && r.size == |data| > 0
    ensures img' == WriteFile(img, r, data)
    ensures var ch := FileChain(img, r);
            forall c :: 0 <= c < 2048 && c != 1 && c != r.parent ==> img'[c] == Scatter(img, ch, Pad(data), |ch|)[c]
  {
    img' := WriteFile(img, r, data);
  }

  lemma ScatteredContent(img: Image, img': Image, ch: seq<nat>, bytes: seq<byte>, p: nat)
    requires Cells(ch) && |bytes| == 2048 * |ch| && 1 !in ch && p !in ch
    requires forall c :: 0 <= c < 2048 && c != 1 && c != p ==> img'[c] == Scatter(img, ch, bytes, |ch|)[c]
    ensures Gather(img', ch) == bytes
  {
    forall i | 0 <= i < |ch|
      ensures img'[ch[i]] == Scatter(img, ch, bytes, |ch|)[ch[i]]
    {
      assert ch[i] in ch;
    }
    GatherScatter(img, img', ch, bytes);
  }

  lemma WrittenContent(img: Image, lay: Layout, r: Request, data: seq<byte>)
    requires Consistent(MetaOf(img), lay) && r.parent in lay.Dirs()
    requires WriteReady(img, r) && Accepted(img, r) && r.size == |data| > 0
    ensures Gather(WriteFile(img, r, data), FileChain(img, r)) == Pad(data)
  {
    LowestAreCells(FatOf(img), ClusterCount(r.size));
    var img' := WriteFileElsewhere(img, r, data);
    ScatteredContent(img, img', FileChain(img, r), Pad(data), r.parent);
  }

  /** A write changes the answer to no read of another name, in any directory. */
  lemma WriteKeepsOtherReads(img: Image, lay: Layout, r: Request, data: seq<byte>, q: Request)
    requires Consistent(MetaOf(img), lay) && r.parent in lay.Dirs() && WriteReady(img, r) && |data| == r.size
    requires q.parent < 512 && q.parent in lay.Dirs()
    requires !(q.parent == r.parent && q.name == r.name && q.ext == if r.size == 0 then NO_EXT else r.ext)
    ensures ReadReply(WriteOutcome(img, r, data).img, q) == ReadReply(img, q)
  {
    if Accepted(img, r) {
      if r.size == 0 {
        var e, l := DirEntry(img, r), FileLoc(img, r);
        DirectoryKeepsValid(img, lay, r);
        PublishKeepsReads(img, NewDirectory(img, e), lay, l, e, [e.low], q);
      } else {
        var ch, l := FileChain(img, r), FileLoc(img, r);
        FileKeepsValid(img, lay, r, data);
        FileIsPublished(img, lay, r, data);
        PublishKeepsReads(img, BeforePublish(img, r, data), lay, l, LiveEntry(r.name, r.ext, ch[0], r.size), ch, q);
      }
    }
  }

  /** Stopping a write after any of its cluster writes but the last leaves the old tree, with
      every read as before; only clusters nobody refers to may be marked taken. */
  lemma WriteIsCrashSafe(img: Image, lay: Layout, before: seq<Image>, log: seq<Image>, img': Image, k: nat)
    requires Consistent(MetaOf(img), lay) && HarmlessBut(img, before, log, img')
    requires |before| <= k < |log| - 1
    ensures Consistent(MetaOf(log[k]), lay)
    ensures forall q: Request :: q.parent < 512 && q.parent in lay.Dirs() ==> ReadReply(log[k], q) == ReadReply(img, q)
  {
    assert log[..|log| - 1][k] == log[k];
    HarmlessKeepsTree(img, log[k], lay);
    forall q: Request | q.parent < 512 && q.parent in lay.Dirs()
      ensures ReadReply(log[k], q) == ReadReply(img, q)
    {
      HarmlessKeepsReads(img, log[k], lay, q);
    }
  }
}
