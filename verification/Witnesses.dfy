/** The failures are real: on a freshly formatted disk, a request or a command of each kind that
    breaks the disk, the shell's path or a file's content. */
module Witnesses {
  import opened Format
  import opened Volume
  import opened Edits
  import opened Tree
  import opened Allocation
  import opened Storage
  import opened DriverSpec
  import opened WriteProofs
  import opened DeleteProofs
  import opened Accounting
  import opened Limits
  import opened WriteLimits
  import opened ShellSpec
  import opened CwdProofs
  import opened CommandProofs
  import opened RenameProofs
  import opened MoveLimits
  import opened Mounting

  // ---- A fresh disk and the first entry on it ---------------------------------------------

  /** What formatting with a clean cache leaves. */
  ghost predicate Fresh(d: Image) {
    Valid(MetaOf(d), EMPTY) && CleanCache(FatOf(d)) && TableOf(d, ROOT) == NewTable(RootEntry())
  }

  lemma FormattedIsFresh(img: Image, cache: Fat)
    requires CleanCache(cache)
    ensures Fresh(Formatted(img, cache)) && Signed(Formatted(img, cache))
  {
    var d := FormattedMeta(img, cache);
    EmptyDiskIsValid(d, cache);
    HeaderIsClean(cache);
  }

  lemma HeaderIsClean(cache: Fat)
    requires CleanCache(cache)
    ensures CleanCache(Header(cache))
  {
  }

  lemma FreshRoom(d: Image)
    requires Fresh(d)
    ensures |Free(FatOf(d))| == 509 && Free(FatOf(d))[0] == 3
  {
    CellsAreConserved(MetaOf(d), EMPTY);
    assert OwnedCells(EMPTY) == {};
    ScanSkips(FatOf(d), 0, 3);
  }

  /** A name the root of a fresh disk does not hold. */
  predicate NewName(r: Request) {
    r.parent == ROOT && r.name != NO_NAME && r.name != ROOT_NAME
  }

  predicate IsNew(r: Request) {
    NewName(r) && r.size <= 2048
  }

  lemma FreshTakes(d: Image, r: Request)
    requires Fresh(d) && NewName(r) && ClusterCount(r.size) < 509
    ensures WriteReady(d, r) && Accepted(d, r) && FileLoc(d, r) == Loc(ROOT, 1)
  {
    FreshRoom(d);
    NewTableSearch(RootEntry(), WriteKey(r));
  }

  lemma NewTableSearch(e: Entry, k: Key)
    requires Live(e)
    ensures First(NewTable(e), FreeSlot, 0) == 1 == First(NewTable(e), FreeSlot, 1)
    ensures !Hits(k, e) && !Hits(k, ZERO_ENTRY) ==> First(NewTable(e), k, 0) == 64
    ensures Hits(k, ZERO_ENTRY) ==> First(NewTable(e), k, 1) == 1
  {
    assert NewTable(e)[1] == ZERO_ENTRY;
  }

  /** The root's table with one entry more. */
  function RootWith(e: Entry): Table {
    NewTable(RootEntry())[1 := e]
  }

  lemma FirstFile(d: Image, r: Request, data: seq<byte>) returns (img: Image, lay: Layout)
    requires Fresh(d) && IsNew(r) && r.size == |data| > 0
    ensures WriteReady(d, r) && WriteOutcome(d, r, data) == Outcome(0, img)
    ensures Valid(MetaOf(img), lay) && lay.Dirs() == {ROOT}
    ensures TableOf(img, ROOT) == RootWith(LiveEntry(r.name, r.ext, 3, r.size))
    ensures FatOf(img)[3] == END_OF_FILE && |Free(FatOf(img))| == 508
    ensures ReadReply(img, r) == Reply(0, Pad(data)) && Gather(img, [3]) == Pad(data)
  {
    FreshRoom(d);
    FreshTakes(d, r);
    assert FileChain(d, r) == [3];
    img, lay := PublishedFirst(d, r, data);
    LastCell(img, lay);
    WriteTakesClusters(d, EMPTY, r, data);
    WriteReadsPad(d, EMPTY, r, data, r.size);
    WrittenContent(d, EMPTY, r, data);
  }

  lemma LastCell(img: Image, lay: Layout)
    requires Consistent(MetaOf(img), lay) && lay == AddEntry(EMPTY, Loc(ROOT, 1), [3], false)
    ensures FatOf(img)[3] == END_OF_FILE
  {
    assert EntryOk(MetaOf(img), lay, Loc(ROOT, 1));
  }

  lemma FirstDirectory(d: Image, r: Request) returns (img: Image, lay: Layout)
    requires Fresh(d) && IsNew(r) && r.size == 0
    ensures WriteReady(d, r) && WriteOutcome(d, r, []) == Outcome(0, img)
    ensures Valid(MetaOf(img), lay) && lay.home == map[3 := Loc(ROOT, 1)]
    ensures TableOf(img, ROOT) == RootWith(LiveEntry(r.name, NO_EXT, 3, 0))
    ensures TableOf(img, 3)[0] == LiveEntry(r.name, NO_EXT, 3, 0)
  {
    FreshRoom(d);
    FreshTakes(d, r);
    var e := DirEntry(d, r);
    img, lay := WriteDirectory(d, r), AddEntry(EMPTY, Loc(ROOT, 1), [3], true);
    DirectoryKeepsValid(d, EMPTY, r);
    PutTableMeta(NewDirectory(d, e), ROOT, RootWith(e));
  }

  lemma FirstEntryFound(e: Entry)
    requires Live(e) && e.name != ROOT_NAME
    ensures First(RootWith(e), ByLivePair(e.name, e.ext), 1) == 1 == First(RootWith(e), ByPair(e.name, e.ext), 1)
  {
    assert RootWith(e)[1] == e;
  }

  // ---- delete --------------------------------------------------------------------------------

  lemma SignatureIsText(s: nat)
    requires 1 <= s < 16
    ensures Signature()[32 * s + 12] != UATTR_NOT_EMPTY
  {
    assert 32 * s + 12 in {44, 76, 332} || 80 <= 32 * s + 12 < 312 || 340 <= 32 * s + 12 < 510;
  }

  /** Nothing in the boot cluster looks like a live entry. */
  lemma BootIsEmpty(d: Image)
    requires Signed(d) && forall i :: 512 <= i < 2048 ==> d[0][i] == 0
    ensures EmptyTable(TableOf(d, 0))
  {
    forall s | 1 <= s < 64
      ensures !Live(TableOf(d, 0)[s])
    {
      UserByte(d[0], s);
      if s < 16 {
        SignatureIsText(s);
      }
    }
  }

  /** Deleting a directory that is not there answers 0, and no layout describes the disk any more. */
  lemma AbsentDirectoryBreaks(d: Image, r: Request)
    requires Fresh(d) && Signed(d) && (forall i :: 512 <= i < 2048 ==> d[0][i] == 0)
    requires IsNew(r) && r.size == 0
    ensures DeleteReady(d, r) && DeleteOutcome(d, r).code == 0 && !Sound(MetaOf(DeleteOutcome(d, r).img))
  {
    BootIsEmpty(d);
    NewTableSearch(RootEntry(), ByName(r.name));
    DeleteIsSoundIff(d, EMPTY, r);
    RefusedIff(d, r);
  }

  /** Deleting the file without a name makes the walk leave the map. */
  lemma EmptyNameLeavesMap(d: Image, size: u32)
    requires Fresh(d) && size > 0
    ensures !DeleteReady(d, Request(NO_NAME, NO_EXT, ROOT, size))
  {
    var r := Request(NO_NAME, NO_EXT, ROOT, size);
    NewTableSearch(RootEntry(), ByPair(NO_NAME, NO_EXT));
    DeleteReadyIff(d, EMPTY, r);
  }

  // ---- write ---------------------------------------------------------------------------------

  lemma {:induction false} ZerosAreFree(b: seq<byte>, i: nat)
    requires |b| % 32 == 0 && i < |DecodeEntries(b)| && forall k :: 0 <= k < |b| ==> b[k] == 0
    ensures DecodeEntries(b)[i].name == NO_NAME && DecodeEntries(b)[i].user == 0
  {
    if i > 0 {
      ZerosAreFree(b[32..], i - 1);
    }
  }

  /** A file of one zero byte is taken for a directory: what is written "into" it is lost. */
  lemma FileAsParentBreaks(d: Image, r: Request, q: Request, data: seq<byte>)
    requires Fresh(d) && IsNew(r) && r.size == 1 && q.parent == 3 && q.name != NO_NAME && q.size == |data| <= 2048
    ensures WriteReady(d, r)
    ensures var img := WriteOutcome(d, r, [0]).img;
            && WriteReady(img, q) && WriteOutcome(img, q, data).code == 0
            && !Sound(MetaOf(WriteOutcome(img, q, data).img))
  {
    var img, lay := FirstFile(d, r, [0]);
    ZeroFileTakes(img, q);
    WriteIsSoundIff(img, lay, q, data);
  }

  lemma ZeroFileTakes(img: Image, q: Request)
    requires FatHeader(FatOf(img)) && FatOf(img)[3] == END_OF_FILE && |Free(FatOf(img))| == 508
    requires Gather(img, [3]) == Pad([0]) && q.parent == 3 && q.name != NO_NAME && q.size <= 2048
    ensures WriteReady(img, q) && Accepted(img, q)
  {
    ZeroFile(img);
    forall i | 0 <= i < 64
      ensures TableOf(img, 3)[i].name == NO_NAME && TableOf(img, 3)[i].user == 0
    {
      ZerosAreFree(img[3], i);
    }
  }

  lemma ZeroFile(img: Image)
    requires Gather(img, [3]) == Pad([0])
    ensures forall i :: 0 <= i < 2048 ==> img[3][i] == 0
  {
    assert Gather(img, [3]) == GatherTo(img, [3], 0) + img[3] == img[3];
  }

  // ---- rm inside a file ------------------------------------------------------------------------

  /** A table with one live file entry, which claims the cluster 3. */
  function FakeTable(name: Name, ext: Ext): Table {
    NewTable(ZERO_ENTRY)[1 := LiveEntry(name, ext, 3, 1)]
  }

  lemma FakeSearch(name: Name, ext: Ext)
    requires name != NO_NAME
    ensures First(FakeTable(name, ext), ByPair(name, ext), 0) == 1
    ensures First(FakeTable(name, ext), ByLivePair(name, ext), 1) == 1
  {
    var t := FakeTable(name, ext);
    assert t[0] == ZERO_ENTRY && t[1] == LiveEntry(name, ext, 3, 1);
  }

  lemma ClusterIsTable(img: Image, t: Table)
    requires Gather(img, [3]) == Pad(EncodeTable(t))
    ensures TableOf(img, 3) == t
  {
    assert Gather(img, [3]) == GatherTo(img, [3], 0) + img[3] == img[3];
    assert Pad(EncodeTable(t)) == EncodeTable(t);
    EntriesRoundTrip(t);
  }

  /** `cd` into a file whose bytes are a table, then `rm` of a name in that table: the target is as
      safe as in a directory, the answer is 0, and the file's own cluster is freed. */
  lemma RemoveInsideFileBreaks(d: Image, r: Request, name: Name, ext: Ext)
    requires Fresh(d) && IsNew(r) && r.size == 2048 && r.ext == NO_EXT && !DotDot(r.name) && name != NO_NAME
    ensures WriteReady(d, r)
    ensures var img := WriteOutcome(d, r, EncodeTable(FakeTable(name, ext))).img;
            && Cd(Shell(img, ROOT, [ROOT]), r.name) == (Shell(img, 3, [ROOT, 3]), true)
            && Match(img, 3, name, ext) < 64 && SafeTarget(img, RmRequest(img, 3, name, ext))
            && RmReady(img, 3, name, ext) && Rm(img, 3, name, ext).code == 0
            && !Sound(MetaOf(Rm(img, 3, name, ext).img))
  {
    var t := FakeTable(name, ext);
    var img, lay := FirstFile(d, r, EncodeTable(t));
    FirstIsEntered(img, LiveEntry(r.name, NO_EXT, 3, 2048));
    ClusterIsTable(img, t);
    RemoveStray(img, lay, name, ext);
  }

  /** `cd` goes to whatever the first entry names. */
  lemma FirstIsEntered(img: Image, e: Entry)
    requires TableOf(img, ROOT) == RootWith(e) && e == LiveEntry(e.name, NO_EXT, 3, e.size)
    requires e.name != ROOT_NAME && !DotDot(e.name)
    ensures Cd(Shell(img, ROOT, [ROOT]), e.name) == (Shell(img, 3, [ROOT, 3]), true)
  {
    FirstEntryFound(e);
    assert [ROOT] + [3] == [ROOT, 3];
  }

  lemma RemoveStray(img: Image, lay: Layout, name: Name, ext: Ext)
    requires Valid(MetaOf(img), lay) && lay.Dirs() == {ROOT} && FatOf(img)[3] == END_OF_FILE
    requires TableOf(img, 3) == FakeTable(name, ext) && name != NO_NAME
    ensures Match(img, 3, name, ext) < 64 && SafeTarget(img, RmRequest(img, 3, name, ext))
    ensures RmReady(img, 3, name, ext) && Rm(img, 3, name, ext).code == 0
    ensures !Sound(MetaOf(Rm(img, 3, name, ext).img))
  {
    FakeSearch(name, ext);
    var q := RmRequest(img, 3, name, ext);
    assert q == Request(name, ext, 3, 1);
    DeleteReadyIff(img, lay, q);
    RefusedIff(img, q);
    DeleteIsSoundIff(img, lay, q);
  }

  // ---- mv --------------------------------------------------------------------------------------

  /** `mkdir a`, `mv a /a`. */
  lemma MoveIntoItselfBreaks(d: Image, r: Request)
    requires Fresh(d) && IsNew(r) && r.size == 0
    ensures WriteReady(d, r)
    ensures var img := WriteOutcome(d, r, []).img;
            MoveIntoReady(img, ROOT, r.name) && !Sound(MetaOf(MoveInto(img, ROOT, r.name, NO_EXT, r.name)))
  {
    var img, lay := FirstDirectory(d, r);
    FirstEntryFound(LiveEntry(r.name, NO_EXT, 3, 0));
    MoveIntoIsSoundIff(img, lay, ROOT, r.name, NO_EXT, r.name);
  }

  /** `mkdir a`, `mv a ROOT`. */
  lemma RenameToRootBreaks(d: Image, r: Request)
    requires Fresh(d) && IsNew(r) && r.size == 0
    ensures WriteReady(d, r)
    ensures var img := WriteOutcome(d, r, []).img;
            && RenameReady(img, ROOT, r.name, NO_EXT)
            && !Sound(MetaOf(Rename(img, ROOT, r.name, NO_EXT, ROOT_NAME, NO_EXT)))
  {
    var img, lay := FirstDirectory(d, r);
    var e := LiveEntry(r.name, NO_EXT, 3, 0);
    RootStays(e);
    RenameIsSoundIff(img, lay, ROOT, r.name, NO_EXT, ROOT_NAME, NO_EXT);
  }

  lemma RootStays(e: Entry)
    ensures !FreshName(RootWith(e)[1 := ZERO_ENTRY], LiveEntry(ROOT_NAME, NO_EXT, 3, 0))
  {
    assert SameName(RootWith(e)[1 := ZERO_ENTRY][0], LiveEntry(ROOT_NAME, NO_EXT, 3, 0));
  }

  lemma FreshShell(d: Image) returns (s: Shell)
    requires Fresh(d)
    ensures s == Shell(d, ROOT, [ROOT]) && ShellOk(s, EMPTY) && CdReady(s) && Parent(s) == ROOT
  {
    s := Shell(d, ROOT, [ROOT]);
  }

  /** `mv x /..` in a root that does not hold `x`, and the same for the empty name. */
  lemma MoveUpBreaks(d: Image, name: Name, ext: Ext, junk: u16)
    requires Fresh(d) && name != ROOT_NAME
    ensures var s := Shell(d, ROOT, [ROOT]);
            if name == NO_NAME && ext == NO_EXT
            then MoveSlot(d, ROOT, name, ext) < 64 && CdReady(s) && MoveUpReady(s, name, ext)
                 && !Sound(MetaOf(MoveUp(s, name, ext).img))
            else MissingReady(s) && !Sound(MetaOf(MoveUpMissing(s, name, ext, junk).img))
  {
    var s := FreshShell(d);
    NewTableSearch(RootEntry(), ByPair(name, ext));
    if name == NO_NAME && ext == NO_EXT {
      NothingLifted(s);
      MoveUpIsSoundIff(s, EMPTY, name, ext);
    } else {
      MoveMissingIsSoundIff(s, EMPTY, name, ext, junk);
    }
  }

  lemma NothingLifted(s: Shell)
    requires Fresh(s.img) && s == Shell(s.img, ROOT, [ROOT])
    ensures MoveSlot(s.img, ROOT, NO_NAME, NO_EXT) == 1 && UpTo(s, NO_NAME, NO_EXT).slot == 1
  {
    NewTableSearch(RootEntry(), ByPair(NO_NAME, NO_EXT));
    ClearedNothing(s.img, Loc(ROOT, 1));
  }

  /** Renaming a file of one zero byte changes what it reads. */
  lemma RenameChangesContent(d: Image, r: Request, newName: Name, newExt: Ext)
    requires Fresh(d) && IsNew(r) && r.size == 1 && newName != NO_NAME && newName != ROOT_NAME
    ensures WriteReady(d, r)
    ensures var img := WriteOutcome(d, r, [0]).img;
            && RenameReady(img, ROOT, r.name, r.ext)
            && ReadReply(Rename(img, ROOT, r.name, r.ext, newName, newExt), Request(newName, newExt, ROOT, 1))
               != ReadReply(img, r)
  {
    var img, lay := FirstFile(d, r, [0]);
    OldHeadIsZero(newName, newExt);
    FirstFileRenames(img, lay, r, newName, newExt);
    RenameKeepsContentIff(img, lay, ROOT, r.name, r.ext, newName, newExt, 1);
  }

  lemma OldHeadIsZero(newName: Name, newExt: Ext)
    requires newName != NO_NAME
    ensures Pad([0])[..11] != newName + newExt
  {
    assert Pad([0])[..11][..8] == NO_NAME && (newName + newExt)[..8] == newName;
  }

  lemma FirstFileRenames(img: Image, lay: Layout, r: Request, newName: Name, newExt: Ext)
    requires Valid(MetaOf(img), lay) && IsNew(r) && newName != NO_NAME && newName != ROOT_NAME
    requires r.size == 1 && TableOf(img, ROOT) == RootWith(LiveEntry(r.name, r.ext, 3, 1))
    ensures Match(img, ROOT, r.name, r.ext) == 1 && SafeRename(img, ROOT, r.name, r.ext, newName, newExt)
  {
  }

  // ---- cd --------------------------------------------------------------------------------------

  /** `cd` into a file without extension: no layout makes the stack a path any more. */
  lemma CdIntoFileBreaks(d: Image, r: Request, lay': Layout)
    requires Fresh(d) && IsNew(r) && r.size == 1 && r.ext == NO_EXT && !DotDot(r.name)
    ensures WriteReady(d, r)
    ensures var s := Shell(WriteOutcome(d, r, [0]).img, ROOT, [ROOT]);
            CdReady(s) && Cd(s, r.name).1 && !ShellOk(Cd(s, r.name).0, lay')
  {
    var img, lay := FirstFile(d, r, [0]);
    var s := Shell(img, ROOT, [ROOT]);
    assert ShellOk(s, lay);
    FirstEntryFound(LiveEntry(r.name, NO_EXT, 3, 1));
    CdKeepsShellIff(s, lay, r.name);
    CdKeepsImage(s, r.name);
    if ShellOk(Cd(s, r.name).0, lay') {
      LayoutUnique(MetaOf(img), lay, lay');
    }
  }

  /** `mkdir ..x` makes a directory that `cd ..x` does not enter. Inside it, going up and back by its
      own name goes astray, and so does the path on the prompt. */
  lemma DottedDirectory(d: Image, r: Request)
    requires Fresh(d) && IsNew(r) && r.size == 0 && DotDot(r.name)
    ensures WriteReady(d, r)
    ensures var img := WriteOutcome(d, r, []).img;
            var root, s := Shell(img, ROOT, [ROOT]), Shell(img, 3, [ROOT, 3]);
            && CdReady(root) && CdSlot(root, r.name) < 64 && Cd(root, r.name) == (root, false)
            && (exists lay :: ShellOk(s, lay))
            && CdReady(s) && CdReady(Up(s)) && Cd(Up(s), r.name).0 != s
            && !(MultiCdReady(root, PathNames(img, s.stack)) && MultiCd(root, PathNames(img, s.stack)) == s)
  {
    var img, lay := FirstDirectory(d, r);
    var s := Shell(img, 3, [ROOT, 3]);
    FirstEntryFound(LiveEntry(r.name, NO_EXT, 3, 0));
    assert StepAt(lay.home, AsPath(s.stack), 1);
    assert ShellOk(s, lay);
    UpAndOwnNameReturnsIff(s, lay);
    PromptLeadsBackIff(s, lay);
    assert s.stack[1] == 3;
  }

  lemma FreshAgain(d: Image, d': Image)
    requires Fresh(d) && SameBut(d, d', [3])
    ensures Fresh(d')
  {
    assert d'[1] == d[1] && d'[ROOT] == d[ROOT];
    TakenFrame(MetaOf(d), MetaOf(d'), EMPTY);
  }

  /** The shell does get into such a directory: `mkdir a`, `cd a`, and while it is there another caller
      of the driver deletes `a` and makes `..x`, which takes the cluster over. */
  lemma DottedIsReached(d: Image, a: Request, x: Request)
    requires Fresh(d) && IsNew(a) && a.size == 0 && !DotDot(a.name)
    requires IsNew(x) && x.size == 0 && DotDot(x.name)
    ensures WriteReady(d, a)
    ensures var img1 := WriteOutcome(d, a, []).img;
            && Cd(Shell(img1, ROOT, [ROOT]), a.name) == (Shell(img1, 3, [ROOT, 3]), true)
            && DeleteReady(img1, a) && DeleteOutcome(img1, a).code == 0
            && var img2 := DeleteOutcome(img1, a).img;
               && Fresh(img2) && WriteReady(img2, x)
               && TableOf(WriteOutcome(img2, x, []).img, 3)[0] == LiveEntry(x.name, NO_EXT, 3, 0)
  {
    var img1, lay := FirstDirectory(d, a);
    FirstIsEntered(img1, LiveEntry(a.name, NO_EXT, 3, 0));
    DeleteUndoesWriteDirectory(d, EMPTY, a);
    FreshRoom(d);
    FreshAgain(d, DeleteOutcome(img1, a).img);
    var img3, lay3 := FirstDirectory(DeleteOutcome(img1, a).img, x);
  }

  // ---- A cluster number that does not fit the stack ---------------------------------------------

  lemma {:induction false} AllFree(fat: Fat, i: nat)
    requires 3 <= i <= 512 && CleanCache(fat)
    ensures |FreeFrom(fat, i)| == 512 - i && forall k :: 0 <= k < 512 - i ==> FreeFrom(fat, i)[k] == i + k
    decreases |fat| - i
  {
    if i < 512 {
      AllFree(fat, i + 1);
    }
  }

  const FAR := 253

  /** The clusters a file of 253 gets, and what is left. */
  lemma LargeChain(fat: Fat)
    requires FatHeader(fat) && CleanCache(fat)
    ensures |Free(fat)| == 509 && Lowest(fat, FAR)[0] == 3
    ensures var left := Free(Link(fat, Lowest(fat, FAR), FAR)); |left| == 256 && left[0] == 256
  {
    ScanSkips(fat, 0, 3);
    AllFree(fat, 3);
    RescanFindsNext(fat, FAR, FAR);
  }

  /** A file of 253 clusters takes all that a byte can name. */
  lemma LargeFile(d: Image, r: Request, data: seq<byte>) returns (img: Image, lay: Layout)
    requires Fresh(d) && NewName(r) && r.size == |data| == 2048 * FAR
    ensures WriteReady(d, r) && WriteOutcome(d, r, data) == Outcome(0, img)
    ensures Valid(MetaOf(img), lay) && lay.Dirs() == {ROOT}
    ensures TableOf(img, ROOT) == RootWith(LiveEntry(r.name, r.ext, 3, r.size))
    ensures |Free(FatOf(img))| == 256 && Free(FatOf(img))[0] == 256
  {
    assert ClusterCount(r.size) == FAR;
    FreshTakes(d, r);
    img, lay := PublishedFirst(d, r, data);
    LargeMap(d, r, data);
  }

  lemma LargeMap(d: Image, r: Request, data: seq<byte>)
    requires Fresh(d) && WriteReady(d, r) && Accepted(d, r) && r.parent == ROOT
    requires r.size == |data| > 0 && ClusterCount(r.size) == FAR
    ensures |Free(FatOf(d))| == 509 && FileChain(d, r)[0] == 3
    ensures var left := Free(FatOf(WriteFile(d, r, data))); |left| == 256 && left[0] == 256
  {
    LargeChain(FatOf(d));
    FileMap(d, EMPTY, r, data);
  }

  lemma PublishedFirst(d: Image, r: Request, data: seq<byte>) returns (img: Image, lay: Layout)
    requires Fresh(d) && WriteReady(d, r) && Accepted(d, r) && FileLoc(d, r) == Loc(ROOT, 1) && r.size == |data| > 0
    ensures img == WriteFile(d, r, data) && Valid(MetaOf(img), lay) && lay.Dirs() == {ROOT}
    ensures |FileChain(d, r)| > 0 && lay == AddEntry(EMPTY, Loc(ROOT, 1), FileChain(d, r), false)
    ensures TableOf(img, ROOT) == RootWith(LiveEntry(r.name, r.ext, FileChain(d, r)[0], r.size))
  {
    var ch := FileChain(d, r);
    FileKeepsValid(d, EMPTY, r, data);
    FileIsPublished(d, EMPTY, r, data);
    PutTableMeta(BeforePublish(d, r, data), ROOT, RootWith(LiveEntry(r.name, r.ext, ch[0], r.size)));
    img, lay := WriteFile(d, r, data), AddEntry(EMPTY, Loc(ROOT, 1), ch, false);
  }

  lemma SecondDirectory(img: Image, lay: Layout, e: Entry, a: Request) returns (img': Image, lay': Layout, far: Entry)
    requires Valid(MetaOf(img), lay) && lay.Dirs() == {ROOT} && TableOf(img, ROOT) == RootWith(e) && Live(e)
    requires |Free(FatOf(img))| > 0 && IsNew(a) && a.size == 0 && a.name != e.name
    ensures WriteReady(img, a) && WriteOutcome(img, a, []) == Outcome(0, img') && Valid(MetaOf(img'), lay')
    ensures ROOT in lay'.Dirs() && far == LiveEntry(a.name, NO_EXT, Free(FatOf(img))[0], 0)
    ensures TableOf(img', ROOT) == RootWith(e)[2 := far]
  {
    SecondSearch(e, a.name);
    far := DirEntry(img, a);
    DirectoryKeepsValid(img, lay, a);
    PutTableMeta(NewDirectory(img, far), ROOT, RootWith(e)[2 := far]);
    img', lay' := WriteDirectory(img, a), AddEntry(lay, FileLoc(img, a), DirChain(img, a), true);
  }

  lemma SecondSearch(e: Entry, name: Name)
    requires Live(e) && name != ROOT_NAME && name != NO_NAME && name != e.name
    ensures First(RootWith(e), FreeSlot, 0) == 2 && First(RootWith(e), ByName(name), 0) == 64
  {
    assert RootWith(e)[1] == e && RootWith(e)[2] == ZERO_ENTRY;
  }

  lemma SecondFound(e: Entry, far: Entry)
    requires far.name != e.name && Live(far)
    ensures First(RootWith(e)[2 := far], ByLivePair(far.name, far.ext), 1) == 2
  {
    assert RootWith(e)[2 := far][1] == e && RootWith(e)[2 := far][2] == far;
  }

  /** `cd` into a directory with a cluster number of 256: the stack keeps 0, and no layout makes it a
      path any more. */
  lemma CdFarBreaks(d: Image, r: Request, data: seq<byte>, a: Request, lay': Layout)
    requires Fresh(d) && NewName(r) && r.size == |data| == 2048 * FAR
    requires IsNew(a) && a.size == 0 && a.name != r.name && !DotDot(a.name)
    ensures WriteReady(d, r) && WriteReady(WriteOutcome(d, r, data).img, a)
    ensures var img := WriteOutcome(WriteOutcome(d, r, data).img, a, []).img;
            var s := Shell(img, ROOT, [ROOT]);
            && CdReady(s) && Cd(s, a.name) == (Shell(img, 256, [ROOT, 0]), true)
            && !ShellOk(Cd(s, a.name).0, lay')
  {
    var img1, lay1 := LargeFile(d, r, data);
    var e := LiveEntry(r.name, r.ext, 3, r.size);
    var img, lay, far := SecondDirectory(img1, lay1, e, a);
    FarIsEntered(img, lay, e, far, lay');
  }

  lemma FarIsEntered(img: Image, lay: Layout, e: Entry, far: Entry, lay': Layout)
    requires Valid(MetaOf(img), lay) && TableOf(img, ROOT) == RootWith(e)[2 := far]
    requires far == LiveEntry(far.name, NO_EXT, 256, 0) && far.name != e.name && !DotDot(far.name)
    ensures var s := Shell(img, ROOT, [ROOT]);
            && CdReady(s) && Cd(s, far.name) == (Shell(img, 256, [ROOT, 0]), true)
            && !ShellOk(Cd(s, far.name).0, lay')
  {
    var s := Shell(img, ROOT, [ROOT]);
    assert ShellOk(s, lay);
    SecondFound(e, far);
    CdKeepsShellIff(s, lay, far.name);
    assert [ROOT] + [0] == [ROOT, 0];
    if ShellOk(Cd(s, far.name).0, lay') {
      LayoutUnique(MetaOf(img), lay, lay');
    }
  }
}
