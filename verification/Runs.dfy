/** Whole runs: from a freshly formatted disk, any sequence of commands that respect their guards
    keeps the disk valid, the stack a real path and the signature in place. */
module Runs {
  import opened Format
  import opened Volume
  import opened Edits
  import opened Tree
  import opened Allocation
  import opened Storage
  import opened Crash
  import opened DriverSpec
  import opened Reading
  import opened WriteProofs
  import opened DeleteProofs
  import opened ShellSpec
  import opened MoveProofs
  import opened CwdProofs
  import opened CommandProofs
  import opened RenameProofs
  import opened Limits
  import opened Mounting
  import P = Paths
  import D = DirectoryStacks

  datatype Command =
    | Change(name: Name)
    | Put(request: Request, data: seq<byte>)
    | Erase(request: Request)
    | Copy(name: Name, ext: Ext, newName: Name, newExt: Ext)
    | Remove(name: Name, ext: Ext)
    | MoveDown(name: Name, ext: Ext, target: Name)
    | MoveUpward(name: Name, ext: Ext)
    | NewName(name: Name, ext: Ext, newName: Name, newExt: Ext)

  // ---- Guards: what the caller of a command must see to, all of it checkable beforehand -----

  /** Some layout makes `d` a directory of the valid disk. */
  ghost predicate IsDirectory(img: Image, d: nat) {
    exists lay :: Consistent(MetaOf(img), lay) && d in lay.Dirs()
  }

  predicate ChangeGuard(s: Shell, name: Name)
    requires s.cur < 512
  {
    DotDot(name) || CdSlot(s, name) == 64 || SafeCd(s, name)
  }

  predicate PutGuard(img: Image, r: Request, data: seq<byte>) {
    WriteReady(img, r) && |data| == r.size
  }

  /** A delete is refused, or its target is safe and no directory the shell is in. */
  predicate EraseGuard(s: Shell, r: Request) {
    && r.parent < 512
    && (Refused(s.img, r)
        || (SafeTarget(s.img, r) && HeadOf(TableOf(s.img, r.parent)[Target(s.img, r)]) !in s.stack))
  }

  predicate CopyGuard(s: Shell, name: Name, ext: Ext, newName: Name, newExt: Ext)
    requires s.cur < 512
  {
    Match(s.img, s.cur, name, ext) < 64 ==>
      && WriteReady(s.img, CpRequest(s.img, s.cur, name, ext, newName, newExt))
      && TableOf(s.img, s.cur)[Match(s.img, s.cur, name, ext)].size <= 8192
  }

  predicate RemoveGuard(s: Shell, name: Name, ext: Ext)
    requires s.cur < 512
  {
    Match(s.img, s.cur, name, ext) < 64 ==> EraseGuard(s, RmRequest(s.img, s.cur, name, ext))
  }

  ghost predicate MoveDownGuard(s: Shell, name: Name, ext: Ext, target: Name) {
    && MoveIntoReady(s.img, s.cur, target)
    && (MoveSlot(s.img, s.cur, name, ext) == 64 || TargetSlot(s.img, s.cur, target) == 64
        || SafeMove(s.img, s.cur, name, ext, target))
  }

  ghost predicate NewNameGuard(s: Shell, name: Name, ext: Ext, newName: Name, newExt: Ext)
    requires s.cur < 512
  {
    Match(s.img, s.cur, name, ext) == 64 || SafeRename(s.img, s.cur, name, ext, newName, newExt)
  }

  ghost predicate Guard(s: Shell, c: Command) {
    CdReady(s) &&
    match c
    case Change(name) => ChangeGuard(s, name)
    case Put(r, data) => IsDirectory(s.img, r.parent) && PutGuard(s.img, r, data)
    case Erase(r) => IsDirectory(s.img, r.parent) && EraseGuard(s, r)
    case Copy(name, ext, newName, newExt) => CopyGuard(s, name, ext, newName, newExt)
    case Remove(name, ext) => RemoveGuard(s, name, ext)
    case MoveDown(name, ext, target) => MoveDownGuard(s, name, ext, target)
    case MoveUpward(name, ext) => SafeMoveUp(s, name, ext)
    case NewName(name, ext, newName, newExt) => NewNameGuard(s, name, ext, newName, newExt)
  }

  // ---- Steps ---------------------------------------------------------------------------------

  /** What the code itself needs of a command: searches that stop and indices in range. */
  ghost predicate Ready(s: Shell, c: Command) {
    CdReady(s) &&
    match c
    case Change(name) => true
    case Put(r, data) => WriteReady(s.img, r) && |data| == r.size
    case Erase(r) => DeleteReady(s.img, r)
    case Copy(name, ext, newName, newExt) =>
      && CpReady(s.img, s.cur, name, ext, newName, newExt)
      && (Match(s.img, s.cur, name, ext) < 64 ==> CpFits(s.img, s.cur, name, ext))
    case Remove(name, ext) => RmReady(s.img, s.cur, name, ext)
    case MoveDown(name, ext, target) => TargetsReadable(TableOf(s.img, s.cur), target)
    case MoveUpward(name, ext) => MoveSlot(s.img, s.cur, name, ext) < 64 && MoveUpReady(s, name, ext)
    case NewName(name, ext, newName, newExt) => RenameReady(s.img, s.cur, name, ext)
  }

  /** The shell after a command, as the specification of its method says. */
  ghost function Next(s: Shell, c: Command): Shell
    requires Ready(s, c)
  {
    match c
    case Change(name) => Cd(s, name).0
    case Put(r, data) => s.(img := WriteOutcome(s.img, r, data).img)
    case Erase(r) => s.(img := DeleteOutcome(s.img, r).img)
    case Copy(name, ext, newName, newExt) => s.(img := Cp(s.img, s.cur, name, ext, newName, newExt).img)
    case Remove(name, ext) => s.(img := Rm(s.img, s.cur, name, ext).img)
    case MoveDown(name, ext, target) =>
      s.(img := MoveScan(s.img, s.cur, TableOf(s.img, s.cur), 1, name, ext, target))
    case MoveUpward(name, ext) => MoveUp(s, name, ext)
    case NewName(name, ext, newName, newExt) => s.(img := Rename(s.img, s.cur, name, ext, newName, newExt))
  }

  /** No directory on the stack is called what `cd` takes for a way up. */
  predicate Undotted(s: Shell) {
    forall d :: d in s.stack ==> !DotDot(TableOf(s.img, d)[0].name)
  }

  ghost predicate Ok(s: Shell) {
    Undotted(s) && exists lay :: ShellOk(s, lay)
  }

  /** The boot cluster and the names of the directories on the path are as they were. */
  predicate Quiet(img: Image, img': Image, p: seq<byte>) {
    img'[0] == img[0] && forall d :: d in p ==> TableOf(img', d)[0].name == TableOf(img, d)[0].name
  }

  /** No cell of the second disk is leaked that was not on the first. */
  ghost predicate NoNewLeak(img: Image, img': Image) {
    exists lay, lay' :: Consistent(MetaOf(img), lay) && Carries(MetaOf(img), lay, MetaOf(img'), lay')
  }

  /** A disk that still has the shell's path on it, quietly reached. */
  ghost predicate Keeps(s: Shell, img: Image) {
    Quiet(s.img, img, s.stack) && NoNewLeak(s.img, img) && exists lay :: ShellOk(s.(img := img), lay)
  }

  lemma Kept(s: Shell, lay: Layout, img: Image, lay': Layout)
    requires ShellOk(s, lay) && Carries(MetaOf(s.img), lay, MetaOf(img), lay')
    requires IsPath(lay'.home, AsPath(s.stack)) && Quiet(s.img, img, s.stack)
    ensures Keeps(s, img)
  {
    assert NoNewLeak(s.img, img);
    assert ShellOk(s.(img := img), lay');
  }

  lemma KeepsOk(s: Shell, img: Image)
    requires Undotted(s) && Keeps(s, img)
    ensures Ok(s.(img := img)) && img[0] == s.img[0] && NoNewLeak(s.img, img)
    ensures forall names :: EnteredBy(s, names) ==> EnteredBy(s.(img := img), names)
  {
    var lay :| ShellOk(s.(img := img), lay);
    forall names | EnteredBy(s, names)
      ensures EnteredBy(s.(img := img), names)
    {
      forall i | 0 < i < |names|
        ensures names[i] == TableOf(img, s.stack[i])[0].name
      {
        assert s.stack[i] in s.stack;
      }
    }
  }

  lemma StaysOk(s: Shell, lay: Layout)
    requires ShellOk(s, lay)
    ensures Keeps(s, s.img)
  {
    assert LeaksNoMore(MetaOf(s.img), lay, MetaOf(s.img), lay);
    Kept(s, lay, s.img, lay);
  }

  lemma NoLeakSound(img: Image, img': Image)
    requires NoNewLeak(img, img') && Sound(MetaOf(img))
    ensures Sound(MetaOf(img'))
  {
    var lay0 :| Valid(MetaOf(img), lay0);
    var lay, lay' :| Consistent(MetaOf(img), lay) && Carries(MetaOf(img), lay, MetaOf(img'), lay');
    LayoutUnique(MetaOf(img), lay0, lay);
    CarriesSound(MetaOf(img), lay, MetaOf(img'), lay');
  }

  lemma NoLeakAcross(img: Image, img1: Image, img2: Image)
    requires NoNewLeak(img, img1) && NoNewLeak(img1, img2)
    ensures NoNewLeak(img, img2)
  {
    var lay, lay1 :| Consistent(MetaOf(img), lay) && Carries(MetaOf(img), lay, MetaOf(img1), lay1);
    var lay1', lay2 :| Consistent(MetaOf(img1), lay1') && Carries(MetaOf(img1), lay1', MetaOf(img2), lay2);
    LayoutUnique(MetaOf(img1), lay1, lay1');
    LeaksAcross(MetaOf(img), lay, MetaOf(img1), lay1, MetaOf(img2), lay2);
    assert Carries(MetaOf(img), lay, MetaOf(img2), lay2);
  }

  lemma LeaksAcross(m: Meta, lay: Layout, m1: Meta, lay1: Layout, m2: Meta, lay2: Layout)
    requires LeaksNoMore(m, lay, m1, lay1) && LeaksNoMore(m1, lay1, m2, lay2)
    ensures LeaksNoMore(m, lay, m2, lay2)
  {
  }

  // ---- The names entered ---------------------------------------------------------------------

  /** Above the root, each directory was entered by the name it has. */
  predicate EnteredBy(s: Shell, names: seq<seq<byte>>) {
    |names| == |s.stack| && forall i :: 0 < i < |names| ==> names[i] == TableOf(s.img, s.stack[i])[0].name
  }

  /** The names after a command: `cd` and `mv name /..` push and pop them. */
  ghost function NextNames(s: Shell, c: Command, names: seq<seq<byte>>): (r: seq<seq<byte>>)
    requires Ready(s, c) && |names| == |s.stack|
    ensures |r| == |Next(s, c).stack|
  {
    match c
    case Change(name) => CdNames(s, name, names)
    case MoveUpward(name, ext) => UpNames(s, name, ext, 0, names)
    case _ => names
  }

  lemma OnPath(s: Shell, lay: Layout, d: nat)
    requires ShellOk(s, lay) && d in s.stack
    ensures d in lay.Dirs() && 2 <= d < 256
  {
    var i :| 0 <= i < |s.stack| && s.stack[i] == d;
    PathEndsInDirs(MetaOf(s.img), lay, AsPath(s.stack), i);
  }

  // ---- write and cp --------------------------------------------------------------------------

  lemma IsDirectoryIn(img: Image, lay: Layout, d: nat)
    requires Consistent(MetaOf(img), lay) && IsDirectory(img, d)
    ensures d in lay.Dirs()
  {
    var lay' :| Consistent(MetaOf(img), lay') && d in lay'.Dirs();
    LayoutUnique(MetaOf(img), lay, lay');
  }

  lemma WriteKeepsHomes(img: Image, lay: Layout, r: Request, p: seq<nat>)
    requires Consistent(MetaOf(img), lay) && WriteReady(img, r) && IsPath(lay.home, p)
    ensures IsPath(WriteLayout(img, lay, r).home, p)
  {
    if Accepted(img, r) && r.size == 0 {
      var x := Free(FatOf(img))[0];
      ScanStops(FatOf(img), 0, x);
      if x in lay.home {
        DirsAreTaken(MetaOf(img), lay, x);
      }
      PathFrame(lay.home, lay.home[x := FileLoc(img, r)], p);
    }
  }

  lemma PublishedQuiet(s: Shell, lay: Layout, img1: Image, l: Loc, e: Entry)
    requires ShellOk(s, lay) && OnlyFreeTouched(s.img, img1) && 2 <= l.dir < 512 && l.slot < 64
    requires AddsSlot(MetaOf(s.img), MetaOf(Published(s.img, img1, l, e)), lay, l, e)
    ensures Quiet(s.img, Published(s.img, img1, l, e), s.stack)
  {
    forall d | d in s.stack
      ensures TableOf(Published(s.img, img1, l, e), d)[0].name == TableOf(s.img, d)[0].name
    {
      OnPath(s, lay, d);
      PublishedTables(s.img, img1, lay, l, e, d, 0);
    }
  }

  lemma WriteQuiet(s: Shell, lay: Layout, r: Request, data: seq<byte>)
    requires ShellOk(s, lay) && r.parent in lay.Dirs() && WriteReady(s.img, r) && |data| == r.size
    ensures Quiet(s.img, WriteOutcome(s.img, r, data).img, s.stack)
  {
    DirsAreTaken(MetaOf(s.img), lay, r.parent);
    if Accepted(s.img, r) {
      var l := FileLoc(s.img, r);
      if r.size == 0 {
        var e := DirEntry(s.img, r);
        DirectoryKeepsValid(s.img, lay, r);
        PublishedQuiet(s, lay, NewDirectory(s.img, e), l, e);
      } else {
        FileKeepsValid(s.img, lay, r, data);
        FileIsPublished(s.img, lay, r, data);
        PublishedQuiet(s, lay, BeforePublish(s.img, r, data), l,
                       LiveEntry(r.name, r.ext, FileChain(s.img, r)[0], r.size));
      }
    }
  }

  lemma PutKeeps(s: Shell, lay: Layout, r: Request, data: seq<byte>)
    requires ShellOk(s, lay) && r.parent in lay.Dirs() && PutGuard(s.img, r, data)
    ensures Keeps(s, WriteOutcome(s.img, r, data).img)
  {
    WriteKeepsValid(s.img, lay, r, data);
    WriteKeepsHomes(s.img, lay, r, AsPath(s.stack));
    WriteQuiet(s, lay, r, data);
    Kept(s, lay, WriteOutcome(s.img, r, data).img, WriteLayout(s.img, lay, r));
  }

  /** What `cp` reads fits its buffer when the size does. */
  lemma CopyIsReady(s: Shell, lay: Layout, name: Name, ext: Ext, newName: Name, newExt: Ext)
    requires ShellOk(s, lay) && s.cur < 512 && CopyGuard(s, name, ext, newName, newExt)
    ensures CpReady(s.img, s.cur, name, ext, newName, newExt)
    ensures Match(s.img, s.cur, name, ext) < 64 ==> CpFits(s.img, s.cur, name, ext)
  {
    ShellDir(s, lay);
    if Match(s.img, s.cur, name, ext) < 64 {
      CopyBuffer(s.img, lay, s.cur, name, ext);
    }
  }

  lemma CopyBuffer(img: Image, lay: Layout, cur: nat, name: Name, ext: Ext)
    requires Consistent(MetaOf(img), lay) && cur in lay.Dirs() && cur < 512 && Match(img, cur, name, ext) < 64
    ensures var size := TableOf(img, cur)[Match(img, cur, name, ext)].size;
            && |CpData(img, cur, name, ext)| == size
            && (size <= 8192 ==> CpFits(img, cur, name, ext))
  {
    var size := TableOf(img, cur)[Match(img, cur, name, ext)].size;
    ReadIsReady(img, lay, Request(name, ext, cur, size));
    if size > 0 {
      CpReads(img, lay, cur, name, ext, size);
    } else {
      CopyOfNothing(img, lay, cur, name, ext);
    }
  }

  lemma CopyOfNothing(img: Image, lay: Layout, cur: nat, name: Name, ext: Ext)
    requires Consistent(MetaOf(img), lay) && cur in lay.Dirs() && cur < 512 && Match(img, cur, name, ext) < 64
    requires TableOf(img, cur)[Match(img, cur, name, ext)].size == 0
    ensures ReadReply(img, Request(name, ext, cur, 0)).bytes == []
  {
    var l := Loc(cur, Match(img, cur, name, ext));
    LiveEntryFacts(img, lay, l);
    EmptyReply(img, TableOf(img, cur)[l.slot], 0);
  }

  lemma CopyKeeps(s: Shell, lay: Layout, name: Name, ext: Ext, newName: Name, newExt: Ext)
    requires ShellOk(s, lay) && s.cur < 512 && CopyGuard(s, name, ext, newName, newExt)
    ensures CpReady(s.img, s.cur, name, ext, newName, newExt)
    ensures Keeps(s, Cp(s.img, s.cur, name, ext, newName, newExt).img)
  {
    ShellDir(s, lay);
    CopyIsReady(s, lay, name, ext, newName, newExt);
    if Match(s.img, s.cur, name, ext) == 64 {
      StaysOk(s, lay);
    } else {
      PutKeeps(s, lay, CpRequest(s.img, s.cur, name, ext, newName, newExt), CpData(s.img, s.cur, name, ext));
    }
  }

  // ---- delete and rm ---------------------------------------------------------------------------

  /** No directory named in the current one is on the stack. */
  lemma ChildIsOffStack(s: Shell, lay: Layout, l: Loc)
    requires ShellOk(s, lay) && l in lay.chains && l.dir == s.cur < 512 && l.slot < 64
    requires TableOf(s.img, s.cur)[l.slot].size == 0
    ensures |lay.chains[l]| > 0 && lay.chains[l][0] !in s.stack
  {
    LiveEntryFacts(s.img, lay, l);
    PathAvoidsChild(lay.home, AsPath(s.stack), lay.chains[l][0]);
  }

  lemma FreedQuiet(s: Shell, lay: Layout, l: Loc)
    requires ShellOk(s, lay) && l in lay.chains && 2 <= l.dir < 512 && 1 <= l.slot < 64
    requires IsChain(FatOf(s.img), lay.chains[l])
    ensures Quiet(s.img, Freed(s.img, lay, l), s.stack)
  {
    RemovedMeta(s.img, Unlink(FatOf(s.img), lay.chains[l], |lay.chains[l]|), l);
    forall d | d in s.stack
      ensures TableOf(Freed(s.img, lay, l), d)[0].name == TableOf(s.img, d)[0].name
    {
      OnPath(s, lay, d);
      FreedSlot(s.img, lay, l, d, 0);
    }
  }

  lemma DropKeepsPath(lay: Layout, l: Loc, isDir: bool, p: seq<nat>)
    requires IsPath(lay.home, p) && l in lay.chains && |lay.chains[l]| > 0
    requires isDir ==> lay.chains[l][0] !in p
    ensures IsPath(DropEntry(lay, l, isDir).home, p)
  {
    if isDir {
      PathFrame(lay.home, lay.home - {lay.chains[l][0]}, p);
    }
  }

  /** The disk without the entry at `l`, which names no directory on the stack. */
  lemma FreedKeeps(s: Shell, lay: Layout, l: Loc, isDir: bool, img': Image)
    requires ShellOk(s, lay) && l in lay.chains && |lay.chains[l]| > 0 && 2 <= l.dir < 512 && 1 <= l.slot < 64
    requires IsChain(FatOf(s.img), lay.chains[l]) && img' == Freed(s.img, lay, l)
    requires isDir ==> lay.chains[l][0] !in s.stack
    requires Carries(MetaOf(s.img), lay, MetaOf(img'), DropEntry(lay, l, isDir))
    ensures Keeps(s, img')
  {
    DropKeepsPath(lay, l, isDir, AsPath(s.stack));
    FreedQuiet(s, lay, l);
    Kept(s, lay, img', DropEntry(lay, l, isDir));
  }

  /** A refused delete, or one whose safe target names no directory on the stack. */
  lemma EraseKeeps(s: Shell, lay: Layout, r: Request)
    requires ShellOk(s, lay) && r.parent in lay.Dirs() && EraseGuard(s, r)
    ensures DeleteReady(s.img, r) && Keeps(s, DeleteOutcome(s.img, r).img)
  {
    DeleteReadyInDirectory(s.img, lay, r);
    RefusedIff(s.img, r);
    if Refused(s.img, r) {
      StaysOk(s, lay);
    } else {
      TargetChain(s.img, lay, r);
      SafeDelete(s.img, lay, r);
      SafeOutcome(s.img, lay, r);
      DirsAreTaken(MetaOf(s.img), lay, r.parent);
      var l := Loc(r.parent, Target(s.img, r));
      FreedKeeps(s, lay, l, TableOf(s.img, l.dir)[l.slot].size == 0, DeleteOutcome(s.img, r).img);
    }
  }

  lemma RemoveKeeps(s: Shell, lay: Layout, name: Name, ext: Ext)
    requires ShellOk(s, lay) && s.cur < 512 && RemoveGuard(s, name, ext)
    ensures RmReady(s.img, s.cur, name, ext) && Keeps(s, Rm(s.img, s.cur, name, ext).img)
  {
    ShellDir(s, lay);
    if Match(s.img, s.cur, name, ext) == 64 {
      StaysOk(s, lay);
    } else {
      EraseKeeps(s, lay, RmRequest(s.img, s.cur, name, ext));
    }
  }

  // ---- mv ------------------------------------------------------------------------------------

  lemma RelocationQuiet(s: Shell, lay: Layout, l: Loc, k: Loc, e: Entry)
    requires ShellOk(s, lay) && 2 <= l.dir < 512 && 1 <= l.slot < 64 && 2 <= k.dir < 512 && 1 <= k.slot < 64
    ensures Quiet(s.img, Relocated(s.img, l, k, e), s.stack)
  {
    RelocatedMeta(s.img, l, k, e);
    forall d | d in s.stack
      ensures TableOf(Relocated(s.img, l, k, e), d)[0].name == TableOf(s.img, d)[0].name
    {
      OnPath(s, lay, d);
      RelocatedSlots(s.img, l, k, e, d, 0);
    }
  }

  lemma RelocationKeeps(s: Shell, lay: Layout, l: Loc, k: Loc)
    requires ShellOk(s, lay) && Movable(s.img, lay, l, k) && l.dir == s.cur
    ensures var img' := Relocated(s.img, l, k, TableOf(s.img, l.dir)[l.slot]);
            Keeps(s, img') && FatOf(img') == FatOf(s.img)
  {
    var e := TableOf(s.img, l.dir)[l.slot];
    DirRange(MetaOf(s.img), lay);
    RelocatedMeta(s.img, l, k, e);
    RelocationKeepsShell(s, lay, l, k);
    RelocationQuiet(s, lay, l, k, e);
    Kept(s, lay, Relocated(s.img, l, k, e), MoveEntry(lay, l, k, e.size == 0));
  }

  lemma MoveDownKeeps(s: Shell, lay: Layout, name: Name, ext: Ext, target: Name)
    requires ShellOk(s, lay) && MoveDownGuard(s, name, ext, target)
    ensures var img' := MoveInto(s.img, s.cur, name, ext, target);
            Keeps(s, img') && FatOf(img') == FatOf(s.img)
  {
    ShellDir(s, lay);
    if MoveSlot(s.img, s.cur, name, ext) == 64 || TargetSlot(s.img, s.cur, target) == 64 {
      StaysOk(s, lay);
    } else {
      MoveIntoIsRelocation(s.img, lay, s.cur, name, ext, target);
      RelocationKeeps(s, lay, MoveFrom(s.img, s.cur, name, ext), MoveTo(s.img, s.cur, target));
    }
  }

  /** ... and as no directory on the stack is called "..", the shell is back where it was. */
  lemma MoveUpKeeps(s: Shell, lay: Layout, name: Name, ext: Ext)
    requires ShellOk(s, lay) && Undotted(s) && CdReady(s) && SafeMoveUp(s, name, ext)
    ensures MoveUpReady(s, name, ext)
    ensures var s' := MoveUp(s, name, ext);
            s' == s.(img := s'.img) && Keeps(s, s'.img) && FatOf(s'.img) == FatOf(s.img)
  {
    assert s.cur == s.stack[|s.stack| - 1];
    MoveUpReturnsIff(s, lay, name, ext);
    SafeUpIsMovable(s, lay, name, ext);
    RelocationKeeps(s, lay, UpFrom(s, name, ext), UpTo(s, name, ext));
  }

  lemma RenameQuiet(s: Shell, lay: Layout, img': Image, c: nat)
    requires ShellOk(s, lay) && c !in s.stack && c != 0 && SameBut(s.img, img', [s.cur, c])
    requires s.cur < 512 && TableOf(img', s.cur)[0] == TableOf(s.img, s.cur)[0]
    ensures Quiet(s.img, img', s.stack)
  {
    ShellDir(s, lay);
    forall d | d in s.stack
      ensures TableOf(img', d)[0].name == TableOf(s.img, d)[0].name
    {
      assert d != s.cur ==> img'[d] == s.img[d];
    }
  }

  lemma NewNameImage(s: Shell, lay: Layout, name: Name, ext: Ext, newName: Name, newExt: Ext)
    returns (img': Image, c: nat)
    requires ShellOk(s, lay) && s.cur < 512 && SafeRename(s.img, s.cur, name, ext, newName, newExt)
    ensures RenameReady(s.img, s.cur, name, ext) && img' == Rename(s.img, s.cur, name, ext, newName, newExt)
    ensures Carries(MetaOf(s.img), lay, MetaOf(img'), lay) && FatOf(img') == FatOf(s.img)
    ensures c !in s.stack && c != 0 && SameBut(s.img, img', [s.cur, c])
    ensures TableOf(img', s.cur)[0] == TableOf(s.img, s.cur)[0]
  {
    var m := Match(s.img, s.cur, name, ext);
    ShellDir(s, lay);
    RenameEnds(s.img, lay, s.cur, name, ext);
    RenameKeepsValid(s.img, lay, s.cur, name, ext, newName, newExt);
    img', c := Rename(s.img, s.cur, name, ext, newName, newExt), HeadOf(TableOf(s.img, s.cur)[m]);
    RenameMeta(s.img, s.cur, m, newName, newExt);
    MatchIsOffStack(s, lay, Loc(s.cur, m));
  }

  /** What an entry of the current directory points at is not on the stack, directory or file. */
  lemma MatchIsOffStack(s: Shell, lay: Layout, l: Loc)
    requires ShellOk(s, lay) && l in lay.chains && l.dir == s.cur < 512 && l.slot < 64
    ensures HeadOf(TableOf(s.img, s.cur)[l.slot]) !in s.stack
  {
    var c := HeadOf(TableOf(s.img, s.cur)[l.slot]);
    LiveEntryFacts(s.img, lay, l);
    if TableOf(s.img, s.cur)[l.slot].size == 0 {
      ChildIsOffStack(s, lay, l);
    } else {
      FileHeadIsNoDir(s.img, lay, l);
      if c in s.stack {
        OnPath(s, lay, c);
      }
    }
  }

  lemma NewNameKeeps(s: Shell, lay: Layout, name: Name, ext: Ext, newName: Name, newExt: Ext)
    requires ShellOk(s, lay) && s.cur < 512 && NewNameGuard(s, name, ext, newName, newExt)
    ensures RenameReady(s.img, s.cur, name, ext)
    ensures var img' := Rename(s.img, s.cur, name, ext, newName, newExt);
            Keeps(s, img') && FatOf(img') == FatOf(s.img)
  {
    if Match(s.img, s.cur, name, ext) == 64 {
      StaysOk(s, lay);
    } else {
      var img', c := NewNameImage(s, lay, name, ext, newName, newExt);
      RenameQuiet(s, lay, img', c);
      Kept(s, lay, img', lay);
    }
  }

  // ---- cd --------------------------------------------------------------------------------------

  lemma ChangeKeepsOk(s: Shell, lay: Layout, name: Name)
    requires ShellOk(s, lay) && Undotted(s) && CdReady(s) && ChangeGuard(s, name)
    ensures Ok(Cd(s, name).0) && Cd(s, name).0.img == s.img
  {
    CdKeepsShellIff(s, lay, name);
    if !DotDot(name) && CdSlot(s, name) < 64 {
      SafeCdName(s, lay, name);
      CdDownStep(s, name);
    }
  }

  lemma ChangeNames(s: Shell, lay: Layout, name: Name, names: seq<seq<byte>>)
    requires ShellOk(s, lay) && CdReady(s) && ChangeGuard(s, name) && EnteredBy(s, names)
    ensures EnteredBy(Cd(s, name).0, CdNames(s, name, names))
  {
    if !DotDot(name) && CdSlot(s, name) < 64 {
      SafeCdName(s, lay, name);
      CdDownStep(s, name);
    }
  }

  lemma LastName(s: Shell, names: seq<seq<byte>>)
    requires EnteredBy(s, names) && |s.stack| >= 2 && s.stack[|s.stack| - 1] == s.cur < 512
    ensures names == names[..|names| - 1] + [TableOf(s.img, s.cur)[0].name]
  {
  }

  lemma UpThereIs(s: Shell, name: Name, ext: Ext)
    requires CdReady(s) && MoveSlot(s.img, s.cur, name, ext) < 64 && MoveUpReady(s, name, ext)
    ensures UpReady(s, name, ext) && UpThere(s, name, ext, 0) == MoveUpThere(s, name, ext)
    ensures CdReady(UpThere(s, name, ext, 0)) && |UpThere(s, name, ext, 0).stack| == |Cd(s, UP).0.stack|
  {
  }

  /** Going up drops the last name, coming back down by the directory's own name restores it. */
  lemma UpNamesReturn(s: Shell, lay: Layout, name: Name, ext: Ext, names: seq<seq<byte>>)
    requires ShellOk(s, lay) && Undotted(s) && EnteredBy(s, names) && CdReady(s) && SafeMoveUp(s, name, ext)
    ensures UpReady(s, name, ext) && UpNames(s, name, ext, 0, names) == names
  {
    MoveUpReturnsIff(s, lay, name, ext);
    ShellDir(s, lay);
    assert s.cur in s.stack;
    UpThereIs(s, name, ext);
    UpNamesSame(s, name, ext, names);
  }

  lemma UpNamesSame(s: Shell, name: Name, ext: Ext, names: seq<seq<byte>>)
    requires UpReady(s, name, ext) && EnteredBy(s, names) && |s.stack| > 0 && s.stack[|s.stack| - 1] == s.cur
    requires var there, temporal := UpThere(s, name, ext, 0), TableOf(s.img, s.cur)[0].name;
             && CdReady(there) && |there.stack| == |Cd(s, UP).0.stack|
             && Cd(there, temporal).0.stack == s.stack && !DotDot(temporal)
    ensures UpNames(s, name, ext, 0, names) == names
  {
    UpStep(s);
    if s.cur != ROOT {
      LastName(s, names);
    }
    NamesBack(s, UpThere(s, name, ext, 0), TableOf(s.img, s.cur)[0].name, names);
  }

  /** One name fewer, then the same again. */
  lemma NamesBack(s: Shell, there: Shell, temporal: Name, names: seq<seq<byte>>)
    requires CdReady(s) && CdReady(there) && |names| == |s.stack| && !DotDot(temporal)
    requires |there.stack| == |Cd(s, UP).0.stack| && Cd(there, temporal).0.stack == s.stack
    requires Cd(s, UP).1 == (s.cur != ROOT) && (s.cur != ROOT ==> names == names[..|names| - 1] + [temporal])
    ensures CdNames(there, temporal, CdNames(s, UP, names)) == names
  {
    var mid := CdNames(s, UP, names);
    assert mid == if s.cur == ROOT then names else names[..|names| - 1] by {
      assert DotDot(UP);
    }
    DownLength(there, temporal);
  }

  lemma DownLength(s: Shell, name: Name)
    requires CdReady(s) && !DotDot(name)
    ensures |Cd(s, name).0.stack| == |s.stack| + if Cd(s, name).1 then 1 else 0
  {
  }

  lemma UpStep(s: Shell)
    requires CdReady(s)
    ensures Cd(s, UP).1 == (s.cur != ROOT) && Cd(s, UP).0.stack == UpStack(s)
  {
    assert DotDot(UP);
  }

  /** What `cd` goes down to is called what it was asked for. */
  lemma SafeCdName(s: Shell, lay: Layout, name: Name)
    requires ShellOk(s, lay) && s.cur < 512 && SafeCd(s, name)
    ensures TableOf(s.img, HeadOf(TableOf(s.img, s.cur)[CdSlot(s, name)]))[0].name == name
  {
    var l := Loc(s.cur, CdSlot(s, name));
    ShellDir(s, lay);
    LiveEntryFacts(s.img, lay, l);
  }

  // ---- Every step --------------------------------------------------------------------------------

  /** The commands that go through the driver. */
  predicate Served(c: Command) {
    c.Change? || c.Put? || c.Erase? || c.Copy? || c.Remove?
  }

  lemma ServedStep(s: Shell, lay: Layout, c: Command)
    requires ShellOk(s, lay) && Undotted(s) && Guard(s, c) && Served(c) && !c.Change?
    ensures Ready(s, c) && Next(s, c) == s.(img := Next(s, c).img) && Keeps(s, Next(s, c).img)
  {
    match c
    case Put(r, data) =>
      IsDirectoryIn(s.img, lay, r.parent);
      PutKeeps(s, lay, r, data);
    case Erase(r) =>
      IsDirectoryIn(s.img, lay, r.parent);
      EraseKeeps(s, lay, r);
    case Copy(name, ext, newName, newExt) =>
      CopyIsReady(s, lay, name, ext, newName, newExt);
      CopyKeeps(s, lay, name, ext, newName, newExt);
    case Remove(name, ext) => RemoveKeeps(s, lay, name, ext);
    case _ =>
  }

  lemma MoveStep(s: Shell, lay: Layout, c: Command)
    requires ShellOk(s, lay) && Undotted(s) && Guard(s, c) && !Served(c)
    ensures Ready(s, c) && Next(s, c) == s.(img := Next(s, c).img) && Keeps(s, Next(s, c).img)
    ensures FatOf(Next(s, c).img) == FatOf(s.img)
  {
    ShellDir(s, lay);
    match c
    case MoveDown(name, ext, target) =>
      ScanIsMoveInto(s.img, lay, s.cur, name, ext, target);
      MoveDownKeeps(s, lay, name, ext, target);
    case MoveUpward(name, ext) => MoveUpKeeps(s, lay, name, ext);
    case NewName(name, ext, newName, newExt) => NewNameKeeps(s, lay, name, ext, newName, newExt);
    case _ =>
  }

  /** All commands but `cd` change the disk alone. */
  lemma DiskStep(s: Shell, lay: Layout, c: Command)
    requires ShellOk(s, lay) && Undotted(s) && Guard(s, c) && !c.Change?
    ensures Ready(s, c) && Next(s, c) == s.(img := Next(s, c).img) && Keeps(s, Next(s, c).img)
    ensures !Served(c) ==> FatOf(Next(s, c).img) == FatOf(s.img)
  {
    if Served(c) {
      ServedStep(s, lay, c);
    } else {
      MoveStep(s, lay, c);
    }
  }

  /** A guarded command never runs into a search without end or an index out of range, and it keeps
      the shell and its disk in order: the boot cluster as it was, and no cell leaked. */
  lemma StepKeepsOk(s: Shell, c: Command)
    requires Ok(s) && Guard(s, c)
    ensures Ready(s, c) && Ok(Next(s, c)) && Next(s, c).img[0] == s.img[0] && NoNewLeak(s.img, Next(s, c).img)
    ensures !Served(c) ==> FatOf(Next(s, c).img) == FatOf(s.img)
  {
    var lay :| ShellOk(s, lay);
    if c.Change? {
      ChangeKeepsOk(s, lay, c.name);
      StaysOk(s, lay);
    } else {
      DiskStep(s, lay, c);
      KeepsOk(s, Next(s, c).img);
    }
  }

  /** ... and the directories on the stack entered by the names they have. */
  lemma StepKeepsNames(s: Shell, c: Command, names: seq<seq<byte>>)
    requires Ok(s) && Guard(s, c) && EnteredBy(s, names)
    ensures Ready(s, c) && EnteredBy(Next(s, c), NextNames(s, c, names))
  {
    var lay :| ShellOk(s, lay);
    if c.Change? {
      ChangeNames(s, lay, c.name, names);
    } else {
      DiskStep(s, lay, c);
      KeepsOk(s, Next(s, c).img);
      if c.MoveUpward? {
        UpNamesReturn(s, lay, c.name, c.ext, names);
      }
    }
  }

  /** In every state of a session the stack has room and no directory in use is the map's cluster. */
  lemma SessionBounds(s: Shell, c: Command)
    requires Ok(s) && Guard(s, c)
    ensures |s.stack| <= 254 && s.cur != 1 && ((c.Put? || c.Erase?) ==> c.request.parent != 1)
  {
    var lay :| ShellOk(s, lay);
    StackFits(s, lay);
    ShellDir(s, lay);
    DirRange(MetaOf(s.img), lay);
    if c.Put? || c.Erase? {
      IsDirectoryIn(s.img, lay, c.request.parent);
    }
  }

  // ---- Runs ---------------------------------------------------------------------

  ghost predicate StepAllowed(s: Shell, c: Command, s': Shell) {
    Guard(s, c) && Ready(s, c) && s' == Next(s, c)
  }

  ghost predicate Run(states: seq<Shell>, commands: seq<Command>) {
    && |states| == |commands| + 1
    && forall i {:trigger RunsAt(states, commands, i)} :: 0 <= i < |commands| ==> RunsAt(states, commands, i)
  }

  ghost predicate RunsAt(states: seq<Shell>, commands: seq<Command>, i: nat) {
    i < |commands| && i + 1 < |states| && StepAllowed(states[i], commands[i], states[i + 1])
  }

  /** The shell in order, the boot cluster as on `img`, and nothing leaked since. */
  ghost predicate InRun(img: Image, s: Shell) {
    Ok(s) && s.img[0] == img[0] && NoNewLeak(img, s.img)
  }

  lemma RunStep(states: seq<Shell>, commands: seq<Command>, i: nat, img: Image)
    requires Run(states, commands) && 0 < i < |states| && InRun(img, states[i - 1])
    ensures InRun(img, states[i])
  {
    assert RunsAt(states, commands, i - 1);
    StepKeepsOk(states[i - 1], commands[i - 1]);
    NoLeakAcross(img, states[i - 1].img, states[i].img);
  }

  lemma RunStarts(s: Shell)
    requires Ok(s)
    ensures InRun(s.img, s)
  {
    var lay :| ShellOk(s, lay);
    StaysOk(s, lay);
  }

  lemma {:induction false} RunFrom(states: seq<Shell>, commands: seq<Command>, i: nat, img: Image)
    requires Run(states, commands) && i < |states| && InRun(img, states[0])
    ensures InRun(img, states[i])
    decreases i
  {
    if i > 0 {
      RunFrom(states, commands, i - 1, img);
      RunStep(states, commands, i, img);
    }
  }

  /** In every state of a run the shell is in order, the boot cluster as at the start, and no cell is
      leaked that was not leaked then. */
  lemma RunKeepsOk(states: seq<Shell>, commands: seq<Command>, i: nat)
    requires Run(states, commands) && Ok(states[0]) && i < |states|
    ensures InRun(states[0].img, states[i])
  {
    RunStarts(states[0]);
    RunFrom(states, commands, i, states[0].img);
  }

  /** The name stacks that go with the states of a run. */
  ghost predicate NamesRun(states: seq<Shell>, commands: seq<Command>, names: seq<seq<seq<byte>>>) {
    && |names| == |states| == |commands| + 1 && EnteredBy(states[0], names[0])
    && forall i {:trigger NamesAt(states, commands, names, i)} ::
         0 <= i < |commands| ==> NamesAt(states, commands, names, i)
  }

  ghost predicate NamesAt(states: seq<Shell>, commands: seq<Command>, names: seq<seq<seq<byte>>>, i: nat) {
    && i < |commands| && i + 1 < |states| && i + 1 < |names|
    && |names[i]| == |states[i].stack| && Ready(states[i], commands[i])
    && names[i + 1] == NextNames(states[i], commands[i], names[i])
  }

  lemma NamesStep(states: seq<Shell>, commands: seq<Command>, names: seq<seq<seq<byte>>>, i: nat)
    requires Run(states, commands) && NamesRun(states, commands, names) && i + 1 < |states|
    requires Ok(states[i]) && EnteredBy(states[i], names[i])
    ensures EnteredBy(states[i + 1], names[i + 1])
  {
    assert RunsAt(states, commands, i) && NamesAt(states, commands, names, i);
    StepKeepsNames(states[i], commands[i], names[i]);
  }

  lemma {:induction false} RunKeepsNames(states: seq<Shell>, commands: seq<Command>, names: seq<seq<seq<byte>>>, i: nat)
    requires Run(states, commands) && NamesRun(states, commands, names) && Ok(states[0]) && i < |states|
    ensures EnteredBy(states[i], names[i])
  {
    if i > 0 {
      RunKeepsNames(states, commands, names, i - 1);
      RunKeepsOk(states, commands, i - 1);
      NamesStep(states, commands, names, i - 1);
    }
  }

  // ---- From mounting on --------------------------------------------------------------------------

  /** Some layout describes the disk, leaks or not. */
  ghost predicate Usable(m: Meta) {
    exists lay :: Consistent(m, lay)
  }

  /** The shell starts in order on every disk some layout describes. */
  lemma StartIsOk(img: Image, lay: Layout)
    requires Consistent(MetaOf(img), lay)
    ensures Ok(Shell(img, ROOT, [ROOT]))
  {
    assert ShellOk(Shell(img, ROOT, [ROOT]), lay);
    assert Undotted(Shell(img, ROOT, [ROOT]));
  }

  /** A signed disk in order, or any other disk with a clean cache, is in order and signed once mounted,
      and sound unless it was mounted with leaks. */
  lemma MountedIsOk(img: Image, cache: Fat)
    requires if Signed(img) then Usable(MetaOf(img)) else CleanCache(cache)
    ensures Ok(Shell(Initialized(img, cache), ROOT, [ROOT])) && Signed(Initialized(img, cache))
    ensures !Signed(img) || Sound(MetaOf(img)) ==> Sound(MetaOf(Initialized(img, cache)))
  {
    if Signed(img) {
      var lay :| Consistent(MetaOf(img), lay);
      StartIsOk(img, lay);
    } else {
      FormattedIsValid(img, cache);
      StartIsOk(Formatted(img, cache), EMPTY);
    }
  }

  /** A disk on which a write was interrupted mounts as it is, in order, with every read as before. */
  lemma InterruptedIsUsable(img: Image, lay: Layout, before: seq<Image>, log: seq<Image>, img': Image, k: nat,
                            cache: Fat)
    requires Consistent(MetaOf(img), lay) && Signed(img) && HarmlessBut(img, before, log, img')
    requires |before| <= k < |log| - 1
    ensures Initialized(log[k], cache) == log[k] && Ok(Shell(log[k], ROOT, [ROOT]))
    ensures forall q: Request :: q.parent < 512 && q.parent in lay.Dirs() ==> ReadReply(log[k], q) == ReadReply(img, q)
  {
    WriteIsCrashSafe(img, lay, before, log, img', k);
    assert log[..|log| - 1][k] == log[k];
    StartIsOk(log[k], lay);
  }

  /** The path that is printed for a stack of names. */
  function Prompt(names: seq<seq<byte>>): seq<byte>
    requires |names| > 0
  {
    P.Print(D.EnteredTo(names, |names| - 1))
  }

  /** The names entered lead back from the root, and so does the path on the prompt when all of them
      are plain. */
  lemma PromptOfOk(s: Shell, names: seq<seq<byte>>)
    requires Ok(s) && EnteredBy(s, names)
    ensures |names| > 0 && PathNames(s.img, s.stack) == names[1..]
    ensures MultiCdReady(Shell(s.img, ROOT, [ROOT]), PathNames(s.img, s.stack))
    ensures MultiCd(Shell(s.img, ROOT, [ROOT]), PathNames(s.img, s.stack)) == s
    ensures P.Parse(Prompt(names)) == P.Parsed(PathNames(s.img, s.stack), true)
            <==> forall i :: 0 <= i < |PathNames(s.img, s.stack)| ==> P.Plain(PathNames(s.img, s.stack)[i])
  {
    var lay :| ShellOk(s, lay);
    PromptLeadsBackIff(s, lay);
    PathNamesAre(s.img, s.stack);
    assert PathNames(s.img, s.stack) == names[1..];
    D.EnteredAreTexts(names, PathNames(s.img, s.stack));
    P.PrintedFieldsIff(PathNames(s.img, s.stack));
  }

  /** After any run from a freshly mounted disk: the stack is a path to the current directory, no cell
      is leaked that was not leaked before, the names entered lead back to the shell, the printed path
      splits into them if and only if they are plain, and mounting again finds the signature and
      changes nothing. */
  lemma EveryRunIsOk(img: Image, cache: Fat, states: seq<Shell>, commands: seq<Command>, names: seq<seq<seq<byte>>>,
                     i: nat, cache': Fat)
    requires if Signed(img) then Usable(MetaOf(img)) else CleanCache(cache)
    requires Run(states, commands) && i < |states| && states[0] == Shell(Initialized(img, cache), ROOT, [ROOT])
    requires NamesRun(states, commands, names)
    ensures var s := states[i];
            var root, entered := Shell(s.img, ROOT, [ROOT]), PathNames(s.img, s.stack);
            && Ok(s) && Initialized(s.img, cache') == s.img
            && (!Signed(img) || Sound(MetaOf(img)) ==> Sound(MetaOf(s.img)))
            && |names[i]| > 0 && names[i][1..] == entered && MultiCdReady(root, entered) && MultiCd(root, entered) == s
            && (P.Parse(Prompt(names[i])) == P.Parsed(entered, true)
                <==> forall k :: 0 <= k < |entered| ==> P.Plain(entered[k]))
  {
    MountedIsOk(img, cache);
    RunKeepsOk(states, commands, i);
    RunKeepsNames(states, commands, names, i);
    PromptOfOk(states[i], names[i]);
    if Sound(MetaOf(states[0].img)) {
      NoLeakSound(states[0].img, states[i].img);
    }
  }
}
