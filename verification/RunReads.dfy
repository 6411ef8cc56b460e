/** Content over whole runs: a name that no command of a run writes, deletes, moves or renames reads
    at the end what it read at the start. */
module RunReads {
  import opened Format
  import opened Volume
  import opened Edits
  import opened Storage
  import opened DriverSpec
  import opened Reading
  import opened WriteProofs
  import opened DeleteProofs
  import opened ShellSpec
  import opened MoveProofs
  import opened CwdProofs
  import opened RenameProofs
  import opened Limits
  import opened Runs

  // ---- What a command touches ----------------------------------------------------------------

  predicate IsPair(q: Request, d: nat, name: Name, ext: Ext) {
    q.parent == d && q.name == name && q.ext == ext
  }

  /** A write touches the name it makes. */
  predicate WriteTouches(r: Request, q: Request) {
    IsPair(q, r.parent, r.name, if r.size == 0 then NO_EXT else r.ext)
  }

  /** Taking away the entry at `l` touches its name and, if it is a directory's, all names inside. */
  predicate EntryTouches(img: Image, l: Loc, q: Request)
    requires l.dir < 512 && l.slot < 64
  {
    var e := TableOf(img, l.dir)[l.slot];
    IsPair(q, l.dir, e.name, e.ext) || (e.size == 0 && q.parent == HeadOf(e))
  }

  predicate EraseTouches(img: Image, r: Request, q: Request) {
    r.parent < 512 && Target(img, r) < 64 && EntryTouches(img, Loc(r.parent, Target(img, r)), q)
  }

  /** `rm` touches what `delete` finds, which can be another entry than the one matched. */
  predicate RemoveTouches(s: Shell, name: Name, ext: Ext, q: Request)
    requires s.cur < 512
  {
    Match(s.img, s.cur, name, ext) < 64 && EraseTouches(s.img, RmRequest(s.img, s.cur, name, ext), q)
  }

  predicate MoveDownTouches(s: Shell, name: Name, ext: Ext, target: Name, q: Request)
    requires s.cur < 512
  {
    var m := TargetSlot(s.img, s.cur, target);
    || IsPair(q, s.cur, name, ext)
    || (m < 64 && IsPair(q, HeadOf(TableOf(s.img, s.cur)[m]), name, ext))
  }

  predicate CopyTouches(s: Shell, name: Name, ext: Ext, newName: Name, newExt: Ext, q: Request)
    requires s.cur < 512
  {
    Match(s.img, s.cur, name, ext) < 64 && WriteTouches(CpRequest(s.img, s.cur, name, ext, newName, newExt), q)
  }

  predicate Touches(s: Shell, c: Command, q: Request)
    requires CdReady(s)
  {
    match c
    case Change(_) => false
    case Put(r, _) => WriteTouches(r, q)
    case Erase(r) => EraseTouches(s.img, r, q)
    case Copy(name, ext, newName, newExt) => CopyTouches(s, name, ext, newName, newExt, q)
    case Remove(name, ext) => RemoveTouches(s, name, ext, q)
    case MoveDown(name, ext, target) => MoveDownTouches(s, name, ext, target, q)
    case MoveUpward(name, ext) => IsPair(q, s.cur, name, ext) || IsPair(q, Parent(s), name, ext)
    case NewName(name, ext, newName, newExt) => IsPair(q, s.cur, name, ext) || IsPair(q, s.cur, newName, newExt)
  }

  /** Told without the searches: besides the names inside a directory that is taken away, a command touches
      at most the name it is given, or makes, where it is and where it goes. */
  lemma TouchesOnly(s: Shell, c: Command, q: Request)
    requires CdReady(s) && Touches(s, c, q)
    ensures match c
            case Change(_) => false
            case Put(r, _) => q.parent == r.parent && q.name == r.name && (q.ext == r.ext || q.ext == [0, 0, 0])
            case Erase(r) => r.parent < 512 && TouchedByErase(TableOf(s.img, r.parent), r.parent, r.name, q)
            case Copy(name, ext, newName, newExt) =>
              q.parent == s.cur && q.name == newName && (q.ext == newExt || q.ext == [0, 0, 0])
            case Remove(name, ext) => TouchedByErase(TableOf(s.img, s.cur), s.cur, name, q)
            case MoveDown(name, ext, target) =>
              q.name == name && q.ext == ext && (q.parent == s.cur || IsHead(TableOf(s.img, s.cur), target, q.parent))
            case MoveUpward(name, ext) =>
              q.name == name && q.ext == ext
              && (q.parent == s.cur || (s.cur != 2 && q.parent == s.stack[|s.stack| - 2]))
            case NewName(name, ext, newName, newExt) =>
              q.parent == s.cur && ((q.name == name && q.ext == ext) || (q.name == newName && q.ext == newExt))
  {
    match c
    case Erase(r) => EraseTouchesOnly(s.img, r, q);
    case Remove(name, ext) => EraseTouchesOnly(s.img, RmRequest(s.img, s.cur, name, ext), q);
    case MoveDown(name, ext, target) =>
      if TargetSlot(s.img, s.cur, target) < 64 {
        assert TableOf(s.img, s.cur)[TargetSlot(s.img, s.cur, target)].name == target;
      }
    case _ =>
  }

  /** `c` is the cluster of an entry of this name. */
  ghost predicate IsHead(t: Table, name: Name, c: nat) {
    exists i :: 0 <= i < 64 && t[i].name == name && c == t[i].low + 65536 * t[i].high
  }

  /** The name itself, or one in a directory of the name. */
  ghost predicate TouchedByErase(t: Table, parent: nat, name: Name, q: Request) {
    (q.parent == parent && q.name == name) || IsHead(t, name, q.parent)
  }

  lemma EraseTouchesOnly(img: Image, r: Request, q: Request)
    requires EraseTouches(img, r, q)
    ensures TouchedByErase(TableOf(img, r.parent), r.parent, r.name, q)
  {
    assert TableOf(img, r.parent)[Target(img, r)].name == r.name;
  }

  // ---- One step --------------------------------------------------------------------------------

  /** The directory the name is looked up in is still there, and the answer is the same. */
  ghost predicate StillReads(img: Image, img': Image, q: Request)
    requires q.parent < 512
  {
    IsDirectory(img', q.parent) && ReadReply(img', q) == ReadReply(img, q)
  }

  lemma SameDisk(img: Image, lay: Layout, q: Request)
    requires Consistent(MetaOf(img), lay) && q.parent in lay.Dirs() && q.parent < 512
    ensures StillReads(img, img, q)
  {
    assert IsDirectory(img, q.parent);
  }

  lemma InDirs(img: Image, lay: Layout, d: nat)
    requires Consistent(MetaOf(img), lay) && d in lay.Dirs()
    ensures IsDirectory(img, d)
  {
  }

  lemma PutReads(img: Image, lay: Layout, r: Request, data: seq<byte>, q: Request)
    requires Consistent(MetaOf(img), lay) && r.parent in lay.Dirs() && PutGuard(img, r, data)
    requires q.parent in lay.Dirs() && q.parent < 512 && !WriteTouches(r, q)
    ensures StillReads(img, WriteOutcome(img, r, data).img, q)
  {
    WriteKeepsValid(img, lay, r, data);
    WriteKeepsOtherReads(img, lay, r, data, q);
    InDirs(WriteOutcome(img, r, data).img, WriteLayout(img, lay, r), q.parent);
  }

  lemma CopyReads(s: Shell, lay: Layout, name: Name, ext: Ext, newName: Name, newExt: Ext, q: Request)
    requires ShellOk(s, lay) && s.cur < 512 && CopyGuard(s, name, ext, newName, newExt)
    requires q.parent in lay.Dirs() && q.parent < 512 && !CopyTouches(s, name, ext, newName, newExt, q)
    ensures CpReady(s.img, s.cur, name, ext, newName, newExt)
    ensures StillReads(s.img, Cp(s.img, s.cur, name, ext, newName, newExt).img, q)
  {
    ShellDir(s, lay);
    CopyIsReady(s, lay, name, ext, newName, newExt);
    if Match(s.img, s.cur, name, ext) == 64 {
      SameDisk(s.img, lay, q);
    } else {
      PutReads(s.img, lay, CpRequest(s.img, s.cur, name, ext, newName, newExt), CpData(s.img, s.cur, name, ext), q);
    }
  }

  lemma FreedReads(img: Image, lay: Layout, l: Loc, isDir: bool, img': Image, q: Request)
    requires Consistent(MetaOf(img), lay) && l in lay.chains && l.dir in lay.Dirs() && 2 <= l.dir < 512 && l.slot < 64
    requires IsChain(FatOf(img), lay.chains[l]) && isDir == (TableOf(img, l.dir)[l.slot].size == 0)
    requires img' == Freed(img, lay, l) && Consistent(MetaOf(img'), DropEntry(lay, l, isDir))
    requires q.parent in lay.Dirs() && 2 <= q.parent < 512 && !EntryTouches(img, l, q)
    ensures StillReads(img, img', q)
  {
    LiveEntryFacts(img, lay, l);
    FreedMatches(img, lay, l, isDir, q);
    InDirs(img', DropEntry(lay, l, isDir), q.parent);
    ReadSame(img, img', lay, DropEntry(lay, l, isDir), q);
  }

  lemma EraseReads(s: Shell, lay: Layout, r: Request, q: Request)
    requires ShellOk(s, lay) && r.parent in lay.Dirs() && EraseGuard(s, r)
    requires q.parent in lay.Dirs() && 2 <= q.parent < 512
    requires Target(s.img, r) < 64 ==> !EntryTouches(s.img, Loc(r.parent, Target(s.img, r)), q)
    ensures DeleteReady(s.img, r) && StillReads(s.img, DeleteOutcome(s.img, r).img, q)
  {
    DeleteReadyInDirectory(s.img, lay, r);
    RefusedIff(s.img, r);
    if Refused(s.img, r) {
      SameDisk(s.img, lay, q);
    } else {
      var l := Loc(r.parent, Target(s.img, r));
      SafeDelete(s.img, lay, r);
      SafeOutcome(s.img, lay, r);
      DirsAreTaken(MetaOf(s.img), lay, r.parent);
      FreedReads(s.img, lay, l, TableOf(s.img, l.dir)[l.slot].size == 0, DeleteOutcome(s.img, r).img, q);
    }
  }

  lemma RemoveReads(s: Shell, lay: Layout, name: Name, ext: Ext, q: Request)
    requires ShellOk(s, lay) && s.cur < 512 && RemoveGuard(s, name, ext)
    requires q.parent in lay.Dirs() && 2 <= q.parent < 512
    requires !RemoveTouches(s, name, ext, q)
    ensures RmReady(s.img, s.cur, name, ext) && StillReads(s.img, Rm(s.img, s.cur, name, ext).img, q)
  {
    ShellDir(s, lay);
    if Match(s.img, s.cur, name, ext) == 64 {
      SameDisk(s.img, lay, q);
    } else {
      EraseReads(s, lay, RmRequest(s.img, s.cur, name, ext), q);
    }
  }

  lemma MovedDirs(img: Image, img': Image, lay: Layout, l: Loc, k: Loc, d: nat)
    requires Consistent(MetaOf(img), lay) && l in lay.chains && l.dir < 512 && l.slot < 64 && |lay.chains[l]| > 0
    requires Consistent(MetaOf(img'), MoveEntry(lay, l, k, TableOf(img, l.dir)[l.slot].size == 0)) && d in lay.Dirs()
    ensures IsDirectory(img', d)
  {
    RelocationDirs(img, lay, l, k);
    InDirs(img', MoveEntry(lay, l, k, TableOf(img, l.dir)[l.slot].size == 0), d);
  }

  lemma MoveDownReads(s: Shell, lay: Layout, name: Name, ext: Ext, target: Name, q: Request)
    requires ShellOk(s, lay) && MoveDownGuard(s, name, ext, target)
    requires q.parent in lay.Dirs() && q.parent < 512 && !MoveDownTouches(s, name, ext, target, q)
    ensures StillReads(s.img, MoveInto(s.img, s.cur, name, ext, target), q)
  {
    ShellDir(s, lay);
    if MoveSlot(s.img, s.cur, name, ext) == 64 || TargetSlot(s.img, s.cur, target) == 64 {
      SameDisk(s.img, lay, q);
    } else {
      MoveIntoKeepsValid(s.img, lay, s.cur, name, ext, target);
      MoveIntoReads(s.img, lay, s.cur, name, ext, target, q);
      MovedDirs(s.img, MoveInto(s.img, s.cur, name, ext, target), lay, MoveFrom(s.img, s.cur, name, ext),
                MoveTo(s.img, s.cur, target), q.parent);
    }
  }

  lemma MoveUpwardReads(s: Shell, lay: Layout, name: Name, ext: Ext, q: Request)
    requires ShellOk(s, lay) && CdReady(s) && SafeMoveUp(s, name, ext) && q.parent in lay.Dirs() && q.parent < 512
    requires !IsPair(q, s.cur, name, ext) && !IsPair(q, Parent(s), name, ext)
    ensures MoveUpReady(s, name, ext) && StillReads(s.img, MoveUp(s, name, ext).img, q)
  {
    MoveUpReads(s, lay, name, ext, q);
    MoveUpReturnsIff(s, lay, name, ext);
    MovedDirs(s.img, MoveUp(s, name, ext).img, lay, UpFrom(s, name, ext), UpTo(s, name, ext), q.parent);
  }

  lemma NewNameReads(s: Shell, lay: Layout, name: Name, ext: Ext, newName: Name, newExt: Ext, q: Request)
    requires ShellOk(s, lay) && s.cur < 512 && NewNameGuard(s, name, ext, newName, newExt)
    requires q.parent in lay.Dirs() && q.parent < 512
    requires !IsPair(q, s.cur, name, ext) && !IsPair(q, s.cur, newName, newExt)
    ensures RenameReady(s.img, s.cur, name, ext)
    ensures StillReads(s.img, Rename(s.img, s.cur, name, ext, newName, newExt), q)
  {
    ShellDir(s, lay);
    if Match(s.img, s.cur, name, ext) == 64 {
      SameDisk(s.img, lay, q);
    } else {
      RenameKeepsOtherReads(s.img, lay, s.cur, name, ext, newName, newExt, q);
      RenameKeepsValid(s.img, lay, s.cur, name, ext, newName, newExt);
      InDirs(Rename(s.img, s.cur, name, ext, newName, newExt), lay, q.parent);
    }
  }

  lemma ServedReads(s: Shell, lay: Layout, c: Command, q: Request)
    requires ShellOk(s, lay) && Guard(s, c) && Served(c) && !Touches(s, c, q)
    requires q.parent in lay.Dirs() && 2 <= q.parent < 512
    ensures Ready(s, c) && StillReads(s.img, Next(s, c).img, q)
  {
    match c
    case Change(name) => SameDisk(s.img, lay, q);
    case Put(r, data) =>
      IsDirectoryIn(s.img, lay, r.parent);
      PutReads(s.img, lay, r, data, q);
    case Erase(r) =>
      IsDirectoryIn(s.img, lay, r.parent);
      EraseReads(s, lay, r, q);
    case Copy(name, ext, newName, newExt) =>
      CopyIsReady(s, lay, name, ext, newName, newExt);
      CopyReads(s, lay, name, ext, newName, newExt, q);
    case Remove(name, ext) => RemoveReads(s, lay, name, ext, q);
    case _ =>
  }

  lemma MovesRead(s: Shell, lay: Layout, c: Command, q: Request)
    requires ShellOk(s, lay) && Guard(s, c) && !Served(c) && !Touches(s, c, q)
    requires q.parent in lay.Dirs() && q.parent < 512
    ensures Ready(s, c) && StillReads(s.img, Next(s, c).img, q)
  {
    ShellDir(s, lay);
    match c
    case MoveDown(name, ext, target) =>
      ScanIsMoveInto(s.img, lay, s.cur, name, ext, target);
      MoveDownReads(s, lay, name, ext, target, q);
    case MoveUpward(name, ext) => MoveUpwardReads(s, lay, name, ext, q);
    case NewName(name, ext, newName, newExt) => NewNameReads(s, lay, name, ext, newName, newExt, q);
    case _ =>
  }

  /** A guarded command keeps the answer of every name it does not touch. */
  lemma StepKeepsReads(s: Shell, c: Command, q: Request)
    requires Ok(s) && Guard(s, c) && !Touches(s, c, q) && q.parent < 512 && IsDirectory(s.img, q.parent)
    ensures Ready(s, c) && StillReads(s.img, Next(s, c).img, q)
  {
    var lay :| ShellOk(s, lay);
    IsDirectoryIn(s.img, lay, q.parent);
    DirRange(MetaOf(s.img), lay);
    if Served(c) {
      ServedReads(s, lay, c, q);
    } else {
      MovesRead(s, lay, c, q);
    }
  }

  // ---- A run -------------------------------------------------------------------------------------

  /** No command up to the `n`-th touches the name. */
  ghost predicate Untouched(states: seq<Shell>, commands: seq<Command>, q: Request, n: nat) {
    && n <= |commands| && n <= |states|
    && forall i {:trigger LeavesAlone(states, commands, q, i)} :: 0 <= i < n ==> LeavesAlone(states, commands, q, i)
  }

  ghost predicate LeavesAlone(states: seq<Shell>, commands: seq<Command>, q: Request, i: nat) {
    i < |commands| && i < |states| && CdReady(states[i]) && !Touches(states[i], commands[i], q)
  }

  lemma RunReadsStep(states: seq<Shell>, commands: seq<Command>, q: Request, i: nat, img: Image)
    requires Run(states, commands) && 0 < i < |states| && Ok(states[i - 1]) && q.parent < 512
    requires LeavesAlone(states, commands, q, i - 1) && StillReads(img, states[i - 1].img, q)
    ensures StillReads(img, states[i].img, q)
  {
    assert RunsAt(states, commands, i - 1);
    StepKeepsReads(states[i - 1], commands[i - 1], q);
  }

  lemma UntouchedBefore(states: seq<Shell>, commands: seq<Command>, q: Request, n: nat)
    requires 0 < n && Untouched(states, commands, q, n)
    ensures Untouched(states, commands, q, n - 1) && LeavesAlone(states, commands, q, n - 1)
  {
  }

  /** What no command of a run touches reads at the end as it did at the start, and still has its
      directory. */
  lemma {:induction false} RunKeepsReads(states: seq<Shell>, commands: seq<Command>, q: Request, n: nat)
    requires Run(states, commands) && Ok(states[0]) && n < |states| && q.parent < 512
    requires IsDirectory(states[0].img, q.parent) && Untouched(states, commands, q, n)
    ensures StillReads(states[0].img, states[n].img, q)
    decreases n
  {
    if n > 0 {
      UntouchedBefore(states, commands, q, n);
      RunKeepsReads(states, commands, q, n - 1);
      RunKeepsOk(states, commands, n - 1);
      RunReadsStep(states, commands, q, n, states[0].img);
    }
  }
}
