/** How exact the guards of a run are: a command that can be carried out leaves shell and disk in order if
    and only if it is guarded, or idle. */
module Guards {
  import opened Format
  import opened Volume
  import opened Tree
  import opened Allocation
  import opened Storage
  import opened DriverSpec
  import opened WriteLimits
  import opened DeleteProofs
  import opened ShellSpec
  import opened MoveProofs
  import opened CwdProofs
  import opened CommandProofs
  import opened Reading
  import opened Limits
  import opened MoveLimits
  import opened Runs

  /** A command outside its guard that nevertheless touches nothing the tree uses. */
  ghost predicate Idle(s: Shell, c: Command)
    requires Ready(s, c)
  {
    match c
    case Put(r, _) => !IsDirectory(s.img, r.parent) && !Accepted(s.img, r)
    case Erase(r) => !IsDirectory(s.img, r.parent) && (Refused(s.img, r) || FreesNothing(s.img, r))
    case MoveDown(name, ext, target) =>
      && MoveIntoReady(s.img, s.cur, target)
      && MoveSlot(s.img, s.cur, name, ext) < 64 && TargetSlot(s.img, s.cur, target) < 64
      && MovesNothing(s.img, s.cur, name, ext, target)
    case MoveUpward(name, ext) => LiftsNothing(s, name, ext)
    case _ => false
  }

  // ---- Idle commands -------------------------------------------------------------------------

  lemma StaysInOrder(s: Shell, lay: Layout, img': Image)
    requires ShellOk(s, lay) && Undotted(s) && NoLeak(MetaOf(s.img), lay) && TreeStays(MetaOf(s.img), MetaOf(img'), lay)
    ensures Ok(s.(img := img')) && Sound(MetaOf(img'))
  {
    DirRange(MetaOf(s.img), lay);
    TakenFrame(MetaOf(s.img), MetaOf(img'), lay);
    assert Valid(MetaOf(img'), lay) && ShellOk(s.(img := img'), lay);
    forall d | d in s.stack
      ensures !DotDot(TableOf(img', d)[0].name)
    {
      OnPath(s, lay, d);
      assert MetaOf(img').tables[d] == MetaOf(s.img).tables[d];
    }
  }

  lemma NoDirectory(img: Image, lay: Layout, d: nat)
    requires Consistent(MetaOf(img), lay)
    ensures IsDirectory(img, d) <==> d in lay.Dirs()
  {
    if IsDirectory(img, d) {
      IsDirectoryIn(img, lay, d);
    }
  }

  lemma IdleDelete(img: Image, lay: Layout, r: Request)
    requires Valid(MetaOf(img), lay) && DeleteReady(img, r) && r.parent !in lay.Dirs()
    requires Refused(img, r) || FreesNothing(img, r)
    ensures TreeStays(MetaOf(img), MetaOf(DeleteOutcome(img, r).img), lay)
  {
    if Refused(img, r) {
      RefusedIff(img, r);
    } else if r.parent == 1 {
      Limits.MapAsParent(img, lay, r);
    } else {
      StrayDelete(img, lay, r);
    }
  }

  lemma IdleMove(img: Image, lay: Layout, cur: nat, name: Name, ext: Ext, target: Name)
    requires Valid(MetaOf(img), lay) && cur in lay.Dirs() && MoveIntoReady(img, cur, target)
    requires MoveSlot(img, cur, name, ext) < 64 && TargetSlot(img, cur, target) < 64
    requires MovesNothing(img, cur, name, ext, target)
    ensures TreeStays(MetaOf(img), MetaOf(MoveInto(img, cur, name, ext, target)), lay)
  {
    var l, c := NothingMoves(img, lay, cur, name, ext, target);
    DroppedNothing(img, lay, l, c, name, ext);
  }

  /** With nothing to take out and nowhere to put it, `mv name /..` goes up and comes back. */
  lemma IdleLift(s: Shell, lay: Layout, name: Name, ext: Ext)
    requires ShellOk(s, lay) && Undotted(s) && CdReady(s) && MoveSlot(s.img, s.cur, name, ext) < 64
    requires LiftsNothing(s, name, ext)
    ensures MoveUpReady(s, name, ext) && MoveUp(s, name, ext) == s
  {
    var l := UpFrom(s, name, ext);
    ShellDir(s, lay);
    MoveUpDrops(s, lay, name, ext);
    MovedSlot(s.img, lay, l);
    ClearedNothing(s.img, l);
    LiftedIs(s, name, ext);
    UpAndOwnNameReturnsIff(s, lay);
    assert s.cur in s.stack;
  }

  lemma IdleKeeps(s: Shell, lay: Layout, c: Command)
    requires ShellOk(s, lay) && Undotted(s) && NoLeak(MetaOf(s.img), lay) && Ready(s, c) && Idle(s, c)
    ensures Ok(Next(s, c)) && Sound(MetaOf(Next(s, c).img))
  {
    match c
    case Put(r, data) => StaysInOrder(s, lay, s.img);
    case Erase(r) =>
      NoDirectory(s.img, lay, r.parent);
      IdleDelete(s.img, lay, r);
      StaysInOrder(s, lay, DeleteOutcome(s.img, r).img);
    case MoveDown(name, ext, target) =>
      ShellDir(s, lay);
      ScanIsMoveInto(s.img, lay, s.cur, name, ext, target);
      IdleMove(s.img, lay, s.cur, name, ext, target);
      StaysInOrder(s, lay, MoveInto(s.img, s.cur, name, ext, target));
    case MoveUpward(name, ext) =>
      IdleLift(s, lay, name, ext);
      StaysInOrder(s, lay, s.img);
    case _ =>
  }

  // ---- Commands that leave all in order --------------------------------------------------------

  /** A disk has one layout, so the shell is in order in that one or in none. */
  lemma OkInLayout(s: Shell, lay: Layout)
    requires Ok(s) && Consistent(MetaOf(s.img), lay)
    ensures ShellOk(s, lay)
  {
    var lay' :| ShellOk(s, lay');
    LayoutUnique(MetaOf(s.img), lay, lay');
  }

  lemma GuardedChange(s: Shell, lay: Layout, name: Name)
    requires ShellOk(s, lay) && CdReady(s) && s.cur < 512 && Ok(Cd(s, name).0)
    ensures ChangeGuard(s, name)
  {
    CdKeepsImage(s, name);
    OkInLayout(Cd(s, name).0, lay);
    CdKeepsShellIff(s, lay, name);
  }

  /** No directory on the stack has a free cell. */
  lemma StackIsTaken(s: Shell, d: nat)
    requires Ok(s) && d in s.stack
    ensures d < 512 && FatOf(s.img)[d] != 0
  {
    var lay :| ShellOk(s, lay);
    OnPath(s, lay, d);
    DirsAreTaken(MetaOf(s.img), lay, d);
  }

  lemma FreedHead(img: Image, lay: Layout, r: Request)
    requires Consistent(MetaOf(img), lay) && r.parent in lay.Dirs() && r.parent < 512 && SafeTarget(img, r)
    requires DeleteReady(img, r) && DeleteOutcome(img, r).code == 0
    ensures var d := HeadOf(TableOf(img, r.parent)[Target(img, r)]); d < 512 && FatOf(DeleteOutcome(img, r).img)[d] == 0
  {
    var l := Loc(r.parent, Target(img, r));
    var ch := lay.chains[l];
    TargetChain(img, lay, r);
    SafeOutcome(img, lay, r);
    DirRange(MetaOf(img), lay);
    UnlinkCells(FatOf(img), ch, |ch|);
    RemovedMeta(img, Unlink(FatOf(img), ch, |ch|), l);
    assert ch[0] == HeadOf(TableOf(img, r.parent)[Target(img, r)]);
  }

  lemma GuardedErase(s: Shell, lay: Layout, r: Request)
    requires ShellOk(s, lay) && NoLeak(MetaOf(s.img), lay) && r.parent in lay.Dirs() && DeleteReady(s.img, r)
    requires var img' := DeleteOutcome(s.img, r).img; Ok(s.(img := img')) && Sound(MetaOf(img'))
    ensures EraseGuard(s, r)
  {
    var img' := DeleteOutcome(s.img, r).img;
    DeleteIsSoundIff(s.img, lay, r);
    RefusedIff(s.img, r);
    if !Refused(s.img, r) {
      FreedHead(s.img, lay, r);
      if HeadOf(TableOf(s.img, r.parent)[Target(s.img, r)]) in s.stack {
        StackIsTaken(s.(img := img'), HeadOf(TableOf(s.img, r.parent)[Target(s.img, r)]));
      }
    }
  }

  lemma GuardedServed(s: Shell, lay: Layout, c: Command)
    requires ShellOk(s, lay) && NoLeak(MetaOf(s.img), lay) && Ready(s, c) && Served(c)
    requires Ok(Next(s, c)) && Sound(MetaOf(Next(s, c).img))
    ensures Guard(s, c) || Idle(s, c)
  {
    ShellDir(s, lay);
    match c
    case Change(name) => GuardedChange(s, lay, name);
    case Put(r, data) =>
      NoDirectory(s.img, lay, r.parent);
      WriteIsSoundIff(s.img, lay, r, data);
    case Erase(r) =>
      NoDirectory(s.img, lay, r.parent);
      DeleteIsSoundIff(s.img, lay, r);
      if r.parent in lay.Dirs() {
        GuardedErase(s, lay, r);
      }
    case Copy(name, ext, newName, newExt) =>
    case Remove(name, ext) =>
      if Match(s.img, s.cur, name, ext) < 64 {
        GuardedErase(s, lay, RmRequest(s.img, s.cur, name, ext));
      }
    case _ =>
  }

  lemma GuardedMove(s: Shell, lay: Layout, c: Command)
    requires ShellOk(s, lay) && NoLeak(MetaOf(s.img), lay) && Ready(s, c) && !Served(c)
    requires Sound(MetaOf(Next(s, c).img))
    ensures Guard(s, c) || Idle(s, c)
  {
    ShellDir(s, lay);
    match c
    case MoveDown(name, ext, target) =>
      ScanIsMoveInto(s.img, lay, s.cur, name, ext, target);
      MoveIntoIsSoundIff(s.img, lay, s.cur, name, ext, target);
    case MoveUpward(name, ext) => MoveUpIsSoundIff(s, lay, name, ext);
    case NewName(name, ext, newName, newExt) => RenameIsSoundIff(s.img, lay, s.cur, name, ext, newName, newExt);
    case _ =>
  }

  /** From a sound disk and a shell in order, any command the code can carry out ends with both in order
      if and only if it is guarded, or touches nothing the tree uses. */
  lemma GuardIsExact(s: Shell, c: Command)
    requires Ok(s) && Sound(MetaOf(s.img)) && Ready(s, c)
    ensures Ok(Next(s, c)) && Sound(MetaOf(Next(s, c).img)) <==> Guard(s, c) || Idle(s, c)
  {
    var lay0 :| ShellOk(s, lay0);
    var lay :| Valid(MetaOf(s.img), lay);
    LayoutUnique(MetaOf(s.img), lay0, lay);
    if Guard(s, c) {
      StepKeepsOk(s, c);
      NoLeakSound(s.img, Next(s, c).img);
    } else if Idle(s, c) {
      IdleKeeps(s, lay, c);
    } else if Ok(Next(s, c)) && Sound(MetaOf(Next(s, c).img)) {
      if Served(c) {
        GuardedServed(s, lay, c);
      } else {
        GuardedMove(s, lay, c);
      }
    }
  }

  // ---- What the code needs -----------------------------------------------------------------------

  /** In order, the code can carry out every `cd`, `rm` and `mv` that finds what it moves, `cp` of files of
      four clusters at most into enough free space, `write` with enough of it, and `delete` of what is
      not a free slot or cell. */
  lemma ReadyIff(s: Shell, c: Command)
    requires Ok(s) && Sound(MetaOf(s.img))
    ensures s.cur < 512
    ensures Ready(s, c) <==>
            match c
            case Put(r, data) => |data| == r.size && WriteReady(s.img, r)
            case Erase(r) => r.parent < 512 && Walkable(s.img, r)
            case Copy(name, ext, newName, newExt) =>
              Match(s.img, s.cur, name, ext) < 64 ==>
                && TableOf(s.img, s.cur)[Match(s.img, s.cur, name, ext)].size <= 2048 * 4
                && WriteReady(s.img, CpRequest(s.img, s.cur, name, ext, newName, newExt))
            case MoveUpward(name, ext) => MoveSlot(s.img, s.cur, name, ext) < 64
            case _ => true
  {
    var lay0 :| ShellOk(s, lay0);
    var lay :| Valid(MetaOf(s.img), lay);
    LayoutUnique(MetaOf(s.img), lay0, lay);
    ShellDir(s, lay);
    match c
    case Erase(r) =>
      if r.parent < 512 {
        DeleteReadyIff(s.img, lay, r);
      }
    case Copy(name, ext, newName, newExt) =>
      if Match(s.img, s.cur, name, ext) < 64 {
        CopyBuffer(s.img, lay, s.cur, name, ext);
      }
    case Remove(name, ext) => RemoveIsReady(s.img, lay, s.cur, name, ext);
    case MoveDown(name, ext, target) => ScanIsMoveInto(s.img, lay, s.cur, name, ext, target);
    case MoveUpward(name, ext) =>
      if MoveSlot(s.img, s.cur, name, ext) < 64 {
        MoveUpDrops(s, lay, name, ext);
      }
    case NewName(name, ext, newName, newExt) => RenameIsSoundIff(s.img, lay, s.cur, name, ext, newName, newExt);
    case _ =>
  }

  lemma RemoveIsReady(img: Image, lay: Layout, cur: nat, name: Name, ext: Ext)
    requires Consistent(MetaOf(img), lay) && cur in lay.Dirs() && cur < 512
    ensures RmReady(img, cur, name, ext)
  {
    var m := Match(img, cur, name, ext);
    if m < 64 {
      DirTableOk(img, lay, cur);
      MatchIsPair(TableOf(img, cur), cur, name, ext);
      DeleteReadyInDirectory(img, lay, RmRequest(img, cur, name, ext));
    }
  }
}
