/** A session: the shell's methods carry out every guarded command, and do what the steps of a run
    say. */
module Session {
  import opened Format
  import opened Storage
  import opened DriverSpec
  import opened Mounting
  import opened ShellSpec
  import opened Runs
  import P = Paths
  import D = DirectoryStacks
  import S = Shell
  import V = Driver

  /** The shell and its disk are in order, the cached map is the one on the disk, and the directories
      on the stack were entered by the names they have. */
  ghost predicate InOrder(sh: S.UserShell)
    reads sh, sh.driver, sh.driver.disk, sh.driver.disk.image, sh.driver.fat, sh.stack, sh.stack.cells, sh.stack.names
  {
    sh.Valid() && sh.Synced() && Ok(sh.State()) && EnteredBy(sh.State(), sh.stack.Names())
  }

  /** Mounts the disk and starts the shell on it, in order whatever the disk held: on a signed one some
      layout has to describe it, any other is formatted. */
  method Start(driver: V.Driver) returns (sh: S.UserShell)
    requires driver.Valid()
    requires if Signed(driver.View()) then Usable(MetaOf(driver.View())) else CleanCache(driver.fat[..])
    modifies driver.fat, driver.disk.image, driver.disk`log
    ensures fresh(sh) && sh.driver == driver && InOrder(sh)
    ensures sh.State() == Shell(Initialized(old(driver.View()), old(driver.fat[..])), ROOT, [ROOT])
  {
    MountedIsOk(driver.View(), driver.fat[..]);
    driver.Initialize();
    sh := new S.UserShell(driver);
  }

  /** A write for a caller that hands its data over in a buffer of its own. */
  method PutData(sh: S.UserShell, r: Request, data: seq<byte>)
    requires sh.Valid() && PutGuard(sh.driver.View(), r, data)
    modifies sh.driver.fat, sh.driver.dirBuf, sh.driver.disk.image, sh.driver.disk`log
    ensures sh.Valid() && sh.driver.View() == WriteOutcome(old(sh.driver.View()), r, data).img
    ensures r.parent != 1 ==> sh.Synced()
  {
    var buf := new byte[|data|](i requires 0 <= i < |data| => data[i]);
    assert buf[..r.size] == data;
    var code := sh.driver.Write(r, buf);
  }

  /** The commands that go through the driver. */
  method Serve(sh: S.UserShell, c: Command)
    requires sh.Valid() && sh.Synced() && Ready(sh.State(), c) && Served(c) && sh.cur != 1
    requires (c.Put? || c.Erase?) ==> c.request.parent != 1
    requires sh.stack.top < 255
    modifies sh`cur, sh.stack`top, sh.stack.cells, sh.stack.names
    modifies sh.driver.fat, sh.driver.dirBuf, sh.driver.disk.image, sh.driver.disk`log
    ensures sh.Valid() && sh.Synced() && sh.State() == Next(old(sh.State()), c)
    ensures sh.stack.Names() == NextNames(old(sh.State()), c, old(sh.stack.Names()))
  {
    match c {
      case Change(name) => var code := sh.Cd(name);
      case Put(r, data) => PutData(sh, r, data);
      case Erase(r) => var code := sh.driver.Delete(r);
      case Copy(name, ext, newName, newExt) => var code := sh.Cp(name, ext, newName, newExt);
      case Remove(name, ext) => var code := sh.Rm(name, ext);
    }
  }

  /** The three forms of `mv`, which leave the cached map alone. */
  method Move(sh: S.UserShell, c: Command)
    requires sh.Valid() && Ready(sh.State(), c) && !Served(c) && sh.stack.top < 255
    modifies sh`cur, sh.stack`top, sh.stack.cells, sh.stack.names, sh.driver.disk.image, sh.driver.disk`log
    ensures sh.Valid() && sh.State() == Next(old(sh.State()), c) && sh.driver.fat[..] == old(sh.driver.fat[..])
    ensures sh.stack.Names() == NextNames(old(sh.State()), c, old(sh.stack.Names()))
  {
    match c {
      case MoveDown(name, ext, target) => sh.MvInto(name, ext, target);
      case MoveUpward(name, ext) => sh.MvUp(name, ext, 0);
      case NewName(name, ext, newName, newExt) => sh.MvRename(name, ext, newName, newExt);
    }
  }

  /** A guarded command can be carried out, whatever state the session is in: no search runs off
      its array, no buffer or stack overflows. It does what the step of a run says, for the shell and
      for the names entered; everything stays in order, and the cached map stays the one a new mount
      would load. */
  method Do(sh: S.UserShell, c: Command)
    requires InOrder(sh) && Guard(sh.State(), c)
    modifies sh`cur, sh.stack`top, sh.stack.cells, sh.stack.names
    modifies sh.driver.fat, sh.driver.dirBuf, sh.driver.disk.image, sh.driver.disk`log
    ensures InOrder(sh) && StepAllowed(old(sh.State()), c, sh.State())
    ensures sh.stack.Names() == NextNames(old(sh.State()), c, old(sh.stack.Names()))
  {
    ghost var s := sh.State();
    SessionBounds(s, c);
    StepKeepsOk(s, c);
    StepKeepsNames(s, c, sh.stack.Names());
    if Served(c) {
      Serve(sh, c);
    } else {
      Move(sh, c);
    }
  }

  lemma PlainPrompt(s: Shell, names: seq<seq<byte>>, entered: seq<seq<byte>>) returns (path: seq<Name>)
    requires Ok(s) && EnteredBy(s, names) && |names| > 0 && entered == D.EnteredTo(names, |names| - 1)
    requires forall i :: 0 < i < |names| ==> |names[i]| == 8 && P.Plain(names[i])
    ensures path == PathNames(s.img, s.stack) && P.Parse(P.Print(entered)) == P.Parsed(path, true)
    ensures forall i :: 0 <= i < |entered| ==> P.Proper(entered[i])
    ensures MultiCdReady(Shell(s.img, ROOT, [ROOT]), path) && MultiCd(Shell(s.img, ROOT, [ROOT]), path) == s
  {
    path := PathNames(s.img, s.stack);
    PromptOfOk(s, names);
    forall i | 0 <= i < |path|
      ensures P.Plain(path[i])
    {
      assert path[i] == names[i + 1];
    }
    forall i | 0 <= i < |entered|
      ensures P.Proper(entered[i])
    {
      assert P.Plain(names[i + 1]) && entered[i] == P.Text(names[i + 1]);
    }
  }

  /** The path on the prompt, printed, split and walked: when it fits the buffer and the names entered
      are plain, these are the names that lead from the root back to the shell. */
  method WalkBack(sh: S.UserShell) returns (names: seq<Name>, valid: bool)
    requires InOrder(sh) && |P.Print(sh.stack.Entered())| < 255
    requires forall i :: 0 < i < |sh.stack.Names()| ==> |sh.stack.Names()[i]| == 8 && P.Plain(sh.stack.Names()[i])
    ensures valid && names == PathNames(sh.driver.View(), sh.stack.Stack())
    ensures var root := Shell(sh.driver.View(), ROOT, [ROOT]);
            MultiCdReady(root, names) && MultiCd(root, names) == sh.State()
  {
    sh.stack.EnteredIs();
    ghost var path := PlainPrompt(sh.State(), sh.stack.Names(), sh.stack.Entered());
    names, valid := D.WalkPrompt(sh.stack);
  }
}
