/** The shell over the driver: `cd`, `mkdir`, `cp`, `rm` and `mv`, each proved to do what its
    specification says to the disk, the current directory and the stack. */
module Shell {
  import opened Format
  import opened Storage
  import opened DriverSpec
  import opened ShellSpec
  import opened DirectoryStacks
  import V = Driver

  class UserShell {
    const driver: V.Driver
    const stack: CurrentDirStack
    var cur: nat

    ghost predicate Valid()
      reads this, driver, driver.disk, stack
    {
      && driver.Valid() && stack.Valid()
      && stack.cells as object !in {driver.disk.image, driver.fat, driver.dirBuf}
      && stack.names as object !in {driver.disk.image, driver.fat, driver.dirBuf}
    }

    ghost function State(): ShellSpec.Shell
      reads this, driver, driver.disk, driver.disk.image, stack, stack.cells
      requires Valid()
    {
      ShellSpec.Shell(driver.View(), cur, stack.Stack())
    }

    /** The cached map is the one on the disk, as after mounting. */
    ghost predicate Synced()
      reads this, driver, driver.disk, driver.disk.image, driver.fat, stack
      requires Valid()
    {
      driver.fat[..] == FatOf(driver.View())
    }

    constructor (driver: V.Driver)
      requires driver.Valid()
      ensures Valid() && this.driver == driver && fresh(stack) && fresh(stack.cells) && fresh(stack.names)
      ensures State() == ShellSpec.Shell(driver.View(), ROOT, [ROOT]) && |stack.Names()| == 1
    {
      this.driver := driver;
      stack := new CurrentDirStack();
      cur := ROOT;
    }

    /** The table of the current directory, in a buffer of the command's own. */
    method LoadCurrent(c: nat) returns (t: array<Entry>)
      requires Valid() && c < 2048
      ensures fresh(t) && t.Length == 64 && t[..] == TableOf(driver.View(), c)
    {
      t := new Entry[64](_ => ZERO_ENTRY);
      driver.LoadTable(t, c);
    }

    /** 0 success, 1 failure. */
    method Cd(path: Name) returns (code: int)
      requires Valid() && CdReady(State()) && stack.top < 255
      modifies `cur, stack`top, stack.cells, stack.names
      ensures Valid() && State() == ShellSpec.Cd(old(State()), path).0
      ensures code == if ShellSpec.Cd(old(State()), path).1 then 0 else 1
      ensures stack.Names() == CdNames(old(State()), path, old(stack.Names()))
      ensures DotDot(path) ==> stack.top <= old(stack.top)
    {
      var t := LoadCurrent(cur);
      if path[0] == '.' as int && path[1] == '.' as int {
        if cur == ROOT {
          return 1;
        }
        var popped := stack.Pop();
        cur := stack.Top();
        return 0;
      }
      var i := driver.Find(t, ByLivePair(path, NO_EXT), 1);
      if i < 64 {
        cur := HeadOf(t[i]);
        stack.Push(cur, path);
        return 0;
      }
      return 1;
    }

    /** One `cd` per component; stops at the first that fails. */
    method MultiCd(names: seq<Name>)
      requires Valid() && |names| > 0 && MultiCdReady(State(), names) && stack.top + |names| < 256
      modifies `cur, stack`top, stack.cells, stack.names
      ensures Valid() && State() == ShellSpec.MultiCd(old(State()), names)
      ensures stack.Names() == MultiCdNames(old(State()), names, old(stack.Names()))
      decreases |names|
    {
      var code := Cd(names[0]);
      if |names| > 1 && code == 0 {
        MultiCd(names[1..]);
      }
    }

    method Mkdir(name: Name) returns (code: int)
      requires Valid() && WriteReady(driver.View(), Request(name, NO_EXT, cur, 0))
      modifies driver.fat, driver.dirBuf, driver.disk.image, driver.disk`log
      ensures Valid() && (cur != 1 ==> Synced())
      ensures Outcome(code, driver.View()) == WriteOutcome(old(driver.View()), Request(name, NO_EXT, cur, 0), [])
    {
      var nothing := new byte[0];
      code := driver.Write(Request(name, NO_EXT, cur, 0), nothing);
    }

    /** Deletes with the matched entry's size, which picks the mode of `delete`; -2 when nothing
        matches. */
    method Rm(name: Name, ext: Ext) returns (code: int)
      requires Valid() && RmReady(driver.View(), cur, name, ext)
      modifies driver.fat, driver.dirBuf, driver.disk.image, driver.disk`log
      ensures Valid() && driver.View() == ShellSpec.Rm(old(driver.View()), cur, name, ext).img
      ensures old(Synced()) && cur != 1 ==> Synced()
      ensures Match(old(driver.View()), cur, name, ext) < 64
              ==> code == ShellSpec.Rm(old(driver.View()), cur, name, ext).code
    {
      var t := LoadCurrent(cur);
      var m := driver.Find(t, ByLivePair(name, ext), 1);
      if m == 64 {
        return -2;
      }
      code := driver.Delete(Request(name, ext, cur, t[m].size));
    }

    /** Reads the matched file into a buffer of four clusters and writes it under the new name; -2
        when nothing matches. */
    method Cp(name: Name, ext: Ext, newName: Name, newExt: Ext) returns (code: int)
      requires Valid() && CpReady(driver.View(), cur, name, ext, newName, newExt)
      requires Match(driver.View(), cur, name, ext) < 64 ==> CpFits(driver.View(), cur, name, ext)
      modifies driver.fat, driver.dirBuf, driver.disk.image, driver.disk`log
      ensures Valid() && driver.View() == ShellSpec.Cp(old(driver.View()), cur, name, ext, newName, newExt).img
      ensures old(Synced()) && cur != 1 ==> Synced()
      ensures Match(old(driver.View()), cur, name, ext) < 64
              ==> code == ShellSpec.Cp(old(driver.View()), cur, name, ext, newName, newExt).code
    {
      ghost var img := driver.View();
      var t := LoadCurrent(cur);
      var m := driver.Find(t, ByLivePair(name, ext), 1);
      if m == 64 {
        return -2;
      }
      var size := t[m].size;
      var cbuf := new byte[8192];
      var read := driver.Read(Request(name, ext, cur, size), cbuf);
      assert cbuf[..size] == CpData(img, cur, name, ext);
      code := driver.Write(Request(newName, newExt, cur, size), cbuf);
    }

    // ---- mv, with raw cluster writes past the driver ---------------------------------------

    /** Changes one slot of a table read earlier and writes the table. */
    method StoreSlot(t: array<Entry>, i: nat, e: Entry, to: nat)
      requires Valid() && t.Length == 64 && i < 64 && to < 2048 && t as object != driver.disk.image
      modifies t, driver.disk.image, driver.disk`log
      ensures t[..] == old(t[..])[i := e] && driver.View() == PutTable(old(driver.View()), to, t[..])
      ensures driver.disk.log == old(driver.disk.log) + [driver.View()]
    {
      ghost var img, t0 := driver.View(), t[..];
      t[i] := e;
      assert t[..] == t0[i := e] && driver.View() == img;
      driver.StoreTable(t, to);
    }

    /** Puts the entry into the first free slot of `t`, the table read at `from`, and writes it. */
    method DepositInto(t: array<Entry>, from: nat, to: nat, e: Entry, name: Name, ext: Ext)
      requires Valid() && t.Length == 64 && from < 2048 && to < 2048
      requires t as object != driver.disk.image && t[..] == TableOf(driver.View(), from)
      modifies t, driver.disk.image, driver.disk`log
      ensures driver.View() == Deposit(old(driver.View()), from, to, e, name, ext)
      ensures driver.disk.log == old(driver.disk.log) + DepositSteps(old(driver.View()), from, to, e, name, ext)
    {
      var o := driver.Find(t, FreeSlot, 1);
      if o < 64 {
        StoreSlot(t, o, MovedEntry(t[o], e, name, ext), to);
      }
    }

    /** `mv name newname`: both tables are read before either is written back. */
    method MvRename(name: Name, ext: Ext, newName: Name, newExt: Ext)
      requires Valid() && RenameReady(driver.View(), cur, name, ext)
      modifies driver.disk.image, driver.disk`log
      ensures Valid() && driver.View() == Rename(old(driver.View()), cur, name, ext, newName, newExt)
      ensures driver.fat[..] == old(driver.fat[..])
      ensures var m := Match(old(driver.View()), cur, name, ext);
              driver.disk.log == old(driver.disk.log)
                + if m == 64 then [] else [RenameHalf(old(driver.View()), cur, m, newName, newExt), driver.View()]
    {
      var t := LoadCurrent(cur);
      var m := driver.Find(t, ByLivePair(name, ext), 1);
      if m < 64 {
        var location := HeadOf(t[m]);
        var t2 := LoadCurrent(location);
        StoreSlot(t, m, RenamedEntry(t[m], newName, newExt), cur);
        StoreSlot(t2, 0, RenamedEntry(t2[0], newName, newExt), location);
      }
    }

    /** The target has been found in slot `m`: look for the entry, deposit it there, clear it here. */
    method MoveFound(t: array<Entry>, m: nat, name: Name, ext: Ext)
      requires Valid() && t.Length == 64 && cur < 512 && m < 64 && HeadOf(t[m]) < 2048
      requires t as object != driver.disk.image
      modifies t, driver.disk.image, driver.disk`log
      ensures (driver.View(), t[..]) == MoveOnto(old(driver.View()), cur, old(t[..]), m, name, ext)
      ensures driver.disk.log
              == old(driver.disk.log) + MoveOntoSteps(old(driver.View()), cur, old(t[..]), m, name, ext)
    {
      var n := driver.Find(t, ByPair(name, ext), 1);
      if n < 64 {
        var location, e := HeadOf(t[m]), t[n];
        var t2 := LoadCurrent(location);
        DepositInto(t2, location, location, e, name, ext);
        StoreSlot(t, n, ClearedEntry(e), cur);
      }
    }

    /** One round of the outer scan: the move, if slot `m` is a target. */
    method MvRound(t: array<Entry>, m: nat, name: Name, ext: Ext, target: Name)
      requires Valid() && t.Length == 64 && cur < 512 && 1 <= m < 64 && t as object != driver.disk.image
      requires TargetsReadable(t[..], target)
      modifies t, driver.disk.image, driver.disk`log
      ensures TargetsReadable(t[..], target)
      ensures MoveScan(driver.View(), cur, t[..], m + 1, name, ext, target)
              == MoveScan(old(driver.View()), cur, old(t[..]), m, name, ext, target)
      ensures driver.disk.log + MoveSteps(driver.View(), cur, t[..], m + 1, name, ext, target)
              == old(driver.disk.log) + MoveSteps(old(driver.View()), cur, old(t[..]), m, name, ext, target)
    {
      if Hits(ByLivePair(target, NO_EXT), t[m]) {
        MoveFound(t, m, name, ext);
      }
    }

    /** `mv name /target`. The outer scan goes on after a match. */
    method MvInto(name: Name, ext: Ext, target: Name)
      requires Valid() && cur < 512 && TargetsReadable(TableOf(driver.View(), cur), target)
      modifies driver.disk.image, driver.disk`log
      ensures Valid() && driver.fat[..] == old(driver.fat[..])
      ensures driver.View()
              == MoveScan(old(driver.View()), cur, TableOf(old(driver.View()), cur), 1, name, ext, target)
      ensures driver.disk.log
              == old(driver.disk.log)
                 + MoveSteps(old(driver.View()), cur, TableOf(old(driver.View()), cur), 1, name, ext, target)
    {
      ghost var img, f, log := driver.View(), driver.fat[..], driver.disk.log;
      var t := LoadCurrent(cur);
      ghost var t0: Table := t[..];
      for m := 1 to 64
        invariant TargetsReadable(t[..], target) && driver.fat[..] == f
        invariant MoveScan(driver.View(), cur, t[..], m, name, ext, target)
                  == MoveScan(img, cur, t0, 1, name, ext, target)
        invariant driver.disk.log + MoveSteps(driver.View(), cur, t[..], m, name, ext, target)
                  == log + MoveSteps(img, cur, t0, 1, name, ext, target)
      {
        MvRound(t, m, name, ext, target);
      }
    }

    /** Finds the entry in the current table and clears it, if it is there; what was not found is a
        size of 0 and an uninitialised cluster. Also remembers the name to come back by. */
    method TakeOut(name: Name, ext: Ext, junk: u16) returns (e: Entry, temporal: Name)
      requires Valid() && cur < 512
      modifies driver.disk.image, driver.disk`log
      ensures Valid() && driver.fat[..] == old(driver.fat[..])
      ensures temporal == TableOf(old(driver.View()), cur)[0].name
      ensures var t, n := TableOf(old(driver.View()), cur), MoveSlot(old(driver.View()), cur, name, ext);
              if n < 64 then
                e == t[n] && driver.View() == PutTable(old(driver.View()), cur, t[n := ClearedEntry(t[n])])
                && driver.disk.log == old(driver.disk.log) + [driver.View()]
              else
                e == ZERO_ENTRY.(low := junk) && driver.View() == old(driver.View())
                && driver.disk.log == old(driver.disk.log)
    {
      var t := LoadCurrent(cur);
      temporal := t[0].name;
      e := ZERO_ENTRY.(low := junk);
      var n := driver.Find(t, ByPair(name, ext), 1);
      if n < 64 {
        e := t[n];
        StoreSlot(t, n, ClearedEntry(e), cur);
      }
    }

    /** ... and goes up. */
    method LiftOut(name: Name, ext: Ext, junk: u16) returns (e: Entry, temporal: Name)
      requires Valid() && CdReady(State()) && stack.top < 255
      modifies `cur, stack`top, stack.cells, stack.names, driver.disk.image, driver.disk`log
      ensures Valid() && driver.fat[..] == old(driver.fat[..]) && stack.top <= old(stack.top)
      ensures stack.Names() == CdNames(old(State()), UP, old(stack.Names()))
      ensures temporal == TableOf(old(driver.View()), old(cur))[0].name
      ensures State() == Gone(old(State()), name, ext) && e == Taken(old(State()), name, ext, junk)
      ensures driver.disk.log == old(driver.disk.log) + GoneSteps(old(State()), name, ext)
    {
      ghost var s, names := State(), stack.Names();
      e, temporal := TakeOut(name, ext, junk);
      assert State() == s.(img := driver.View()) && DotDot(UP) && stack.Names() == names;
      var code := Cd(UP);
    }

    /** Puts the entry where slot 0 says "here" is. */
    method DepositHere(e: Entry, name: Name, ext: Ext)
      requires Valid() && cur < 512 && HeadOf(TableOf(driver.View(), cur)[0]) < 2048
      modifies driver.disk.image, driver.disk`log
      ensures Valid() && driver.fat[..] == old(driver.fat[..])
      ensures var img, there := old(driver.View()), HeadOf(TableOf(old(driver.View()), cur)[0]);
              && driver.View() == Deposit(img, cur, there, e, name, ext)
              && driver.disk.log == old(driver.disk.log) + DepositSteps(img, cur, there, e, name, ext)
    {
      var t2 := LoadCurrent(cur);
      DepositInto(t2, cur, HeadOf(t2[0]), e, name, ext);
    }

    /** Clear here, go up, deposit there. */
    method CarryUp(name: Name, ext: Ext, junk: u16) returns (temporal: Name)
      requires Valid() && UpReady(State(), name, ext) && stack.top < 255
      modifies `cur, stack`top, stack.cells, stack.names, driver.disk.image, driver.disk`log
      ensures Valid() && driver.fat[..] == old(driver.fat[..]) && stack.top <= old(stack.top)
      ensures temporal == TableOf(old(driver.View()), old(cur))[0].name
      ensures State() == UpThere(old(State()), name, ext, junk)
      ensures stack.Names() == CdNames(old(State()), UP, old(stack.Names()))
      ensures driver.disk.log == old(driver.disk.log) + UpSteps(old(State()), name, ext, junk)
    {
      var e;
      e, temporal := LiftOut(name, ext, junk);
      ghost var up, names := State(), stack.Names();
      DepositHere(e, name, ext);
      assert State() == up.(img := driver.View()) && stack.Names() == names;
    }

    /** `mv name /..`: and come back by the name in slot 0. A name that is not there leaves the moved
        cluster uninitialised: `junk` stands for its value. */
    method MvUp(name: Name, ext: Ext, junk: u16)
      requires Valid() && UpReady(State(), name, ext) && stack.top < 255
      modifies `cur, stack`top, stack.cells, stack.names, driver.disk.image, driver.disk`log
      ensures Valid() && driver.fat[..] == old(driver.fat[..])
      ensures if MoveSlot(old(driver.View()), old(cur), name, ext) < 64 then State() == MoveUp(old(State()), name, ext)
              else State() == MoveUpMissing(old(State()), name, ext, junk)
      ensures stack.Names() == UpNames(old(State()), name, ext, junk, old(stack.Names()))
      ensures driver.disk.log == old(driver.disk.log) + UpSteps(old(State()), name, ext, junk)
    {
      var temporal := CarryUp(name, ext, junk);
      var code := Cd(temporal);
    }
  }
}
