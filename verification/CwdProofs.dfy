/** The current directory and its stack: a real path from the root in every state, kept by `cd` and
    by both forms of `mv`. */
module CwdProofs {
  import opened Format
  import opened Volume
  import opened Edits
  import opened Tree
  import opened Allocation
  import opened Storage
  import opened DriverSpec
  import opened Reading
  import opened WriteProofs
  import opened DeleteProofs
  import opened ShellSpec
  import opened MoveProofs

  /** The disk is valid, the stack is the path from the root to the current directory. */
  ghost predicate ShellOk(s: Shell, lay: Layout) {
    && Consistent(MetaOf(s.img), lay)
    && IsPath(lay.home, AsPath(s.stack)) && s.stack[|s.stack| - 1] == s.cur
  }

  lemma ShellDir(s: Shell, lay: Layout)
    requires ShellOk(s, lay)
    ensures s.cur in lay.Dirs() && 2 <= s.cur < 512 && CdReady(s) && TableOk(TableOf(s.img, s.cur), s.cur)
    ensures s.cur != ROOT ==> s.cur in lay.home && |s.stack| >= 2 && lay.home[s.cur].dir == s.stack[|s.stack| - 2]
    ensures ROOT !in lay.home
  {
    if |s.stack| >= 2 {
      PathShrinks(lay.home, AsPath(s.stack));
    }
    DirTableOk(s.img, lay, s.cur);
  }

  /** The stack is never full: the directories on a path are distinct and each fits a byte. */
  lemma StackFits(s: Shell, lay: Layout)
    requires ShellOk(s, lay)
    ensures |s.stack| <= 254
  {
    PathIsDistinct(lay.home, AsPath(s.stack));
    forall i | 0 <= i < |s.stack|
      ensures 2 <= AsPath(s.stack)[i] < 256
    {
      PathEndsInDirs(MetaOf(s.img), lay, AsPath(s.stack), i);
    }
    Pigeonhole(AsPath(s.stack), 2, 256);
  }

  // ---- cd ----------------------------------------------------------------------------

  lemma CdUpKeepsShell(s: Shell, lay: Layout, name: Name)
    requires ShellOk(s, lay) && DotDot(name)
    ensures CdReady(s) && ShellOk(Cd(s, name).0, lay)
    ensures Cd(s, name).1 == (s.cur != ROOT)
    ensures s.cur != ROOT ==> s.cur in lay.home && Cd(s, name).0.cur == lay.home[s.cur].dir
  {
    if s.cur != ROOT {
      PathShrinks(lay.home, AsPath(s.stack));
    }
  }

  lemma CdKeepsImage(s: Shell, name: Name)
    requires CdReady(s)
    ensures Cd(s, name).0.img == s.img
  {
  }

  /** Going down lands on a directory the stack can hold: the match has size 0 and its cluster
      fits one byte. */
  predicate SafeCd(s: Shell, name: Name)
    requires s.cur < 512
  {
    && CdSlot(s, name) < 64
    && var e := TableOf(s.img, s.cur)[CdSlot(s, name)]; e.size == 0 && HeadOf(e) < 256
  }

  lemma CdDownStep(s: Shell, name: Name)
    requires CdReady(s) && !DotDot(name) && SafeCd(s, name)
    ensures var head := HeadOf(TableOf(s.img, s.cur)[CdSlot(s, name)]);
            Cd(s, name) == (Shell(s.img, head, s.stack + [head]), true)
  {
  }

  lemma SafeCdTarget(img: Image, lay: Layout, cur: nat, name: Name)
    requires Consistent(MetaOf(img), lay) && cur in lay.Dirs() && cur < 512
    requires var i := First(TableOf(img, cur), ByLivePair(name, NO_EXT), 1);
             i < 64 && TableOf(img, cur)[i].size == 0
    ensures var x := HeadOf(TableOf(img, cur)[First(TableOf(img, cur), ByLivePair(name, NO_EXT), 1)]);
            x in lay.home && lay.home[x].dir == cur
  {
    var l := Loc(cur, First(TableOf(img, cur), ByLivePair(name, NO_EXT), 1));
    LiveEntryFacts(img, lay, l);
  }

  lemma CdDownKeepsShell(s: Shell, lay: Layout, name: Name)
    requires ShellOk(s, lay) && !DotDot(name) && s.cur < 512 && SafeCd(s, name)
    ensures CdReady(s) && Cd(s, name).1 && ShellOk(Cd(s, name).0, lay)
    ensures Cd(s, name).0.cur in lay.home && lay.home[Cd(s, name).0.cur].dir == s.cur
  {
    ShellDir(s, lay);
    SafeCdTarget(s.img, lay, s.cur, name);
    CdDownStep(s, name);
    PathExtends(lay.home, AsPath(s.stack), HeadOf(TableOf(s.img, s.cur)[CdSlot(s, name)]));
  }

  /** The matched entry's cluster decides: the stack stays the path to the current directory if
      and only if the step fails, goes up, or is safe. */
  lemma CdKeepsShellIff(s: Shell, lay: Layout, name: Name)
    requires ShellOk(s, lay)
    ensures CdReady(s)
    ensures ShellOk(Cd(s, name).0, lay) <==> DotDot(name) || CdSlot(s, name) == 64 || SafeCd(s, name)
  {
    ShellDir(s, lay);
    if DotDot(name) {
      CdUpKeepsShell(s, lay, name);
    } else if CdSlot(s, name) < 64 {
      if SafeCd(s, name) {
        CdDownKeepsShell(s, lay, name);
      } else {
        UnsafeCd(s, lay, name);
      }
    }
  }

  lemma UnsafeCd(s: Shell, lay: Layout, name: Name)
    requires ShellOk(s, lay) && !DotDot(name) && CdReady(s) && CdSlot(s, name) < 64 && !SafeCd(s, name)
    ensures !ShellOk(Cd(s, name).0, lay)
  {
    ShellDir(s, lay);
    var l := Loc(s.cur, CdSlot(s, name));
    var e := TableOf(s.img, s.cur)[l.slot];
    LiveEntryFacts(s.img, lay, l);
    if e.size > 0 {
      assert At(MetaOf(s.img), l) == e;
      FileHeadIsNoDir(s.img, lay, l);
      if ShellOk(Cd(s, name).0, lay) {
        ShellDir(Cd(s, name).0, lay);
      }
    }
  }

  lemma FileHeadIsNoDir(img: Image, lay: Layout, l: Loc)
    requires Consistent(MetaOf(img), lay) && l in lay.chains && l.dir < 512 && l.slot < 64
    requires TableOf(img, l.dir)[l.slot].size > 0
    ensures HeadOf(TableOf(img, l.dir)[l.slot]) !in lay.Dirs()
  {
    EntryChain(MetaOf(img), lay, l);
    if lay.chains[l][0] in lay.Dirs() {
      FileAvoidsDirs(MetaOf(img), lay, l, lay.chains[l][0]);
    }
  }

  /** `cd name` and then `cd ..` comes back: same directory, same stack. */
  lemma CdThenUpReturns(s: Shell, lay: Layout, name: Name)
    requires ShellOk(s, lay) && !DotDot(name) && s.cur < 512 && SafeCd(s, name)
    ensures CdReady(s) && CdReady(Cd(s, name).0) && Cd(Cd(s, name).0, UP) == (s, true)
  {
    CdDownKeepsShell(s, lay, name);
  }

  // ---- mv name /target ---------------------------------------------------------------------

  /** A path to the parent of `x` stays one wherever `x` goes. */
  lemma PathWithout(home: map<nat, Loc>, p: seq<nat>, x: nat, k: Loc)
    requires WellFounded(home) && ROOT !in home && IsPath(home, p) && x in home && home[x].dir == p[|p| - 1]
    ensures IsPath(home[x := k], p)
  {
    PathAvoidsChild(home, p, x);
    PathFrame(home, home[x := k], p);
  }

  lemma RelocationKeepsPath(s: Shell, lay: Layout, l: Loc, k: Loc)
    requires ShellOk(s, lay) && l in lay.chains && l.dir == s.cur < 512 && l.slot < 64 && |lay.chains[l]| > 0
    ensures IsPath(MoveEntry(lay, l, k, TableOf(s.img, l.dir)[l.slot].size == 0).home, AsPath(s.stack))
  {
    if TableOf(s.img, l.dir)[l.slot].size == 0 {
      LiveEntryFacts(s.img, lay, l);
      ShellDir(s, lay);
      PathWithout(lay.home, AsPath(s.stack), lay.chains[l][0], k);
    }
  }

  lemma RelocationKeepsShell(s: Shell, lay: Layout, l: Loc, k: Loc)
    requires ShellOk(s, lay) && Movable(s.img, lay, l, k) && l.dir == s.cur
    ensures var e := TableOf(s.img, l.dir)[l.slot];
            && ShellOk(s.(img := Relocated(s.img, l, k, e)), MoveEntry(lay, l, k, e.size == 0))
            && Carries(MetaOf(s.img), lay, MetaOf(Relocated(s.img, l, k, e)), MoveEntry(lay, l, k, e.size == 0))
  {
    RelocationKeepsValid(s.img, lay, l, k);
    RelocationKeepsPath(s, lay, l, k);
  }

  // ---- mv name /.. -------------------------------------------------------------------------

  function Parent(s: Shell): nat
    requires CdReady(s)
  {
    if s.cur == ROOT then ROOT else s.stack[|s.stack| - 2]
  }

  function UpFrom(s: Shell, name: Name, ext: Ext): Loc
    requires s.cur < 512
  {
    Loc(s.cur, MoveSlot(s.img, s.cur, name, ext))
  }

  function UpTo(s: Shell, name: Name, ext: Ext): Loc
    requires CdReady(s) && MoveSlot(s.img, s.cur, name, ext) < 64
  {
    Loc(Parent(s), First(TableOf(Cleared(s.img, UpFrom(s, name, ext)), Parent(s)), FreeSlot, 1))
  }

  /** What a caller can check before `mv name /..`: the entry is there, and the parent - with the
      old slot cleared, for the root is its own parent - has room and no live entry of the name. */
  ghost predicate SafeMoveUp(s: Shell, name: Name, ext: Ext)
    requires CdReady(s)
  {
    && MoveSlot(s.img, s.cur, name, ext) < 64
    && var l := UpFrom(s, name, ext);
       && Live(TableOf(s.img, s.cur)[l.slot])
       && UpTo(s, name, ext).slot < 64
       && FreshName(TableOf(Cleared(s.img, l), Parent(s)), TableOf(s.img, s.cur)[l.slot])
  }

  lemma ParentIsUp(s: Shell, lay: Layout)
    requires ShellOk(s, lay)
    ensures CdReady(s) && Parent(s) in lay.Dirs() && 2 <= Parent(s) < 512
    ensures if s.cur in lay.home then lay.home[s.cur].dir == Parent(s) else Parent(s) == s.cur
    ensures TableOk(TableOf(s.img, Parent(s)), Parent(s))
  {
    if s.cur != ROOT {
      PathShrinks(lay.home, AsPath(s.stack));
    }
    DirRange(MetaOf(s.img), lay);
    PathEndsInDirs(MetaOf(s.img), lay, AsPath(s.stack), if s.cur == ROOT then 0 else |s.stack| - 2);
    DirTableOk(s.img, lay, Parent(s));
  }

  lemma PathEndsInDirs(m: Meta, lay: Layout, p: seq<nat>, i: nat)
    requires IsPath(lay.home, p) && i < |p|
    ensures p[i] in lay.Dirs()
  {
    assert i > 0 ==> StepAt(lay.home, p, i);
  }

  lemma ClearedKeepsOwn(img: Image, l: Loc, d: nat)
    requires 2 <= l.dir < 512 && 1 <= l.slot < 64 && 2 <= d < 512 && TableOk(TableOf(img, d), d)
    ensures var t := TableOf(Cleared(img, l), d);
            t[0] == TableOf(img, d)[0] && HeadOf(t[0]) == d && Live(t[0])
    ensures forall i :: 0 <= i < 64 && !Live(TableOf(Cleared(img, l), d)[i]) ==>
              TableOf(Cleared(img, l), d)[i] == ZERO_ENTRY
  {
    ClearedMeta(img, l);
  }

  lemma UpIsMovable(img: Image, lay: Layout, l: Loc, k: Loc)
    requires Consistent(MetaOf(img), lay) && l.dir in lay.Dirs() && 2 <= l.dir < 512 && 1 <= l.slot < 64
    requires k.dir in lay.Dirs() && 2 <= k.dir < 512 && 1 <= k.slot < 64
    requires if l.dir in lay.home then lay.home[l.dir].dir == k.dir else k.dir == l.dir
    requires Live(TableOf(img, l.dir)[l.slot]) && !Live(TableOf(Cleared(img, l), k.dir)[k.slot])
    requires FreshName(TableOf(Cleared(img, l), k.dir), TableOf(img, l.dir)[l.slot])
    ensures Movable(img, lay, l, k)
    ensures var e := TableOf(img, l.dir)[l.slot]; HeadOf(e) < 512 && e == LiveEntry(e.name, e.ext, HeadOf(e), e.size)
  {
    OwnedSlot(img, lay, l);
    LiveEntryFacts(img, lay, l);
    if TableOf(img, l.dir)[l.slot].size == 0 {
      UpWellFounded(lay.home, lay.chains[l][0], k);
    }
  }

  lemma UpEnds(s: Shell, lay: Layout, name: Name, ext: Ext) returns (l: Loc, k: Loc)
    requires ShellOk(s, lay) && CdReady(s) && SafeMoveUp(s, name, ext)
    ensures l == UpFrom(s, name, ext) && k == UpTo(s, name, ext)
    ensures l.dir in lay.Dirs() && 2 <= l.dir < 512 && 1 <= l.slot < 64
    ensures k.dir in lay.Dirs() && 2 <= k.dir < 512 && 1 <= k.slot < 64
    ensures if l.dir in lay.home then lay.home[l.dir].dir == k.dir else k.dir == l.dir
    ensures !Live(TableOf(Cleared(s.img, l), k.dir)[k.slot])
  {
    l, k := UpFrom(s, name, ext), UpTo(s, name, ext);
    ShellDir(s, lay);
    ParentIsUp(s, lay);
    assert Hits(FreeSlot, TableOf(Cleared(s.img, l), k.dir)[k.slot]);
  }

  lemma SafeUpIsMovable(s: Shell, lay: Layout, name: Name, ext: Ext)
    requires ShellOk(s, lay) && CdReady(s) && SafeMoveUp(s, name, ext)
    ensures Movable(s.img, lay, UpFrom(s, name, ext), UpTo(s, name, ext))
    ensures var e := TableOf(s.img, s.cur)[UpFrom(s, name, ext).slot];
            HeadOf(e) < 512 && e == LiveEntry(name, ext, HeadOf(e), e.size)
  {
    var l, k := UpEnds(s, lay, name, ext);
    UpIsMovable(s.img, lay, l, k);
  }

  function UpStack(s: Shell): seq<byte>
    requires CdReady(s)
  {
    if s.cur == ROOT then s.stack else s.stack[..|s.stack| - 1]
  }

  lemma LiftedIs(s: Shell, name: Name, ext: Ext)
    requires CdReady(s) && MoveSlot(s.img, s.cur, name, ext) < 64
    requires ClearedEntry(TableOf(s.img, s.cur)[MoveSlot(s.img, s.cur, name, ext)]) == ZERO_ENTRY
    ensures Lifted(s, name, ext) == Shell(Cleared(s.img, UpFrom(s, name, ext)), Parent(s), UpStack(s))
  {
  }

  lemma MoveUpThereIs(s: Shell, lay: Layout, name: Name, ext: Ext)
    requires ShellOk(s, lay) && CdReady(s) && SafeMoveUp(s, name, ext)
    ensures CdReady(Shell(s.img, Parent(s), UpStack(s))) && MoveUpReady(s, name, ext)
    ensures var l, k := UpFrom(s, name, ext), UpTo(s, name, ext);
            MoveUpThere(s, name, ext)
              == Shell(Relocated(s.img, l, k, TableOf(s.img, s.cur)[l.slot]), Parent(s), UpStack(s))
  {
    var l := UpFrom(s, name, ext);
    SafeUpIsMovable(s, lay, name, ext);
    MovedEntryIsSame(TableOf(s.img, s.cur)[l.slot]);
    LiftedIs(s, name, ext);
    UpIsReady(s, lay);
    UpHere(s, lay, l);
  }

  lemma UpIsReady(s: Shell, lay: Layout)
    requires ShellOk(s, lay)
    ensures CdReady(s) && CdReady(Shell(s.img, Parent(s), UpStack(s)))
  {
    if s.cur != ROOT && Parent(s) != ROOT {
      assert s.stack[0] == ROOT;
    }
  }

  lemma UpHere(s: Shell, lay: Layout, l: Loc)
    requires ShellOk(s, lay) && CdReady(s) && l.dir == s.cur < 512 && 1 <= l.slot < 64
    ensures Parent(s) < 512
    ensures var t := TableOf(Cleared(s.img, l), Parent(s));
            HeadOf(t[0]) == Parent(s) && forall i :: 0 <= i < 64 && !Live(t[i]) ==> t[i] == ZERO_ENTRY
  {
    ParentIsUp(s, lay);
    ClearedKeepsOwn(s.img, l, Parent(s));
  }

  /** The shell one level up, or where it was at the root. */
  function Up(s: Shell): Shell
    requires CdReady(s)
  {
    Shell(s.img, Parent(s), UpStack(s))
  }

  /** The stack part of `ShellOk`. */
  ghost predicate StackOk(home: map<nat, Loc>, s: Shell) {
    ROOT !in home && IsPath(home, AsPath(s.stack)) && s.stack[|s.stack| - 1] == s.cur
  }

  lemma StackUp(home: map<nat, Loc>, s: Shell)
    requires StackOk(home, s) && s.cur < 512 && CdReady(s)
    ensures StackOk(home, Up(s)) && (Parent(s) < 512 ==> CdReady(Up(s)))
    ensures s.cur != ROOT ==> s.cur in home && home[s.cur].dir == Parent(s)
  {
    if s.cur != ROOT {
      PathShrinks(home, AsPath(s.stack));
    }
  }

  // ---- ... and back down --------------------------------------------------------------------

  /** From the parent, the name in a directory's own slot 0 leads back into it. */
  lemma OwnNameLeadsBack(img: Image, lay: Layout, d: nat)
    requires Consistent(MetaOf(img), lay) && d in lay.home && d < 512
    ensures var p, name := lay.home[d].dir, TableOf(img, d)[0].name;
            && p < 512
            && var i := First(TableOf(img, p), ByLivePair(name, NO_EXT), 1);
               i < 64 && TableOf(img, p)[i].size == 0 && HeadOf(TableOf(img, p)[i]) == d
  {
    var h := lay.home[d];
    assert HomeOk(MetaOf(img), lay, d);
    LiveEntryFacts(img, lay, h);
    LivePairIsUnique(TableOf(img, h.dir), h.dir, h.slot);
  }

  lemma LivePairIsUnique(t: Table, d: nat, i: nat)
    requires TableOk(t, d) && 1 <= i < 64 && Live(t[i])
    ensures First(t, ByLivePair(t[i].name, t[i].ext), 1) == i
  {
    var k := ByLivePair(t[i].name, t[i].ext);
    var j := First(t, k, 1);
    assert j < i ==> SameName(t[j], t[i]);
  }

  /** In the root no other entry is called ROOT. */
  lemma OwnNameIsTaken(t: Table, d: nat)
    requires TableOk(t, d)
    ensures First(t, ByLivePair(t[0].name, NO_EXT), 1) == 64
  {
    var j := First(t, ByLivePair(t[0].name, NO_EXT), 1);
    assert j < 64 ==> SameName(t[0], t[j]);
  }

  lemma StepBack(s: Shell, name: Name)
    requires CdReady(s) && s.cur != ROOT && s.stack[|s.stack| - 1] == s.cur && CdReady(Up(s)) && !DotDot(name)
    requires CdSlot(Up(s), name) < 64
    requires var e := TableOf(s.img, Parent(s))[CdSlot(Up(s), name)]; e.size == 0 && HeadOf(e) == s.cur
    ensures Cd(Up(s), name) == (s, true)
  {
    assert s.stack[..|s.stack| - 1] + [s.cur] == s.stack;
  }

  lemma NotBack(s: Shell, lay: Layout, name: Name)
    requires ShellOk(s, lay) && s.cur != ROOT && DotDot(name)
    ensures CdReady(s) && CdReady(Up(s)) && Cd(Up(s), name).0.cur != s.cur
  {
    UpIsReady(s, lay);
    StackUp(lay.home, s);
    PathAvoidsChild(lay.home, AsPath(UpStack(s)), s.cur);
  }

  /** Going up and then down by the name in one's own slot 0 comes back if and only if that name
      is not itself a way up. */
  lemma UpAndOwnNameReturnsIff(s: Shell, lay: Layout)
    requires ShellOk(s, lay)
    ensures CdReady(s) && CdReady(Up(s))
    ensures var name := TableOf(s.img, s.cur)[0].name; Cd(Up(s), name).0 == s <==> !DotDot(name)
  {
    var name := TableOf(s.img, s.cur)[0].name;
    if s.cur == ROOT {
      OwnNameIsTaken(TableOf(s.img, ROOT), ROOT);
    } else if DotDot(name) {
      NotBack(s, lay, name);
    } else {
      UpIsReady(s, lay);
      StackUp(lay.home, s);
      OwnNameLeadsBack(s.img, lay, s.cur);
      StepBack(s, TableOf(s.img, s.cur)[0].name);
    }
  }

  /** The shell after a safe `mv name /..`, but for going up and back. */
  lemma RelocatedUp(s: Shell, lay: Layout, l: Loc, k: Loc, e: Entry) returns (s': Shell, lay': Layout)
    requires ShellOk(s, lay) && Movable(s.img, lay, l, k) && l.dir == s.cur < 512 && e == TableOf(s.img, l.dir)[l.slot]
    ensures s' == s.(img := Relocated(s.img, l, k, e)) && lay' == MoveEntry(lay, l, k, e.size == 0)
    ensures ShellOk(s', lay') && TableOf(s'.img, s.cur)[0] == TableOf(s.img, s.cur)[0]
    ensures Carries(MetaOf(s.img), lay, MetaOf(s'.img), lay')
  {
    s', lay' := s.(img := Relocated(s.img, l, k, e)), MoveEntry(lay, l, k, e.size == 0);
    RelocationKeepsShell(s, lay, l, k);
    ShellDir(s, lay);
    DirRange(MetaOf(s.img), lay);
    LiveEntryFacts(s.img, lay, l);
    RelocatedSlots(s.img, l, k, TableOf(s.img, l.dir)[l.slot], s.cur, 0);
  }

  lemma BackIs(s: Shell, s': Shell, name: Name, ext: Ext)
    requires CdReady(s) && MoveSlot(s.img, s.cur, name, ext) < 64 && MoveUpReady(s, name, ext)
    requires s'.cur == s.cur && s'.stack == s.stack && CdReady(s')
    requires MoveUpThere(s, name, ext) == Shell(s'.img, Parent(s), UpStack(s))
    ensures CdReady(Up(s')) && MoveUp(s, name, ext) == Cd(Up(s'), TableOf(s.img, s.cur)[0].name).0
  {
  }

  /** The disk after a safe `mv name /..` and what is left of the command: going up and back. */
  lemma MovedUp(s: Shell, lay: Layout, name: Name, ext: Ext) returns (s': Shell, lay': Layout)
    requires ShellOk(s, lay) && CdReady(s) && SafeMoveUp(s, name, ext)
    ensures MoveUpReady(s, name, ext) && s'.cur == s.cur && s'.stack == s.stack && CdReady(s') && CdReady(Up(s'))
    ensures var l, k := UpFrom(s, name, ext), UpTo(s, name, ext);
            var e := TableOf(s.img, s.cur)[l.slot];
            && l in lay.chains && |lay.chains[l]| > 0
            && s'.img == Relocated(s.img, l, k, e) && lay' == MoveEntry(lay, l, k, e.size == 0)
    ensures ShellOk(s', lay') && TableOf(s'.img, s.cur)[0].name == TableOf(s.img, s.cur)[0].name
    ensures Carries(MetaOf(s.img), lay, MetaOf(s'.img), lay')
    ensures MoveUp(s, name, ext) == Cd(Up(s'), TableOf(s.img, s.cur)[0].name).0
  {
    var l, k := UpFrom(s, name, ext), UpTo(s, name, ext);
    SafeUpIsMovable(s, lay, name, ext);
    MoveUpThereIs(s, lay, name, ext);
    s', lay' := RelocatedUp(s, lay, l, k, TableOf(s.img, s.cur)[l.slot]);
    BackIs(s, s', name, ext);
  }

  /** A safe `mv name /..` keeps the whole-disk invariant and moves the one entry; the shell ends
      up where it was if and only if the current directory's name does not begin with two dots. */
  lemma MoveUpReturnsIff(s: Shell, lay: Layout, name: Name, ext: Ext)
    requires ShellOk(s, lay) && CdReady(s) && SafeMoveUp(s, name, ext)
    ensures MoveUpReady(s, name, ext)
    ensures var l, k := UpFrom(s, name, ext), UpTo(s, name, ext);
            var e := TableOf(s.img, s.cur)[l.slot];
            && l in lay.chains && |lay.chains[l]| > 0
            && MoveUp(s, name, ext).img == Relocated(s.img, l, k, e)
            && ShellOk(s.(img := MoveUp(s, name, ext).img), MoveEntry(lay, l, k, e.size == 0))
            && Carries(MetaOf(s.img), lay, MetaOf(MoveUp(s, name, ext).img), MoveEntry(lay, l, k, e.size == 0))
    ensures var s' := MoveUp(s, name, ext);
            s'.cur == s.cur && s'.stack == s.stack <==> !DotDot(TableOf(s.img, s.cur)[0].name)
  {
    var s', lay' := MovedUp(s, lay, name, ext);
    CdKeepsImage(Up(s'), TableOf(s.img, s.cur)[0].name);
    UpAndOwnNameReturnsIff(s', lay');
  }

  /** After a safe `mv name /..` the name reads in the parent as it read before, and no other read
      changes. */
  lemma MoveUpReads(s: Shell, lay: Layout, name: Name, ext: Ext, q: Request)
    requires ShellOk(s, lay) && CdReady(s) && SafeMoveUp(s, name, ext) && q.parent < 512 && q.parent in lay.Dirs()
    ensures MoveUpReady(s, name, ext) && Parent(s) < 512
    ensures var img', p := MoveUp(s, name, ext).img, Parent(s);
            if q.parent == s.cur && q.name == name && q.ext == ext
            then ReadReply(img', q.(parent := p)) == ReadReply(s.img, q)
            else !(q.parent == p && q.name == name && q.ext == ext) ==> ReadReply(img', q) == ReadReply(s.img, q)
  {
    var l, k := UpFrom(s, name, ext), UpTo(s, name, ext);
    SafeUpIsMovable(s, lay, name, ext);
    MoveUpReturnsIff(s, lay, name, ext);
    assert OfPair(TableOf(s.img, s.cur)[l.slot], q) <==> q.name == name && q.ext == ext;
    if q.parent == s.cur && q.name == name && q.ext == ext {
      RelocationCarriesReads(s.img, lay, l, k, q);
    } else if !(q.parent == k.dir && q.name == name && q.ext == ext) {
      RelocationKeepsReads(s.img, lay, l, k, q);
    }
  }

}
