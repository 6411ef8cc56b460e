/** Exactly when `mv` keeps the disk sound: it never asks the driver, so nothing stops it from
    losing the moved entry or from writing a table no layout accepts. */
module MoveLimits {
  import opened Format
  import opened Volume
  import opened Edits
  import opened Tree
  import opened Storage
  import opened DriverSpec
  import opened DeleteProofs
  import opened ShellSpec
  import opened MoveProofs
  import opened CwdProofs
  import opened RenameProofs
  import opened Limits

  // ---- An entry that got lost ---------------------------------------------------------------

  /** Every table of the tree, except that of a directory named at `l`, has only entries it had. */
  ghost predicate OnlyLoses(m: Meta, m': Meta, lay: Layout, l: Loc) {
    forall d, s :: d in lay.Dirs() && d < 512 && 0 <= s < 64 && !(d in lay.home && lay.home[d] == l)
      ==> At(m', Loc(d, s)) == At(m, Loc(d, s)) || At(m', Loc(d, s)) == ZERO_ENTRY
  }

  lemma LossNames(m: Meta, m': Meta, lay: Layout, l: Loc, h: map<nat, Loc>, d: nat)
    requires SlotsMatch(m, lay) && EntriesOk(m, lay) && OnlyLoses(m, m', lay, l)
    requires l.dir < 512 && l.slot < 64 && !Live(At(m', l)) && NamesDirs(m', h) && d in h
    requires h[d].dir in lay.Dirs() && !(h[d].dir in lay.home && lay.home[h[d].dir] == l)
    ensures d in lay.home && lay.home[d] != l
  {
    assert NamesDir(m', h, d);
    NamedDirIsIn(m, lay, h[d]);
  }

  lemma LossKeepsDirs(m: Meta, m': Meta, lay: Layout, l: Loc, h: map<nat, Loc>)
    requires SlotsMatch(m, lay) && EntriesOk(m, lay) && ROOT !in lay.home && OnlyLoses(m, m', lay, l)
    requires l.dir < 512 && l.slot < 64 && !Live(At(m', l)) && NamesDirs(m', h)
    ensures forall d :: d in h ==> d in lay.home && lay.home[d] != l
  {
    var G := set d | d in lay.home && lay.home[d] != l;
    forall d | d in h && (h[d].dir in h.Keys ==> h[d].dir in G)
      ensures d in G
    {
      assert NamesDir(m', h, d);
      LossNames(m, m', lay, l, h, d);
    }
    TreeInduction(h, G);
  }

  lemma KeptEntry(m: Meta, m': Meta, lay: Layout, l: Loc, lay': Layout, k: Loc)
    requires Consistent(m, lay) && Consistent(m', lay') && OnlyLoses(m, m', lay, l)
    requires l.dir < 512 && l.slot < 64 && !Live(At(m', l)) && k in lay'.chains
    ensures k != l && k in lay.chains && k.dir < 512 && k.slot < 64 && At(m', k) == At(m, k)
  {
    HomeNamesDirs(m', lay');
    LossKeepsDirs(m, m', lay, l, lay'.home);
  }

  lemma KeptChain(m: Meta, m': Meta, lay: Layout, lay': Layout, k: Loc)
    requires EntriesOk(m, lay) && EntriesOk(m', lay') && m'.fat == m.fat
    requires k in lay.chains && k in lay'.chains && k.dir < 512 && k.slot < 64 && At(m', k) == At(m, k)
    ensures lay'.chains[k] == lay.chains[k]
  {
    assert EntryOk(m, lay, k) && EntryOk(m', lay', k);
    SameChain(m.fat, lay.chains[k], lay'.chains[k]);
  }

  /** An entry that is gone while the map is unchanged leaves its clusters without an owner. */
  lemma LostEntryLeaks(m: Meta, m': Meta, lay: Layout, l: Loc, lay': Layout)
    requires Consistent(m, lay) && m'.fat == m.fat && OnlyLoses(m, m', lay, l)
    requires l in lay.chains && l.dir < 512 && l.slot < 64 && !Live(At(m', l))
    ensures !Valid(m', lay')
  {
    EntryChain(m, lay, l);
    var c := lay.chains[l][0];
    ChainIsTaken(m.fat, lay.chains[l], c);
    if Valid(m', lay') && Owned(lay', c) {
      var k :| k in lay'.chains && c in lay'.chains[k];
      KeptEntry(m, m', lay, l, lay', k);
      KeptChain(m, m', lay, lay', k);
    }
  }

  // ---- A table no layout accepts -----------------------------------------------------------------

  lemma NamedTableIsOk(m: Meta, lay: Layout, h: map<nat, Loc>, d: nat)
    requires Consistent(m, lay) && NamesDirs(m, h) && d in h.Keys + {ROOT}
    ensures d < 512 && TableOk(m.tables[d], d)
  {
    NamedDirsAreIn(m, lay, h);
  }

  lemma BadTable(m: Meta, h: map<nat, Loc>, d: nat, lay: Layout)
    requires NamesDirs(m, h) && d in h.Keys + {ROOT} && d < 512 && !TableOk(m.tables[d], d)
    ensures !Consistent(m, lay)
  {
    if Consistent(m, lay) {
      NamedTableIsOk(m, lay, h, d);
    }
  }

  lemma NamesClash(t: Table, d: nat, i: nat, j: nat)
    requires i < 64 && j < 64 && i != j && Live(t[i]) && Live(t[j]) && SameName(t[i], t[j])
    ensures !TableOk(t, d)
  {
    assert SameName(t[if i < j then i else j], t[if i < j then j else i]);
  }

  lemma UnfitEntry(t: Table, d: nat, s: nat, e: Entry)
    requires d < 512 && s < 64 && Live(e) && !Live(t[s]) && !(Named(e) && FreshName(t, e))
    ensures !TableOk(t[s := e], d)
  {
    var t' := t[s := e];
    assert t'[s] == e;
    if Named(e) {
      var j :| 0 <= j < 64 && Live(t[j]) && SameName(t[j], e);
      NamesClash(t', d, j, s);
    }
  }

  // ---- mv between directories ----------------------------------------------------------------------

  /** `m'` is `m` with slot `l` cleared and `e` in the free slot `k`. */
  ghost predicate SlotMoved(m: Meta, m': Meta, lay: Layout, l: Loc, k: Loc, e: Entry) {
    && l.dir < 512 && l.slot < 64 && k.dir in lay.Dirs() && k.dir < 512 && 1 <= k.slot < 64
    && (k == l || !Live(At(m, k)))
    && (forall d, s :: d in lay.Dirs() && d < 512 && 0 <= s < 64 ==>
          At(m', Loc(d, s)) == if Loc(d, s) == k then e else if Loc(d, s) == l then ZERO_ENTRY else At(m, Loc(d, s)))
  }

  function HomeAfter(lay: Layout, l: Loc, k: Loc): map<nat, Loc> {
    if l in lay.chains && |lay.chains[l]| > 0 && lay.chains[l][0] in lay.home && lay.home[lay.chains[l][0]] == l
    then lay.home[lay.chains[l][0] := k] else lay.home
  }

  ghost predicate HomeHeads(lay: Layout) {
    forall d :: d in lay.home ==> lay.home[d] in lay.chains && lay.chains[lay.home[d]] == [d]
  }

  lemma HomesHead(m: Meta, lay: Layout)
    requires HomesOk(m, lay)
    ensures HomeHeads(lay)
  {
    forall d | d in lay.home
      ensures lay.home[d] in lay.chains && lay.chains[lay.home[d]] == [d]
    {
      assert HomeOk(m, lay, d);
    }
  }

  lemma MovedNamesDirs(m: Meta, m': Meta, lay: Layout, l: Loc, k: Loc, e: Entry)
    requires NamesDirs(m, lay.home) && HomeHeads(lay) && SlotMoved(m, m', lay, l, k, e)
    requires Live(e) && e.size == At(m, l).size && e.low == At(m, l).low && WellFounded(HomeAfter(lay, l, k))
    ensures NamesDirs(m', HomeAfter(lay, l, k))
  {
    forall d | d in lay.home
      ensures NamesDir(m', HomeAfter(lay, l, k), d)
    {
      assert NamesDir(m, lay.home, d);
    }
  }

  // ---- Both forms of mv, seen as clear-then-deposit -------------------------------------------------

  /** Clear slot `l`, deposit its old entry in the table at `d`. */
  function Dropped(img: Image, l: Loc, d: nat, name: Name, ext: Ext): Image
    requires l.dir < 512 && l.slot < 64 && d < 512
  {
    Deposit(Cleared(img, l), d, d, TableOf(img, l.dir)[l.slot], name, ext)
  }

  function DropSlot(img: Image, l: Loc, d: nat): nat
    requires l.dir < 512 && l.slot < 64 && d < 512
  {
    First(TableOf(Cleared(img, l), d), FreeSlot, 1)
  }

  lemma ClearedSlot(img: Image, l: Loc, x: nat, i: nat)
    requires 2 <= l.dir < 512 && l.slot < 64 && 2 <= x < 512 && i < 64
    ensures TableOf(Cleared(img, l), x)[i] == if Loc(x, i) == l then ZERO_ENTRY else TableOf(img, x)[i]
    ensures FatOf(Cleared(img, l)) == FatOf(img)
  {
    ClearedMeta(img, l);
  }

  lemma DepositSlot(img: Image, d: nat, e: Entry, name: Name, ext: Ext, x: nat, i: nat)
    requires 2 <= d < 512 && 2 <= x < 512 && i < 64
    ensures var img', o := Deposit(img, d, d, e, name, ext), First(TableOf(img, d), FreeSlot, 1);
            && FatOf(img') == FatOf(img)
            && TableOf(img', x)[i]
               == if o < 64 && Loc(x, i) == Loc(d, o) then MovedEntry(TableOf(img, d)[o], e, name, ext)
                                      else TableOf(img, x)[i]
  {
    var o := First(TableOf(img, d), FreeSlot, 1);
    if o < 64 {
      PutTableMeta(img, d, TableOf(img, d)[o := MovedEntry(TableOf(img, d)[o], e, name, ext)]);
    }
  }

  lemma DroppedSlot(img: Image, l: Loc, d: nat, name: Name, ext: Ext, x: nat, i: nat)
    requires 2 <= l.dir < 512 && l.slot < 64 && 2 <= d < 512 && 2 <= x < 512 && i < 64
    ensures TableOf(Dropped(img, l, d, name, ext), x)[i] == SlotDropped(img, l, d, name, ext, x, i)
    ensures FatOf(Dropped(img, l, d, name, ext)) == FatOf(img)
  {
    ClearedSlot(img, l, x, i);
    DepositSlot(Cleared(img, l), d, TableOf(img, l.dir)[l.slot], name, ext, x, i);
  }

  function SlotDropped(img: Image, l: Loc, d: nat, name: Name, ext: Ext, x: nat, i: nat): Entry
    requires l.dir < 512 && l.slot < 64 && d < 512 && x < 512 && i < 64
  {
    var o := DropSlot(img, l, d);
    if o < 64 && Loc(x, i) == Loc(d, o) then
      MovedEntry(TableOf(Cleared(img, l), d)[o], TableOf(img, l.dir)[l.slot], name, ext)
    else if Loc(x, i) == l then ZERO_ENTRY
    else TableOf(img, x)[i]
  }

  /** The entry is lost when it is put into a file, a full table, or the directory it names. */
  ghost predicate Loses(img: Image, lay: Layout, l: Loc, d: nat)
    requires l.dir < 512 && l.slot < 64 && d < 512
  {
    d !in lay.Dirs() || DropSlot(img, l, d) == 64 || (d in lay.home && lay.home[d] == l)
  }

  lemma DroppedElsewhere(img: Image, l: Loc, d: nat, name: Name, ext: Ext, x: nat)
    requires l.dir < 512 && l.slot < 64 && d < 512 && x < 512 && (x == d ==> DropSlot(img, l, d) == 64)
    ensures Dropped(img, l, d, name, ext)[x] == Cleared(img, l)[x]
  {
  }

  lemma LosesElsewhere(img: Image, l: Loc, d: nat, name: Name, ext: Ext, x: nat, i: nat)
    requires 2 <= l.dir < 512 && l.slot < 64 && d < 512 && 2 <= x < 512 && i < 64
    requires (x == d ==> DropSlot(img, l, d) == 64)
    ensures var e := TableOf(Dropped(img, l, d, name, ext), x)[i]; e == TableOf(img, x)[i] || e == ZERO_ENTRY
    ensures Loc(x, i) == l ==> TableOf(Dropped(img, l, d, name, ext), x)[i] == ZERO_ENTRY
  {
    DroppedElsewhere(img, l, d, name, ext, x);
    ClearedSlot(img, l, x, i);
  }

  lemma DroppedOnlyLoses(img: Image, lay: Layout, l: Loc, d: nat, name: Name, ext: Ext)
    requires TablesOk(MetaOf(img), lay) && l.dir in lay.Dirs() && l.dir < 512 && l.slot < 64 && 2 <= d < 512
    requires Loses(img, lay, l, d) && l.dir != d
    ensures OnlyLoses(MetaOf(img), MetaOf(Dropped(img, l, d, name, ext)), lay, l)
    ensures MetaOf(Dropped(img, l, d, name, ext)).fat == MetaOf(img).fat
    ensures At(MetaOf(Dropped(img, l, d, name, ext)), l) == ZERO_ENTRY
  {
    DirRange(MetaOf(img), lay);
    DroppedSlot(img, l, d, name, ext, l.dir, l.slot);
    LosesElsewhere(img, l, d, name, ext, l.dir, l.slot);
    var img' := Dropped(img, l, d, name, ext);
    forall x, i | x in lay.Dirs() && x < 512 && 0 <= i < 64 && !(x in lay.home && lay.home[x] == l)
      ensures TableOf(img', x)[i] == TableOf(img, x)[i] || TableOf(img', x)[i] == ZERO_ENTRY
    {
      LosesElsewhere(img, l, d, name, ext, x, i);
    }
  }

  lemma LostWhenDropped(img: Image, lay: Layout, l: Loc, d: nat, name: Name, ext: Ext, lay': Layout)
    requires Consistent(MetaOf(img), lay) && l in lay.chains && l.dir in lay.Dirs() && l.dir < 512 && l.slot < 64
    requires 2 <= d < 512 && Loses(img, lay, l, d) && l.dir != d
    ensures !Valid(MetaOf(Dropped(img, l, d, name, ext)), lay')
  {
    DroppedOnlyLoses(img, lay, l, d, name, ext);
    LostEntryLeaks(MetaOf(img), MetaOf(Dropped(img, l, d, name, ext)), lay, l, lay');
  }

  // ---- A deposit that does not fit -----------------------------------------------------------------

  lemma DroppedTable(img: Image, l: Loc, d: nat, name: Name, ext: Ext)
    requires 2 <= l.dir < 512 && 1 <= l.slot < 64 && 2 <= d < 512 && TableOk(TableOf(img, d), d)
    requires DropSlot(img, l, d) < 64
    ensures var o, e := DropSlot(img, l, d), MovedEntry(ZERO_ENTRY, TableOf(img, l.dir)[l.slot], name, ext);
            && TableOf(Cleared(img, l), d)[o] == ZERO_ENTRY && (Loc(d, o) == l || !Live(TableOf(img, d)[o]))
            && TableOf(Dropped(img, l, d, name, ext), d) == TableOf(Cleared(img, l), d)[o := e]
  {
    ClearedKeepsOwn(img, l, d);
    FreeWasCleared(img, l, Loc(d, DropSlot(img, l, d)));
    DepositTable(Cleared(img, l), d, TableOf(img, l.dir)[l.slot], name, ext);
  }

  lemma FreeWasCleared(img: Image, l: Loc, k: Loc)
    requires 2 <= l.dir < 512 && l.slot < 64 && 2 <= k.dir < 512 && k.slot < 64
    requires Hits(FreeSlot, TableOf(Cleared(img, l), k.dir)[k.slot])
    ensures !Live(TableOf(Cleared(img, l), k.dir)[k.slot]) && (k == l || !Live(TableOf(img, k.dir)[k.slot]))
  {
    ClearedMeta(img, l);
  }

  lemma DepositTable(img: Image, d: nat, e: Entry, name: Name, ext: Ext)
    requires d < 512
    ensures var o := First(TableOf(img, d), FreeSlot, 1);
            o < 64 ==> TableOf(Deposit(img, d, d, e, name, ext), d)
                       == TableOf(img, d)[o := MovedEntry(TableOf(img, d)[o], e, name, ext)]
  {
    var o := First(TableOf(img, d), FreeSlot, 1);
    if o < 64 {
      PutTableMeta(img, d, TableOf(img, d)[o := MovedEntry(TableOf(img, d)[o], e, name, ext)]);
    }
  }

  lemma SlotsMoved(img: Image, img': Image, lay: Layout, l: Loc, k: Loc, e: Entry)
    requires TablesOk(MetaOf(img), lay) && l.dir in lay.Dirs() && l.dir < 512 && l.slot < 64
    requires k.dir in lay.Dirs() && k.dir < 512 && 1 <= k.slot < 64 && (k == l || !Live(TableOf(img, k.dir)[k.slot]))
    requires forall x, i :: x in lay.Dirs() && x < 512 && 0 <= i < 64 ==>
      TableOf(img', x)[i] == if Loc(x, i) == k then e else if Loc(x, i) == l then ZERO_ENTRY else TableOf(img, x)[i]
    ensures SlotMoved(MetaOf(img), MetaOf(img'), lay, l, k, e)
  {
  }

  lemma DroppedIsMoved(img: Image, lay: Layout, l: Loc, d: nat, name: Name, ext: Ext)
    requires TablesOk(MetaOf(img), lay) && l.dir in lay.Dirs() && l.dir < 512 && 1 <= l.slot < 64
    requires d in lay.Dirs() && d < 512 && DropSlot(img, l, d) < 64
    ensures var k, e := Loc(d, DropSlot(img, l, d)), MovedEntry(ZERO_ENTRY, TableOf(img, l.dir)[l.slot], name, ext);
            SlotMoved(MetaOf(img), MetaOf(Dropped(img, l, d, name, ext)), lay, l, k, e)
  {
    var k, e := Loc(d, DropSlot(img, l, d)), MovedEntry(ZERO_ENTRY, TableOf(img, l.dir)[l.slot], name, ext);
    var img' := Dropped(img, l, d, name, ext);
    DirRange(MetaOf(img), lay);
    DirTable(img, lay, d);
    DroppedTable(img, l, d, name, ext);
    forall x, i | x in lay.Dirs() && x < 512 && 0 <= i < 64
      ensures TableOf(img', x)[i]
            == if Loc(x, i) == k then e else if Loc(x, i) == l then ZERO_ENTRY else TableOf(img, x)[i]
    {
      DroppedSlot(img, l, d, name, ext, x, i);
    }
    SlotsMoved(img, img', lay, l, k, e);
  }

  lemma DirTable(img: Image, lay: Layout, d: nat)
    requires TablesOk(MetaOf(img), lay) && d in lay.Dirs() && d < 512
    ensures TableOk(TableOf(img, d), d)
  {
    assert MetaOf(img).tables[d] == TableOf(img, d);
  }

  lemma DroppedDoesNotFit(img: Image, lay: Layout, l: Loc, d: nat, name: Name, ext: Ext, lay': Layout)
    requires Consistent(MetaOf(img), lay) && l.dir in lay.Dirs() && l.dir < 512 && 1 <= l.slot < 64
    requires d in lay.Dirs() && d < 512 && DropSlot(img, l, d) < 64
    requires WellFounded(HomeAfter(lay, l, Loc(d, DropSlot(img, l, d))))
    requires var old_, e := TableOf(img, l.dir)[l.slot], MovedEntry(ZERO_ENTRY, TableOf(img, l.dir)[l.slot], name, ext);
             old_.low == e.low && !(Named(e) && FreshName(TableOf(Cleared(img, l), d), e))
    ensures !Consistent(MetaOf(Dropped(img, l, d, name, ext)), lay')
  {
    var o, e := DropSlot(img, l, d), MovedEntry(ZERO_ENTRY, TableOf(img, l.dir)[l.slot], name, ext);
    var m' := MetaOf(Dropped(img, l, d, name, ext));
    DirRange(MetaOf(img), lay);
    DirTable(img, lay, d);
    DroppedTable(img, l, d, name, ext);
    DroppedIsMoved(img, lay, l, d, name, ext);
    HomeNamesDirs(MetaOf(img), lay);
    HomesHead(MetaOf(img), lay);
    MovedNamesDirs(MetaOf(img), m', lay, l, Loc(d, o), e);
    UnfitEntry(TableOf(Cleared(img, l), d), d, o, e);
    BadTable(m', HomeAfter(lay, l, Loc(d, o)), d, lay');
  }

  // ---- mv name /target -----------------------------------------------------------------------------

  /** The slot found for the moved name is a live entry or, for the empty name only, a free slot. */
  lemma MovedSlot(img: Image, lay: Layout, l: Loc)
    requires Consistent(MetaOf(img), lay) && l.dir in lay.Dirs() && l.dir < 512 && 1 <= l.slot < 64
    ensures var e := TableOf(img, l.dir)[l.slot];
            if Live(e) then MovedEntry(ZERO_ENTRY, e, e.name, e.ext) == e && l in lay.chains
            else e == ZERO_ENTRY
    ensures ClearedEntry(TableOf(img, l.dir)[l.slot]) == ZERO_ENTRY
  {
    if Live(TableOf(img, l.dir)[l.slot]) {
      OwnedSlot(img, lay, l);
      LiveEntryFacts(img, lay, l);
      MovedEntryIsSame(TableOf(img, l.dir)[l.slot]);
    } else {
      DirTable(img, lay, l.dir);
    }
  }

  lemma NothingHasNoName(e: Entry)
    requires e == ZERO_ENTRY
    ensures !Named(MovedEntry(ZERO_ENTRY, e, e.name, e.ext)) && MovedEntry(ZERO_ENTRY, e, e.name, e.ext).low == e.low
  {
    LowStays(ZERO_ENTRY, e);
  }

  lemma LowStays(free: Entry, e: Entry)
    requires e.high == 0
    ensures MovedEntry(free, e, e.name, e.ext).low == e.low
  {
  }

  lemma MoveIntoDrops(img: Image, lay: Layout, cur: nat, name: Name, ext: Ext, target: Name)
    requires Consistent(MetaOf(img), lay) && cur in lay.Dirs() && MoveIntoReady(img, cur, target)
    requires MoveSlot(img, cur, name, ext) < 64 && TargetSlot(img, cur, target) < 64
    ensures var l, c := MoveFrom(img, cur, name, ext), HeadOf(TableOf(img, cur)[TargetSlot(img, cur, target)]);
            && 2 <= cur < 512 && 3 <= c < 512 && c != cur && DropSlot(img, l, c) == MoveTo(img, cur, target).slot
            && MoveInto(img, cur, name, ext, target) == Dropped(img, l, c, name, ext)
            && TableOf(Cleared(img, l), c) == TableOf(img, c)
  {
    var l, c := MoveFrom(img, cur, name, ext), HeadOf(TableOf(img, cur)[TargetSlot(img, cur, target)]);
    RenameEnds(img, lay, cur, target, NO_EXT);
    MovedSlot(img, lay, l);
    DropOrder(img, l, c, name, ext);
  }

  lemma DropOrder(img: Image, l: Loc, c: nat, name: Name, ext: Ext)
    requires 2 <= l.dir < 512 && l.slot < 64 && 2 <= c < 512 && c != l.dir
    requires ClearedEntry(TableOf(img, l.dir)[l.slot]) == ZERO_ENTRY
    ensures var t := TableOf(img, l.dir);
            PutTable(Deposit(img, c, c, t[l.slot], name, ext), l.dir, t[l.slot := ClearedEntry(t[l.slot])])
            == Dropped(img, l, c, name, ext)
    ensures TableOf(Cleared(img, l), c) == TableOf(img, c)
  {
    DepositCommutes(img, c, TableOf(img, l.dir)[l.slot], name, ext, l.dir, TableOf(img, l.dir)[l.slot := ZERO_ENTRY]);
  }

  /** A deposit and a write of another table may trade places. */
  lemma DepositCommutes(img: Image, c: nat, e: Entry, name: Name, ext: Ext, d: nat, t: Table)
    requires c < 512 && d < 512 && c != d
    ensures TableOf(PutTable(img, d, t), c) == TableOf(img, c)
    ensures PutTable(Deposit(img, c, c, e, name, ext), d, t) == Deposit(PutTable(img, d, t), c, c, e, name, ext)
  {
    var o := First(TableOf(img, c), FreeSlot, 1);
    if o < 64 {
    }
  }

  /** What the target of `mv` is: a directory of its own, or the first cluster of a file. */
  lemma TargetKind(img: Image, lay: Layout, cur: nat, target: Name)
    requires Consistent(MetaOf(img), lay) && cur in lay.Dirs() && MoveIntoReady(img, cur, target)
    requires TargetSlot(img, cur, target) < 64
    ensures var m, e := TargetSlot(img, cur, target), TableOf(img, cur)[TargetSlot(img, cur, target)];
            && 3 <= HeadOf(e) < 512
            && if e.size == 0 then HeadOf(e) in lay.home && lay.home[HeadOf(e)] == Loc(cur, m)
               else HeadOf(e) !in lay.Dirs()
  {
    RenameEnds(img, lay, cur, target, NO_EXT);
    LiveEntryFacts(img, lay, Loc(cur, TargetSlot(img, cur, target)));
  }

  lemma SiblingHomeAfter(img: Image, lay: Layout, l: Loc, k: Loc)
    requires Consistent(MetaOf(img), lay) && l.dir in lay.Dirs() && l.dir < 512 && l.slot < 64
    requires k.dir in lay.home && lay.home[k.dir].dir == l.dir && lay.home[k.dir] != l
    ensures WellFounded(HomeAfter(lay, l, k))
  {
    if l in lay.chains && |lay.chains[l]| > 0 && lay.chains[l][0] in lay.home && lay.home[lay.chains[l][0]] == l {
      IntoSiblingWellFounded(lay.home, lay.chains[l][0], k);
    }
  }

  /** The one unsafe case that does no harm: nothing was found in a free slot, and there was no
      directory slot to put nothing into. */
  predicate MovesNothing(img: Image, cur: nat, name: Name, ext: Ext, target: Name)
    requires MoveIntoReady(img, cur, target) && MoveSlot(img, cur, name, ext) < 64 && TargetSlot(img, cur, target) < 64
  {
    var t := TableOf(img, cur);
    !Live(t[MoveSlot(img, cur, name, ext)])
    && (t[TargetSlot(img, cur, target)].size > 0 || MoveTo(img, cur, target).slot == 64)
  }

  lemma UnsafeMoveInto(img: Image, lay: Layout, cur: nat, name: Name, ext: Ext, target: Name, lay': Layout)
    requires Consistent(MetaOf(img), lay) && cur in lay.Dirs() && MoveIntoReady(img, cur, target)
    requires MoveSlot(img, cur, name, ext) < 64 && TargetSlot(img, cur, target) < 64
    requires !SafeMove(img, cur, name, ext, target) && !MovesNothing(img, cur, name, ext, target)
    ensures !Valid(MetaOf(MoveInto(img, cur, name, ext, target)), lay')
  {
    var l, c := MoveFrom(img, cur, name, ext), HeadOf(TableOf(img, cur)[TargetSlot(img, cur, target)]);
    MoveIntoDrops(img, lay, cur, name, ext, target);
    TargetKind(img, lay, cur, target);
    if Live(TableOf(img, cur)[l.slot]) && Loses(img, lay, l, c) {
      MovedSlot(img, lay, l);
      LostWhenDropped(img, lay, l, c, name, ext, lay');
    } else {
      UnfitForTarget(img, lay, l, c, lay');
    }
  }

  lemma UnfitForTarget(img: Image, lay: Layout, l: Loc, c: nat, lay': Layout)
    requires Consistent(MetaOf(img), lay) && l.dir in lay.Dirs() && l.dir < 512 && 1 <= l.slot < 64
    requires c in lay.home && c < 512 && lay.home[c].dir == l.dir && DropSlot(img, l, c) < 64
    requires var e := TableOf(img, l.dir)[l.slot];
             Live(e) ==> lay.home[c] != l && !FreshName(TableOf(Cleared(img, l), c), e)
    ensures var e := TableOf(img, l.dir)[l.slot]; !Valid(MetaOf(Dropped(img, l, c, e.name, e.ext)), lay')
  {
    var e := TableOf(img, l.dir)[l.slot];
    MovedSlot(img, lay, l);
    if !Live(e) {
      NothingHasNoName(e);
      FreeSlotIsNoHome(img, lay, l, c);
    }
    SiblingHomeAfter(img, lay, l, Loc(c, DropSlot(img, l, c)));
    DroppedDoesNotFit(img, lay, l, c, e.name, e.ext, lay');
  }

  lemma FreeSlotIsNoHome(img: Image, lay: Layout, l: Loc, c: nat)
    requires SlotsMatch(MetaOf(img), lay) && HomesOk(MetaOf(img), lay) && c in lay.home
    requires l.dir < 512 && l.slot < 64 && !Live(TableOf(img, l.dir)[l.slot])
    ensures lay.home[c] != l
  {
    assert HomeOk(MetaOf(img), lay, c) && lay.home[c] in lay.chains;
  }

  lemma NothingMoves(img: Image, lay: Layout, cur: nat, name: Name, ext: Ext, target: Name) returns (l: Loc, c: nat)
    requires Consistent(MetaOf(img), lay) && cur in lay.Dirs() && MoveIntoReady(img, cur, target)
    requires MoveSlot(img, cur, name, ext) < 64 && TargetSlot(img, cur, target) < 64
    requires MovesNothing(img, cur, name, ext, target)
    ensures l.dir == cur < 512 && l.slot < 64 && 2 <= c < 512 && (c !in lay.Dirs() || DropSlot(img, l, c) == 64)
    ensures TableOf(img, l.dir)[l.slot] == ZERO_ENTRY
    ensures MoveInto(img, cur, name, ext, target) == Dropped(img, l, c, name, ext)
  {
    l, c := MoveFrom(img, cur, name, ext), HeadOf(TableOf(img, cur)[TargetSlot(img, cur, target)]);
    MoveIntoDrops(img, lay, cur, name, ext, target);
    TargetKind(img, lay, cur, target);
    MovedSlot(img, lay, MoveFrom(img, cur, name, ext));
  }

  lemma DroppedNothing(img: Image, lay: Layout, l: Loc, d: nat, name: Name, ext: Ext)
    requires Valid(MetaOf(img), lay) && l.dir in lay.Dirs() && l.dir < 512 && l.slot < 64 && 2 <= d < 512
    requires TableOf(img, l.dir)[l.slot] == ZERO_ENTRY && (d !in lay.Dirs() || DropSlot(img, l, d) == 64)
    ensures Valid(MetaOf(Dropped(img, l, d, name, ext)), lay)
    ensures TreeStays(MetaOf(img), MetaOf(Dropped(img, l, d, name, ext)), lay)
  {
    var img' := Dropped(img, l, d, name, ext);
    DirRange(MetaOf(img), lay);
    DroppedSlot(img, l, d, name, ext, l.dir, l.slot);
    forall x | x in lay.Dirs() && x < 512
      ensures MetaOf(img').tables[x] == MetaOf(img).tables[x]
    {
      DroppedNothingAt(img, l, d, name, ext, x);
    }
    TakenFrame(MetaOf(img), MetaOf(img'), lay);
  }

  lemma DroppedNothingAt(img: Image, l: Loc, d: nat, name: Name, ext: Ext, x: nat)
    requires 2 <= l.dir < 512 && l.slot < 64 && 2 <= d < 512 && 2 <= x < 512
    requires TableOf(img, l.dir)[l.slot] == ZERO_ENTRY && (x == d ==> DropSlot(img, l, d) == 64)
    ensures TableOf(Dropped(img, l, d, name, ext), x) == TableOf(img, x)
  {
    DroppedElsewhere(img, l, d, name, ext, x);
    ClearedNothing(img, l);
  }

  lemma ClearedNothing(img: Image, l: Loc)
    requires l.dir < 512 && l.slot < 64 && TableOf(img, l.dir)[l.slot] == ZERO_ENTRY
    ensures Cleared(img, l) == img
  {
    SlotToItself(img, l.dir, l.slot, ZERO_ENTRY);
  }

  lemma SafeMoveSound(img: Image, lay: Layout, cur: nat, name: Name, ext: Ext, target: Name)
    requires Valid(MetaOf(img), lay) && cur in lay.Dirs() && MoveIntoReady(img, cur, target)
    requires SafeMove(img, cur, name, ext, target)
    ensures Sound(MetaOf(MoveInto(img, cur, name, ext, target)))
  {
    var l, k := MoveFrom(img, cur, name, ext), MoveTo(img, cur, target);
    MoveIntoKeepsValid(img, lay, cur, name, ext, target);
    CarriesSound(MetaOf(img), lay, MetaOf(MoveInto(img, cur, name, ext, target)),
                 MoveEntry(lay, l, k, TableOf(img, cur)[l.slot].size == 0));
  }

  /** On a valid disk, `mv name /target` leaves a sound disk if and only if one of the two names is
      missing, the move is safe, or there was nothing to move and nowhere to put it. */
  lemma MoveIntoIsSoundIff(img: Image, lay: Layout, cur: nat, name: Name, ext: Ext, target: Name)
    requires Valid(MetaOf(img), lay) && cur in lay.Dirs() && MoveIntoReady(img, cur, target)
    ensures Sound(MetaOf(MoveInto(img, cur, name, ext, target)))
            <==> MoveSlot(img, cur, name, ext) == 64 || TargetSlot(img, cur, target) == 64
                 || SafeMove(img, cur, name, ext, target) || MovesNothing(img, cur, name, ext, target)
  {
    if MoveSlot(img, cur, name, ext) == 64 || TargetSlot(img, cur, target) == 64 {
      assert Valid(MetaOf(MoveInto(img, cur, name, ext, target)), lay);
    } else if SafeMove(img, cur, name, ext, target) {
      SafeMoveSound(img, lay, cur, name, ext, target);
    } else if MovesNothing(img, cur, name, ext, target) {
      var img' := MoveInto(img, cur, name, ext, target);
      var l, c := NothingMoves(img, lay, cur, name, ext, target);
      DroppedNothing(img, lay, l, c, name, ext);
    } else {
      forall lay'
        ensures !Valid(MetaOf(MoveInto(img, cur, name, ext, target)), lay')
      {
        UnsafeMoveInto(img, lay, cur, name, ext, target, lay');
      }
    }
  }

  // ---- mv name /.. ---------------------------------------------------------------------------------

  lemma MoveUpDrops(s: Shell, lay: Layout, name: Name, ext: Ext)
    requires ShellOk(s, lay) && CdReady(s) && MoveSlot(s.img, s.cur, name, ext) < 64
    ensures MoveUpReady(s, name, ext) && 2 <= s.cur < 512 && Parent(s) < 512
    ensures MoveUp(s, name, ext).img == Dropped(s.img, UpFrom(s, name, ext), Parent(s), name, ext)
  {
    var l := UpFrom(s, name, ext);
    ShellDir(s, lay);
    MovedSlot(s.img, lay, l);
    LiftedIs(s, name, ext);
    UpIsReady(s, lay);
    UpHere(s, lay, l);
    CdKeepsImage(MoveUpThere(s, name, ext), TableOf(s.img, s.cur)[0].name);
  }

  lemma UpHomeAfter(lay: Layout, l: Loc, k: Loc)
    requires WellFounded(lay.home)
    requires if l.dir in lay.home then lay.home[l.dir].dir == k.dir else k.dir == l.dir
    ensures WellFounded(HomeAfter(lay, l, k))
  {
    if l in lay.chains && |lay.chains[l]| > 0 && lay.chains[l][0] in lay.home && lay.home[lay.chains[l][0]] == l {
      UpWellFounded(lay.home, lay.chains[l][0], k);
    }
  }

  lemma ClearedHasRoom(img: Image, l: Loc)
    requires 2 <= l.dir < 512 && 1 <= l.slot < 64
    ensures DropSlot(img, l, l.dir) < 64
  {
    ClearedMeta(img, l);
    assert Hits(FreeSlot, TableOf(Cleared(img, l), l.dir)[l.slot]);
  }

  lemma UnfitForParent(img: Image, lay: Layout, l: Loc, p: nat, lay': Layout)
    requires Consistent(MetaOf(img), lay) && l.dir in lay.Dirs() && 2 <= l.dir < 512 && 1 <= l.slot < 64
    requires p in lay.Dirs() && p < 512 && (if l.dir in lay.home then lay.home[l.dir].dir == p else p == l.dir)
    requires var e := TableOf(img, l.dir)[l.slot];
             if Live(e) then DropSlot(img, l, p) < 64 ==> !FreshName(TableOf(Cleared(img, l), p), e)
             else DropSlot(img, l, p) < 64
    ensures var e := TableOf(img, l.dir)[l.slot]; !Valid(MetaOf(Dropped(img, l, p, e.name, e.ext)), lay')
  {
    var e := TableOf(img, l.dir)[l.slot];
    DirRange(MetaOf(img), lay);
    MovedSlot(img, lay, l);
    ClearedHasRoom(img, l);
    if DropSlot(img, l, p) == 64 {
      LostWhenDropped(img, lay, l, p, e.name, e.ext, lay');
    } else {
      if !Live(e) {
        NothingHasNoName(e);
      }
      UpHomeAfter(lay, l, Loc(p, DropSlot(img, l, p)));
      DroppedDoesNotFit(img, lay, l, p, e.name, e.ext, lay');
    }
  }

  lemma UnsafeMoveUp(s: Shell, lay: Layout, name: Name, ext: Ext, lay': Layout)
    requires ShellOk(s, lay) && CdReady(s) && MoveSlot(s.img, s.cur, name, ext) < 64 && Parent(s) < 512
    requires !SafeMoveUp(s, name, ext) && !LiftsNothing(s, name, ext)
    ensures !Valid(MetaOf(Dropped(s.img, UpFrom(s, name, ext), Parent(s), name, ext)), lay')
  {
    ParentIsUp(s, lay);
    WhyUnsafe(s, name, ext);
    UnfitForParent(s.img, lay, UpFrom(s, name, ext), Parent(s), lay');
  }

  lemma WhyUnsafe(s: Shell, name: Name, ext: Ext)
    requires CdReady(s) && MoveSlot(s.img, s.cur, name, ext) < 64 && Parent(s) < 512
    requires !SafeMoveUp(s, name, ext) && !LiftsNothing(s, name, ext)
    ensures var l := UpFrom(s, name, ext);
            var e := TableOf(s.img, s.cur)[l.slot];
            && l.dir == s.cur && 1 <= l.slot < 64 && e.name == name && e.ext == ext
            && if Live(e) then
                 DropSlot(s.img, l, Parent(s)) < 64 ==> !FreshName(TableOf(Cleared(s.img, l), Parent(s)), e)
               else DropSlot(s.img, l, Parent(s)) < 64
  {
  }

  predicate LiftsNothing(s: Shell, name: Name, ext: Ext)
    requires CdReady(s) && MoveSlot(s.img, s.cur, name, ext) < 64
  {
    !Live(TableOf(s.img, s.cur)[MoveSlot(s.img, s.cur, name, ext)]) && UpTo(s, name, ext).slot == 64
  }

  lemma LiftedNothingSound(s: Shell, lay: Layout, name: Name, ext: Ext)
    requires ShellOk(s, lay) && CdReady(s) && MoveSlot(s.img, s.cur, name, ext) < 64 && Parent(s) < 512
    requires NoLeak(MetaOf(s.img), lay) && LiftsNothing(s, name, ext)
    ensures Sound(MetaOf(Dropped(s.img, UpFrom(s, name, ext), Parent(s), name, ext)))
  {
    ShellDir(s, lay);
    ParentIsUp(s, lay);
    MovedSlot(s.img, lay, UpFrom(s, name, ext));
    DroppedNothing(s.img, lay, UpFrom(s, name, ext), Parent(s), name, ext);
  }

  lemma SafeMoveUpSound(s: Shell, lay: Layout, name: Name, ext: Ext)
    requires ShellOk(s, lay) && NoLeak(MetaOf(s.img), lay) && CdReady(s) && SafeMoveUp(s, name, ext)
    ensures MoveUpReady(s, name, ext) && Sound(MetaOf(MoveUp(s, name, ext).img))
  {
    var l, k := UpFrom(s, name, ext), UpTo(s, name, ext);
    MoveUpReturnsIff(s, lay, name, ext);
    CarriesSound(MetaOf(s.img), lay, MetaOf(MoveUp(s, name, ext).img),
                 MoveEntry(lay, l, k, TableOf(s.img, s.cur)[l.slot].size == 0));
  }

  /** From a valid disk, `mv name /..` leaves a sound disk if and only if the move is safe or there
      was nothing to move and no room in the parent. */
  lemma MoveUpIsSoundIff(s: Shell, lay: Layout, name: Name, ext: Ext)
    requires ShellOk(s, lay) && NoLeak(MetaOf(s.img), lay)
    requires CdReady(s) && MoveSlot(s.img, s.cur, name, ext) < 64
    ensures MoveUpReady(s, name, ext)
    ensures Sound(MetaOf(MoveUp(s, name, ext).img)) <==> SafeMoveUp(s, name, ext) || LiftsNothing(s, name, ext)
  {
    MoveUpDrops(s, lay, name, ext);
    if SafeMoveUp(s, name, ext) {
      SafeMoveUpSound(s, lay, name, ext);
    } else if LiftsNothing(s, name, ext) {
      LiftedNothingSound(s, lay, name, ext);
    } else {
      forall lay'
        ensures !Valid(MetaOf(MoveUp(s, name, ext).img), lay')
      {
        UnsafeMoveUp(s, lay, name, ext, lay');
      }
    }
  }

  // ---- mv name newname -----------------------------------------------------------------------------

  lemma RenamedDirs(m: Meta, m': Meta, lay: Layout, l: Loc, e: Entry)
    requires NamesDirs(m, lay.home) && l.dir in lay.Dirs() && l.dir < 512 && 1 <= l.slot < 64
    requires Live(e) && e.size == At(m, l).size && e.low == At(m, l).low
    requires forall d, s :: d in lay.Dirs() && d < 512 && 1 <= s < 64 ==>
               At(m', Loc(d, s)) == if Loc(d, s) == l then e else At(m, Loc(d, s))
    ensures NamesDirs(m', lay.home)
  {
    forall d | d in lay.home
      ensures NamesDir(m', lay.home, d)
    {
      assert NamesDir(m, lay.home, d);
    }
  }

  lemma RenamedSlots(img: Image, cur: nat, m: nat, newName: Name, newExt: Ext)
    requires 2 <= cur < 512 && 1 <= m < 64 && 3 <= HeadOf(TableOf(img, cur)[m]) < 512
    requires HeadOf(TableOf(img, cur)[m]) != cur
    ensures forall d, i :: 2 <= d < 512 && 1 <= i < 64 ==>
              TableOf(RenameSlot(img, cur, m, newName, newExt), d)[i]
              == if Loc(d, i) == Loc(cur, m) then RenamedEntry(TableOf(img, cur)[m], newName, newExt)
                 else TableOf(img, d)[i]
  {
    RenameMeta(img, cur, m, newName, newExt);
  }

  lemma RenameNamesDirs(img: Image, lay: Layout, cur: nat, m: nat, newName: Name, newExt: Ext)
    requires Consistent(MetaOf(img), lay) && cur in lay.Dirs() && 2 <= cur < 512 && 1 <= m < 64
    requires 3 <= HeadOf(TableOf(img, cur)[m]) < 512 && HeadOf(TableOf(img, cur)[m]) != cur
    requires Live(TableOf(img, cur)[m])
    ensures NamesDirs(MetaOf(RenameSlot(img, cur, m, newName, newExt)), lay.home)
  {
    DirRange(MetaOf(img), lay);
    HomeNamesDirs(MetaOf(img), lay);
    RenamedSlots(img, cur, m, newName, newExt);
    RenamedDirs(MetaOf(img), MetaOf(RenameSlot(img, cur, m, newName, newExt)), lay, Loc(cur, m),
                RenamedEntry(TableOf(img, cur)[m], newName, newExt));
  }

  ghost predicate Takes(t: Table, d: nat, s: nat, e: Entry)
    requires s < 64
  {
    TableOk(t[s := e], d)
  }

  lemma UnfitRename(t: Table, d: nat, s: nat, e: Entry)
    requires d < 512 && s < 64 && Live(e)
    requires !(Named(e) && FreshName(t[s := ZERO_ENTRY], e)) || (s == 0 && e.ext != NO_EXT)
    ensures !Takes(t, d, s, e)
  {
    assert t[s := e][s] == e;
    if Named(e) && !FreshName(t[s := ZERO_ENTRY], e) {
      var t0, t' := t[s := ZERO_ENTRY], t[s := e];
      var j :| 0 <= j < 64 && Live(t0[j]) && SameName(t0[j], e);
      NamesClash(t', d, j, s);
    }
  }

  /** Why a rename is unsafe: one of the two tables it rewrites does not take the new entry. */
  lemma WhyUnsafeRename(img: Image, cur: nat, name: Name, ext: Ext, newName: Name, newExt: Ext, m: nat, c: nat)
    requires cur < 512 && m == Match(img, cur, name, ext) < 64 && c == HeadOf(TableOf(img, cur)[m]) < 512
    requires Live(TableOf(img, cur)[m])
    requires (TableOf(img, cur)[m].size == 0 ==> TableOf(img, c)[0] == TableOf(img, cur)[m])
    requires !SafeRename(img, cur, name, ext, newName, newExt)
    ensures !Takes(TableOf(img, cur), cur, m, RenamedEntry(TableOf(img, cur)[m], newName, newExt))
            || (TableOf(img, cur)[m].size == 0
                && !Takes(TableOf(img, c), c, 0, RenamedEntry(TableOf(img, c)[0], newName, newExt)))
  {
    var e := RenamedEntry(TableOf(img, cur)[m], newName, newExt);
    if Named(e) && FreshName(TableOf(img, cur)[m := ZERO_ENTRY], e) {
      UnfitRename(TableOf(img, c), c, 0, e);
    } else {
      UnfitRename(TableOf(img, cur), cur, m, e);
    }
  }

  lemma RenameTarget(img: Image, lay: Layout, cur: nat, name: Name, ext: Ext) returns (m: nat, c: nat)
    requires Consistent(MetaOf(img), lay) && cur in lay.Dirs() && cur < 512 && Match(img, cur, name, ext) < 64
    ensures m == Match(img, cur, name, ext) && c == HeadOf(TableOf(img, cur)[m])
    ensures 1 <= m < 64 && 2 <= cur && 3 <= c < 512 && c != cur && Live(TableOf(img, cur)[m])
    ensures TableOf(img, cur)[m].size == 0 ==> c in lay.home && TableOf(img, c)[0] == TableOf(img, cur)[m]
  {
    m := Match(img, cur, name, ext);
    c := HeadOf(TableOf(img, cur)[m]);
    RenameEnds(img, lay, cur, name, ext);
    LiveEntryFacts(img, lay, Loc(cur, m));
  }

  lemma UnsafeRename(img: Image, lay: Layout, cur: nat, name: Name, ext: Ext, newName: Name, newExt: Ext, lay': Layout)
    requires Consistent(MetaOf(img), lay) && cur in lay.Dirs() && cur < 512 && Match(img, cur, name, ext) < 64
    requires !SafeRename(img, cur, name, ext, newName, newExt)
    ensures HeadOf(TableOf(img, cur)[Match(img, cur, name, ext)]) < 512
    ensures !Valid(MetaOf(Rename(img, cur, name, ext, newName, newExt)), lay')
  {
    var m, c := RenameTarget(img, lay, cur, name, ext);
    WhyUnsafeRename(img, cur, name, ext, newName, newExt, m, c);
    RenameNamesDirs(img, lay, cur, m, newName, newExt);
    RenameMeta(img, cur, m, newName, newExt);
    BadRename(RenameSlot(img, cur, m, newName, newExt), lay.home, cur, c, lay');
  }

  lemma BadRename(img: Image, h: map<nat, Loc>, cur: nat, c: nat, lay: Layout)
    requires NamesDirs(MetaOf(img), h) && cur in h.Keys + {ROOT} && cur < 512 && c < 512
    requires !TableOk(TableOf(img, cur), cur) || (c in h && !TableOk(TableOf(img, c), c))
    ensures !Valid(MetaOf(img), lay)
  {
    if TableOk(TableOf(img, cur), cur) {
      BadTable(MetaOf(img), h, c, lay);
    } else {
      BadTable(MetaOf(img), h, cur, lay);
    }
  }

  /** On a valid disk, `mv name newname` leaves a sound disk if and only if the name is missing or
      the rename is safe. */
  lemma RenameIsSoundIff(img: Image, lay: Layout, cur: nat, name: Name, ext: Ext, newName: Name, newExt: Ext)
    requires Valid(MetaOf(img), lay) && cur in lay.Dirs() && cur < 512
    ensures Match(img, cur, name, ext) < 64 ==> HeadOf(TableOf(img, cur)[Match(img, cur, name, ext)]) < 512
    ensures Sound(MetaOf(Rename(img, cur, name, ext, newName, newExt)))
            <==> Match(img, cur, name, ext) == 64 || SafeRename(img, cur, name, ext, newName, newExt)
  {
    if Match(img, cur, name, ext) == 64 {
      assert Valid(MetaOf(Rename(img, cur, name, ext, newName, newExt)), lay);
    } else if SafeRename(img, cur, name, ext, newName, newExt) {
      RenameKeepsValid(img, lay, cur, name, ext, newName, newExt);
      CarriesSound(MetaOf(img), lay, MetaOf(Rename(img, cur, name, ext, newName, newExt)), lay);
    } else {
      RenameEnds(img, lay, cur, name, ext);
      forall lay'
        ensures !Valid(MetaOf(Rename(img, cur, name, ext, newName, newExt)), lay')
      {
        UnsafeRename(img, lay, cur, name, ext, newName, newExt, lay');
      }
    }
  }

  // ---- mv of a name that is not there --------------------------------------------------------------

  /** The entries of the tree are all still there, and `k`, free before, is live. */
  ghost predicate Gains(m: Meta, m': Meta, lay: Layout, k: Loc) {
    && m'.fat == m.fat && SameEntries(m, m', lay)
    && k.dir in lay.Dirs() && k.dir < 512 && 1 <= k.slot < 64 && !Live(At(m, k)) && Live(At(m', k))
  }

  lemma KeptInGain(m: Meta, m': Meta, lay: Layout, lay': Layout, k: Loc, l: Loc)
    requires Consistent(m, lay) && Consistent(m', lay') && Gains(m, m', lay, k) && l in lay.chains
    ensures l in lay'.chains && lay'.chains[l] == lay.chains[l]
  {
    SameEntriesNameDirs(m, m', lay);
    NamedDirsAreIn(m', lay', lay.home);
    KeptChain(m, m', lay, lay', l);
  }

  lemma GainedChain(m: Meta, m': Meta, lay: Layout, lay': Layout, k: Loc) returns (c: nat)
    requires Consistent(m, lay) && Consistent(m', lay') && Gains(m, m', lay, k)
    ensures k in lay'.chains && c in lay'.chains[k] && 3 <= c < 512 && m.fat[c] != 0
  {
    SameEntriesNameDirs(m, m', lay);
    NamedDirsAreIn(m', lay', lay.home);
    assert k.dir in lay'.Dirs() && k == Loc(k.dir, k.slot);
    ChainStart(m', lay', k);
    c := lay'.chains[k][0];
  }

  /** An entry that appears while the map is unchanged has no clusters of its own. */
  lemma GainedEntryClashes(m: Meta, m': Meta, lay: Layout, lay': Layout, k: Loc)
    requires Valid(m, lay) && Gains(m, m', lay, k)
    ensures !Consistent(m', lay')
  {
    if Consistent(m', lay') {
      var c := GainedChain(m, m', lay, lay', k);
      assert Owned(lay, c);
      var l :| l in lay.chains && c in lay.chains[l];
      KeptInGain(m, m', lay, lay', k, l);
    }
  }

  lemma DepositGains(img: Image, lay: Layout, d: nat, e: Entry, name: Name, ext: Ext, img': Image, k: Loc)
    requires Consistent(MetaOf(img), lay) && d in lay.Dirs() && d < 512 && img' == Deposit(img, d, d, e, name, ext)
    requires k == Loc(d, First(TableOf(img, d), FreeSlot, 1)) && k.slot < 64
    ensures Gains(MetaOf(img), MetaOf(img'), lay, k)
  {
    DirRange(MetaOf(img), lay);
    DepositIsLive(img, d, e, name, ext, img', k.slot);
    DepositKeepsEntries(img, lay, d, e, name, ext, img');
    GainsAt(img, img', lay, k);
  }

  lemma DepositIsLive(img: Image, d: nat, e: Entry, name: Name, ext: Ext, img': Image, o: nat)
    requires 2 <= d < 512 && img' == Deposit(img, d, d, e, name, ext) && o == First(TableOf(img, d), FreeSlot, 1) < 64
    ensures FatOf(img') == FatOf(img) && !Live(TableOf(img, d)[o]) && Live(TableOf(img', d)[o])
  {
    DepositSlot(img, d, e, name, ext, d, o);
    assert Hits(FreeSlot, TableOf(img, d)[o]);
  }

  lemma GainsAt(img: Image, img': Image, lay: Layout, k: Loc)
    requires FatOf(img') == FatOf(img) && SameEntries(MetaOf(img), MetaOf(img'), lay)
    requires k.dir in lay.Dirs() && k.dir < 512 && 1 <= k.slot < 64
    requires !Live(TableOf(img, k.dir)[k.slot]) && Live(TableOf(img', k.dir)[k.slot])
    ensures Gains(MetaOf(img), MetaOf(img'), lay, k)
  {
  }

  lemma DepositKeepsEntries(img: Image, lay: Layout, d: nat, e: Entry, name: Name, ext: Ext, img': Image)
    requires Consistent(MetaOf(img), lay) && 2 <= d < 512 && img' == Deposit(img, d, d, e, name, ext)
    ensures SameEntries(MetaOf(img), MetaOf(img'), lay)
  {
    DirRange(MetaOf(img), lay);
    forall l | l in lay.chains && l.dir < 512 && l.slot < 64
      ensures At(MetaOf(img'), l) == At(MetaOf(img), l)
    {
      DepositKeepsLive(img, d, e, name, ext, img', l.dir, l.slot);
    }
  }

  lemma MissingImage(s: Shell, lay: Layout, name: Name, ext: Ext, junk: u16) returns (img': Image)
    requires ShellOk(s, lay)
    ensures MissingReady(s) && Parent(s) in lay.Dirs() && Parent(s) < 512
    ensures img' == MoveUpMissing(s, name, ext, junk).img
    ensures img' == Deposit(s.img, Parent(s), Parent(s), ZERO_ENTRY.(low := junk), name, ext)
  {
    ShellDir(s, lay);
    ParentIsUp(s, lay);
    UpIsReady(s, lay);
    assert Cd(s, UP).0 == Up(s);
    OwnSlotHead(TableOf(s.img, Parent(s)), Parent(s));
    img' := Deposit(s.img, Parent(s), Parent(s), ZERO_ENTRY.(low := junk), name, ext);
    CdKeepsImage(Up(s).(img := img'), TableOf(s.img, s.cur)[0].name);
  }

  /** `mv name /..` for a name that is not there deposits an entry of size 0 all the same, for
      whatever cluster its local variable held: the disk stays sound if and only if the parent has
      no room for it. */
  lemma MoveMissingIsSoundIff(s: Shell, lay: Layout, name: Name, ext: Ext, junk: u16)
    requires ShellOk(s, lay) && NoLeak(MetaOf(s.img), lay)
    requires s.cur < 512 && MoveSlot(s.img, s.cur, name, ext) == 64
    ensures MissingReady(s) && Parent(s) < 512
    ensures Sound(MetaOf(MoveUpMissing(s, name, ext, junk).img))
            <==> First(TableOf(s.img, Parent(s)), FreeSlot, 1) == 64
  {
    var img' := MissingImage(s, lay, name, ext, junk);
    if First(TableOf(s.img, Parent(s)), FreeSlot, 1) == 64 {
      assert Valid(MetaOf(img'), lay);
    } else {
      var k := Loc(Parent(s), First(TableOf(s.img, Parent(s)), FreeSlot, 1));
      DepositGains(s.img, lay, Parent(s), ZERO_ENTRY.(low := junk), name, ext, img', k);
      forall lay'
        ensures !Valid(MetaOf(img'), lay')
      {
        GainedEntryClashes(MetaOf(s.img), MetaOf(img'), lay, lay', k);
      }
    }
  }

  // ---- A crash between the two writes of mv ------------------------------------------------------------

  lemma HeadIsIn(m: Meta, h: map<nat, Loc>, l: Loc, lay: Layout)
    requires Consistent(m, lay) && NamesDirs(m, h) && l.dir in h.Keys + {ROOT}
    requires l.dir < 512 && 1 <= l.slot < 64 && Live(At(m, l))
    ensures l in lay.chains && At(m, l).low in lay.chains[l]
  {
    NamedDirsAreIn(m, lay, h);
    assert EntryOk(m, lay, l);
    assert lay.chains[l][0] in lay.chains[l];
  }

  lemma DepositKeepsLive(img: Image, d: nat, e: Entry, name: Name, ext: Ext, img': Image, x: nat, i: nat)
    requires 2 <= d < 512 && 2 <= x < 512 && i < 64 && Live(TableOf(img, x)[i])
    requires img' == Deposit(img, d, d, e, name, ext)
    ensures TableOf(img', x)[i] == TableOf(img, x)[i]
  {
    DepositSlot(img, d, e, name, ext, x, i);
  }

  /** `mv name /target` writes the target's table first. Stopping there leaves two entries for one
      chain, which no layout allows. */
  lemma MoveIntoIsNotCrashSafe(img: Image, lay: Layout, cur: nat, name: Name, ext: Ext, target: Name, lay': Layout)
    requires Valid(MetaOf(img), lay) && cur in lay.Dirs() && MoveIntoReady(img, cur, target)
    requires SafeMove(img, cur, name, ext, target)
    ensures TargetsReadable(TableOf(img, cur), target)
    ensures var steps := MoveSteps(img, cur, TableOf(img, cur), 1, name, ext, target);
            |steps| == 2 && !Consistent(MetaOf(steps[0]), lay') && steps[1] == MoveInto(img, cur, name, ext, target)
  {
    SafeMoveSteps(img, lay, cur, name, ext, target);
    var l, k := MoveFrom(img, cur, name, ext), MoveTo(img, cur, target);
    MoveEnds(img, lay, cur, name, ext, target);
    var img' := Deposit(img, k.dir, k.dir, TableOf(img, cur)[l.slot], name, ext);
    DepositGains(img, lay, k.dir, TableOf(img, cur)[l.slot], name, ext, img', k);
    GainedEntryClashes(MetaOf(img), MetaOf(img'), lay, lay', k);
  }

  /** `mv name /..` clears first. Stopping there loses the entry: its clusters have no owner left. */
  lemma MoveUpIsNotCrashSafe(s: Shell, lay: Layout, name: Name, ext: Ext, lay': Layout)
    requires ShellOk(s, lay) && CdReady(s) && SafeMoveUp(s, name, ext)
    ensures MoveUpReady(s, name, ext) && UpReady(s, name, ext)
    ensures var steps := UpSteps(s, name, ext, 0);
            |steps| == 2 && !Valid(MetaOf(steps[0]), lay') && steps[1] == MoveUp(s, name, ext).img
  {
    var l := UpFrom(s, name, ext);
    SafeUpSteps(s, lay, name, ext);
    ShellDir(s, lay);
    MovedSlot(s.img, lay, l);
    LiftedIs(s, name, ext);
    ClearedLeaks(s.img, lay, l, lay');
  }

  lemma UpStepsAre(s: Shell, name: Name, ext: Ext)
    requires CdReady(s) && MoveSlot(s.img, s.cur, name, ext) < 64 && MoveUpReady(s, name, ext)
    requires var up := Lifted(s, name, ext); First(TableOf(up.img, up.cur), FreeSlot, 1) < 64
    ensures UpReady(s, name, ext)
    ensures UpSteps(s, name, ext, 0) == [Lifted(s, name, ext).img, MoveUp(s, name, ext).img]
  {
    CdKeepsImage(MoveUpThere(s, name, ext), TableOf(s.img, s.cur)[0].name);
  }

  /** A safe `mv name /..` is two writes: the current table, then the parent's. */
  lemma SafeUpSteps(s: Shell, lay: Layout, name: Name, ext: Ext)
    requires ShellOk(s, lay) && CdReady(s) && SafeMoveUp(s, name, ext)
    ensures MoveUpReady(s, name, ext) && UpReady(s, name, ext)
    ensures UpSteps(s, name, ext, 0) == [Lifted(s, name, ext).img, MoveUp(s, name, ext).img]
  {
    ShellDir(s, lay);
    MovedSlot(s.img, lay, UpFrom(s, name, ext));
    LiftedIs(s, name, ext);
    MoveUpDrops(s, lay, name, ext);
    UpStepsAre(s, name, ext);
  }

  lemma ClearedLeaks(img: Image, lay: Layout, l: Loc, lay': Layout)
    requires Consistent(MetaOf(img), lay) && l in lay.chains && 2 <= l.dir < 512 && l.slot < 64
    ensures !Valid(MetaOf(Cleared(img, l)), lay')
  {
    DirRange(MetaOf(img), lay);
    ClearedSlot(img, l, l.dir, l.slot);
    forall x, i | x in lay.Dirs() && x < 512 && 0 <= i < 64
      ensures TableOf(Cleared(img, l), x)[i] == TableOf(img, x)[i] || TableOf(Cleared(img, l), x)[i] == ZERO_ENTRY
    {
      ClearedSlot(img, l, x, i);
    }
    LostEntryLeaks(MetaOf(img), MetaOf(Cleared(img, l)), lay, l, lay');
  }

  // ---- A crash between the two writes of a rename ------------------------------------------------------

  lemma HalfMeta(img: Image, lay: Layout, cur: nat, m: nat, newName: Name, newExt: Ext) returns (mid: Image)
    requires Consistent(MetaOf(img), lay) && cur in lay.Dirs() && 2 <= cur < 512 && m < 64
    ensures mid == RenameHalf(img, cur, m, newName, newExt) && FatOf(mid) == FatOf(img)
    ensures MetaOf(mid).tables[cur] == MetaOf(img).tables[cur][m := RenamedEntry(TableOf(img, cur)[m], newName, newExt)]
    ensures forall d :: 0 <= d < 512 && d != cur ==> MetaOf(mid).tables[d] == MetaOf(img).tables[d]
  {
    mid := RenameHalf(img, cur, m, newName, newExt);
    PutTableMeta(img, cur, TableOf(img, cur)[m := RenamedEntry(TableOf(img, cur)[m], newName, newExt)]);
  }

  /** A file's entry alone carries its name on the disk. */
  lemma HalfRenamedFile(img: Image, lay: Layout, cur: nat, name: Name, ext: Ext, newName: Name, newExt: Ext)
    requires Valid(MetaOf(img), lay) && cur in lay.Dirs() && cur < 512
    requires SafeRename(img, cur, name, ext, newName, newExt)
    requires TableOf(img, cur)[Match(img, cur, name, ext)].size > 0
    ensures Valid(MetaOf(RenameHalf(img, cur, Match(img, cur, name, ext), newName, newExt)), lay)
  {
    var m := Match(img, cur, name, ext);
    RenameEnds(img, lay, cur, name, ext);
    var mid := HalfMeta(img, lay, cur, m, newName, newExt);
    RenamePreserves(MetaOf(img), MetaOf(mid), lay, Loc(cur, m), RenamedEntry(TableOf(img, cur)[m], newName, newExt));
  }

  /** A directory's entry and the copy in its own slot 0 have to agree. */
  lemma CopiesAgree(m: Meta, lay: Layout, h: map<nat, Loc>, l: Loc)
    requires Consistent(m, lay) && NamesDirs(m, h) && l.dir in h.Keys + {ROOT} && l.dir < 512 && 1 <= l.slot < 64
    requires Live(At(m, l)) && At(m, l).size == 0
    ensures At(m, l).low < 512 && m.tables[At(m, l).low][0] == At(m, l)
  {
    HeadIsIn(m, h, l, lay);
    assert EntryOk(m, lay, l);
  }

  lemma RenamedAlone(m: Meta, m': Meta, lay: Layout, l: Loc, e: Entry, lay': Layout)
    requires NamesDirs(m, lay.home) && l.dir in lay.Dirs() && l.dir < 512 && 1 <= l.slot < 64
    requires Live(e) && e.size == 0 == At(m, l).size && e.low == At(m, l).low < 512 && e.low != l.dir
    requires m'.tables[l.dir] == m.tables[l.dir][l.slot := e] && m.tables[e.low][0] != e
    requires forall d :: 0 <= d < 512 && d != l.dir ==> m'.tables[d] == m.tables[d]
    ensures !Consistent(m', lay')
  {
    RenamedDirs(m, m', lay, l, e);
    if Consistent(m', lay') {
      CopiesAgree(m', lay', lay.home, l);
    }
  }

  lemma HalfRenamedDirectory(img: Image, lay: Layout, cur: nat, name: Name, ext: Ext, newName: Name, lay': Layout)
    requires Consistent(MetaOf(img), lay) && cur in lay.Dirs() && cur < 512 && Match(img, cur, name, ext) < 64
    requires TableOf(img, cur)[Match(img, cur, name, ext)].size == 0 && newName != name
    ensures !Consistent(MetaOf(RenameHalf(img, cur, Match(img, cur, name, ext), newName, NO_EXT)), lay')
  {
    var m, c := RenameTarget(img, lay, cur, name, ext);
    var mid := HalfMeta(img, lay, cur, m, newName, NO_EXT);
    var e := RenamedEntry(TableOf(img, cur)[m], newName, NO_EXT);
    HomeNamesDirs(MetaOf(img), lay);
    LiveEntryFacts(img, lay, Loc(cur, m));
    RenamedAlone(MetaOf(img), MetaOf(mid), lay, Loc(cur, m), e, lay');
  }

  /** A safe rename stopped between its two writes leaves a sound disk if and only if it was a file's
      or changed nothing: a directory's entry no longer agrees with its slot 0. */
  lemma RenameCrashIff(img: Image, lay: Layout, cur: nat, name: Name, ext: Ext, newName: Name, newExt: Ext)
    requires Valid(MetaOf(img), lay) && cur in lay.Dirs() && cur < 512
    requires SafeRename(img, cur, name, ext, newName, newExt)
    ensures var m := Match(img, cur, name, ext);
            Sound(MetaOf(RenameHalf(img, cur, m, newName, newExt)))
            <==> TableOf(img, cur)[m].size > 0 || newName == name
  {
    var m := Match(img, cur, name, ext);
    if TableOf(img, cur)[m].size > 0 {
      HalfRenamedFile(img, lay, cur, name, ext, newName, newExt);
    } else if newName == name {
      RenamedToSelf(img, lay, cur, name, ext);
    } else {
      forall lay'
        ensures !Valid(MetaOf(RenameHalf(img, cur, m, newName, newExt)), lay')
      {
        HalfRenamedDirectory(img, lay, cur, name, ext, newName, lay');
      }
    }
  }

  lemma RenamedToSelf(img: Image, lay: Layout, cur: nat, name: Name, ext: Ext)
    requires Valid(MetaOf(img), lay) && cur in lay.Dirs() && cur < 512 && Match(img, cur, name, ext) < 64
    requires TableOf(img, cur)[Match(img, cur, name, ext)].size == 0
    ensures RenameHalf(img, cur, Match(img, cur, name, ext), name, NO_EXT) == img
  {
    var m, c := RenameTarget(img, lay, cur, name, ext);
    LiveEntryFacts(img, lay, Loc(cur, m));
    SlotToItself(img, cur, m, RenamedEntry(TableOf(img, cur)[m], name, NO_EXT));
  }

  lemma SlotToItself(img: Image, d: nat, m: nat, e: Entry)
    requires d < 2048 && m < 64 && TableOf(img, d)[m] == e
    ensures PutTable(img, d, TableOf(img, d)[m := e]) == img
  {
    assert TableOf(img, d)[m := e] == TableOf(img, d);
    WriteBackIsNoOp(img, d);
  }
}
