/** The three ways an operation changes the tree - add an entry, drop one, move one - and the
    proof that each keeps the whole-disk invariant. */
module Edits {
  import opened Format
  import opened Volume

  function AddEntry(lay: Layout, l: Loc, ch: seq<nat>, isDir: bool): Layout
    requires |ch| > 0
  {
    Layout(lay.chains[l := ch], if isDir then lay.home[ch[0] := l] else lay.home)
  }

  /** A new directory's table: its own entry in slot 0, then nothing. */
  function NewTable(e: Entry): Table {
    seq(64, (s: nat) => if s == 0 then e else ZERO_ENTRY)
  }

  ghost predicate FreshName(t: Table, e: Entry) {
    forall s :: 0 <= s < 64 && Live(t[s]) ==> !SameName(t[s], e)
  }

  // ---- Adding an entry -------------------------------------------------------

  /** `m'` is `m` with the finished chain `ch` published as entry `e` in the free slot `l`. */
  ghost predicate Adds(m: Meta, m': Meta, lay: Layout, l: Loc, e: Entry, ch: seq<nat>) {
    && AddsChain(m.fat, m'.fat, e, ch)
    && AddsSlot(m, m', lay, l, e)
    && (e.size == 0 ==> e.ext == NO_EXT && m'.tables[ch[0]] == NewTable(e))
  }

  ghost predicate AddsChain(fat: Fat, fat': Fat, e: Entry, ch: seq<nat>) {
    && IsChain(fat', ch) && |ch| == ClustersOf(e.size)
    && e == LiveEntry(e.name, e.ext, ch[0], e.size)
    && (forall c :: c in ch ==> c < 512 && fat[c] == 0)
    && (forall c :: 0 <= c < 512 && fat[c] != 0 ==> fat'[c] == fat[c])
  }

  ghost predicate AddsSlot(m: Meta, m': Meta, lay: Layout, l: Loc, e: Entry) {
    && l.dir in lay.Dirs() && l.dir < 512 && 1 <= l.slot < 64 && !Live(At(m, l))
    && Live(e) && Named(e) && FreshName(m.tables[l.dir], e)
    && m'.tables[l.dir] == m.tables[l.dir][l.slot := e]
    && (forall d :: d in lay.Dirs() && d < 512 && d != l.dir ==> m'.tables[d] == m.tables[d])
  }

  lemma AddWellFounded(home: map<nat, Loc>, x: nat, l: Loc)
    requires WellFounded(home) && x !in home && l.dir != x
    requires forall d :: d in home ==> home[d].dir != x
    ensures WellFounded(home[x := l])
  {
    var home' := home[x := l];
    forall S: set<nat> | S != {} && S <= home'.Keys
      ensures HasWayOut(home', S)
    {
      var T := S - {x};
      if T == {} {
        assert S == {x};
      } else {
        assert HasWayOut(home, T);
        var d :| d in T && d in home && home[d].dir !in T;
      }
    }
  }

  lemma NewTableOk(e: Entry, d: nat)
    requires d < 512 && e == LiveEntry(e.name, NO_EXT, d, 0) && Named(e)
    ensures TableOk(NewTable(e), d)
  {
  }

  /** A table edited in one slot beyond the first keeps its own entry. */
  lemma AddTables(m: Meta, m': Meta, lay: Layout, l: Loc, e: Entry)
    requires TablesOk(m, lay) && AddsSlot(m, m', lay, l, e)
    ensures TablesOk(m', lay)
    ensures forall d :: d in lay.Dirs() && d < 512 ==> m'.tables[d][0] == m.tables[d][0]
  {
    forall d | d in lay.Dirs()
      ensures d < 512 && TableOk(m'.tables[d], d) && m'.tables[d][0] == m.tables[d][0]
    {
      assert TableOk(m.tables[d], d);
    }
  }

  lemma AddSlots(m: Meta, m': Meta, lay: Layout, l: Loc, e: Entry, ch: seq<nat>)
    requires SlotsMatch(m, lay) && AddsSlot(m, m', lay, l, e) && |ch| > 0
    requires e.size == 0 ==> ch[0] !in lay.Dirs() && ch[0] < 512 && m'.tables[ch[0]] == NewTable(e)
    ensures SlotsMatch(m', AddEntry(lay, l, ch, e.size == 0))
  {
    var lay' := AddEntry(lay, l, ch, e.size == 0);
    forall k | k in lay'.chains
      ensures k.dir in lay'.Dirs() && k.dir < 512 && 1 <= k.slot < 64 && Live(At(m', k))
    {
      if k != l {
        assert k in lay.chains;
      }
    }
    forall d, s | d in lay'.Dirs() && d < 512 && 1 <= s < 64 && Live(At(m', Loc(d, s)))
      ensures Loc(d, s) in lay'.chains
    {
      if d in lay.Dirs() && Loc(d, s) != l {
        assert At(m', Loc(d, s)) == At(m, Loc(d, s));
      }
    }
  }

  lemma AddKeepsChain(fat: Fat, fat': Fat, ch: seq<nat>)
    requires IsChain(fat, ch)
    requires forall c :: 0 <= c < 512 && fat[c] != 0 ==> fat'[c] == fat[c]
    ensures IsChain(fat', ch)
  {
    forall c | 0 <= c < 512 && c in ch
      ensures fat'[c] == fat[c]
    {
      ChainIsTaken(fat, ch, c);
    }
  }

  lemma AddKeepsEntry(m: Meta, m': Meta, lay: Layout, l: Loc, e: Entry, ch: seq<nat>, k: Loc)
    requires SlotsMatch(m, lay) && AddsSlot(m, m', lay, l, e) && k in lay.chains && k.dir < 512 && k.slot < 64
    requires AddsChain(m.fat, m'.fat, e, ch) && EntryOk(m, lay, k)
    requires forall d :: d in lay.Dirs() ==> d < 512 && m.fat[d] != 0
    requires forall d :: d in lay.Dirs() && d < 512 ==> m'.tables[d][0] == m.tables[d][0]
    ensures k != l && At(m', k) == At(m, k) && EntryOk(m', AddEntry(lay, l, ch, e.size == 0), k)
  {
    AddKeepsChain(m.fat, m'.fat, lay.chains[k]);
  }

  lemma AddDisjoint(m: Meta, lay: Layout, l: Loc, ch: seq<nat>)
    requires Disjoint(lay.chains) && |ch| > 0
    requires EntriesOk(m, lay)
    requires forall c :: c in ch ==> c < 512 && m.fat[c] == 0
    ensures Disjoint(lay.chains[l := ch])
  {
    forall k, c | k in lay.chains && c in lay.chains[k]
      ensures c !in ch
    {
      assert EntryOk(m, lay, k);
      ChainIsTaken(m.fat, lay.chains[k], c);
    }
  }

  lemma AddHome(m: Meta, m': Meta, lay: Layout, l: Loc, ch: seq<nat>, isDir: bool, d: nat)
    requires d in lay.home && HomeOk(m, lay, d) && |ch| > 0 && d != ch[0]
    requires lay.home[d] != l && At(m', lay.home[d]) == At(m, lay.home[d])
    ensures HomeOk(m', AddEntry(lay, l, ch, isDir), d)
  {
  }

  lemma AddEntries(m: Meta, m': Meta, lay: Layout, l: Loc, e: Entry, ch: seq<nat>)
    requires Consistent(m, lay) && Adds(m, m', lay, l, e, ch)
    ensures l !in lay.chains && ch[0] !in lay.Dirs()
    ensures forall k :: k in lay.chains ==>
      k.dir < 512 && k.slot < 64 && At(m', k) == At(m, k) && EntryOk(m', AddEntry(lay, l, ch, e.size == 0), k)
  {
    AddTables(m, m', lay, l, e);
    forall d | d in lay.Dirs()
      ensures d < 512 && m.fat[d] != 0
    {
      DirsAreTaken(m, lay, d);
    }
    forall k | k in lay.chains
      ensures k.dir < 512 && k.slot < 64 && At(m', k) == At(m, k)
      ensures EntryOk(m', AddEntry(lay, l, ch, e.size == 0), k)
    {
      AddKeepsEntry(m, m', lay, l, e, ch, k);
    }
  }

  lemma AddHomes(m: Meta, m': Meta, lay: Layout, l: Loc, e: Entry, ch: seq<nat>)
    requires Consistent(m, lay) && |ch| > 0 && l !in lay.chains && ch[0] !in lay.Dirs() && l.dir in lay.Dirs()
    requires l.dir < 512 && l.slot < 64 && At(m', l) == e && (e.size == 0 ==> |ch| == 1)
    requires forall k :: k in lay.chains ==> k.dir < 512 && k.slot < 64 && At(m', k) == At(m, k)
    ensures var lay' := AddEntry(lay, l, ch, e.size == 0);
            WellFounded(lay'.home) && HomesOk(m', lay')
  {
    var lay' := AddEntry(lay, l, ch, e.size == 0);
    forall d | d in lay.home
      ensures HomeOk(m', lay', d) && lay.home[d].dir != ch[0]
    {
      AddHome(m, m', lay, l, ch, e.size == 0, d);
    }
    if e.size == 0 {
      AddWellFounded(lay.home, ch[0], l);
      assert lay'.chains[l] == [ch[0]];
    }
  }

  lemma AddPreserves(m: Meta, m': Meta, lay: Layout, l: Loc, e: Entry, ch: seq<nat>)
    requires Consistent(m, lay) && Adds(m, m', lay, l, e, ch)
    ensures Consistent(m', AddEntry(lay, l, ch, e.size == 0))
  {
    AddEntries(m, m', lay, l, e, ch);
    AddHomes(m, m', lay, l, e, ch);
    AddRest(m, m', lay, l, e, ch);
  }

  lemma AddRest(m: Meta, m': Meta, lay: Layout, l: Loc, e: Entry, ch: seq<nat>)
    requires Consistent(m, lay) && Adds(m, m', lay, l, e, ch) && ch[0] !in lay.Dirs()
    ensures var lay' := AddEntry(lay, l, ch, e.size == 0);
            && FatHeader(m'.fat) && TablesOk(m', lay') && SlotsMatch(m', lay')
            && Disjoint(lay'.chains) && EntryOk(m', lay', l)
  {
    AddTables(m, m', lay, l, e);
    AddSlots(m, m', lay, l, e, ch);
    AddDisjoint(m, lay, l, ch);
    if e.size == 0 {
      NewTableOk(e, ch[0]);
    }
  }

  lemma AddLeaksNothing(m: Meta, m': Meta, lay: Layout, l: Loc, ch: seq<nat>, isDir: bool)
    requires |ch| > 0 && l !in lay.chains
    requires forall c :: 3 <= c < 512 && m'.fat[c] != 0 && c !in ch ==> m.fat[c] != 0
    ensures LeaksNoMore(m, lay, m', AddEntry(lay, l, ch, isDir))
  {
    var lay' := AddEntry(lay, l, ch, isDir);
    forall c | 3 <= c < 512 && m'.fat[c] != 0 && (m.fat[c] == 0 || Owned(lay, c))
      ensures Owned(lay', c)
    {
      if c in ch {
        assert c in lay'.chains[l];
      } else {
        var k :| k in lay.chains && c in lay.chains[k];
        assert k in lay'.chains && c in lay'.chains[k];
      }
    }
  }

  // ---- Dropping an entry -----------------------------------------------------

  function DropEntry(lay: Layout, l: Loc, isDir: bool): Layout
    requires l in lay.chains && |lay.chains[l]| > 0
  {
    Layout(lay.chains - {l}, if isDir then lay.home - {lay.chains[l][0]} else lay.home)
  }

  predicate EmptyTable(t: Table) {
    forall s :: 1 <= s < 64 ==> !Live(t[s])
  }

  ghost predicate Frees(fat: Fat, fat': Fat, ch: seq<nat>) {
    forall c :: 0 <= c < 512 ==> fat'[c] == if c in ch then 0 else fat[c]
  }

  ghost predicate ClearsSlot(m: Meta, m': Meta, lay: Layout, l: Loc) {
    && l.dir in lay.Dirs() && l.dir < 512 && 1 <= l.slot < 64
    && m'.tables[l.dir] == m.tables[l.dir][l.slot := ZERO_ENTRY]
    && (forall d :: d in lay.Dirs() && d < 512 && d != l.dir ==> m'.tables[d] == m.tables[d])
  }

  /** `m'` is `m` without the entry at `l` and with its chain returned to the free cells. */
  ghost predicate Drops(m: Meta, m': Meta, lay: Layout, l: Loc) {
    && l in lay.chains && ClearsSlot(m, m', lay, l)
    && Frees(m.fat, m'.fat, lay.chains[l])
    && (At(m, l).size == 0 && |lay.chains[l]| > 0 && lay.chains[l][0] < 512
        ==> EmptyTable(m.tables[lay.chains[l][0]]))
  }

  lemma ClearTables(m: Meta, m': Meta, lay: Layout, l: Loc)
    requires TablesOk(m, lay) && ClearsSlot(m, m', lay, l)
    ensures TablesOk(m', lay)
    ensures forall d :: d in lay.Dirs() && d < 512 ==> m'.tables[d][0] == m.tables[d][0]
  {
    forall d | d in lay.Dirs()
      ensures d < 512 && TableOk(m'.tables[d], d) && m'.tables[d][0] == m.tables[d][0]
    {
      assert TableOk(m.tables[d], d);
    }
  }

  lemma DropSlots(m: Meta, m': Meta, lay: Layout, l: Loc, isDir: bool)
    requires SlotsMatch(m, lay) && ClearsSlot(m, m', lay, l) && l in lay.chains && |lay.chains[l]| > 0
    requires isDir
             ==> lay.chains[l][0] in lay.home && 2 < lay.chains[l][0] < 512 && EmptyTable(m.tables[lay.chains[l][0]])
    ensures SlotsMatch(m', DropEntry(lay, l, isDir))
  {
    var lay' := DropEntry(lay, l, isDir);
    forall k | k in lay'.chains
      ensures k.dir in lay'.Dirs() && k.dir < 512 && 1 <= k.slot < 64 && Live(At(m', k))
    {
      assert k in lay.chains && k != l;
    }
    forall d, s | d in lay'.Dirs() && d < 512 && 1 <= s < 64 && Live(At(m', Loc(d, s)))
      ensures Loc(d, s) in lay'.chains
    {
      assert At(m', Loc(d, s)) == At(m, Loc(d, s));
    }
  }

  lemma DropKeepsEntry(m: Meta, m': Meta, lay: Layout, l: Loc, k: Loc)
    requires SlotsMatch(m, lay) && Disjoint(lay.chains) && l in lay.chains && |lay.chains[l]| > 0
    requires ClearsSlot(m, m', lay, l) && Frees(m.fat, m'.fat, lay.chains[l])
    requires k in lay.chains && k != l && k.dir < 512 && k.slot < 64 && EntryOk(m, lay, k)
    requires forall d :: d in lay.Dirs() && d < 512 ==> m'.tables[d][0] == m.tables[d][0]
    ensures At(m', k) == At(m, k) && EntryOk(m', DropEntry(lay, l, At(m, l).size == 0), k)
  {
    var ch := lay.chains[k];
    forall c | 0 <= c < 512 && c in ch
      ensures m'.fat[c] == m.fat[c]
    {
      assert c !in lay.chains[l];
    }
    ChainFrame(m.fat, m'.fat, ch);
  }

  lemma DropEntries(m: Meta, m': Meta, lay: Layout, l: Loc, isDir: bool)
    requires SlotsMatch(m, lay) && Disjoint(lay.chains) && TablesOk(m, lay)
    requires l in lay.chains && |lay.chains[l]| > 0 && l.dir < 512 && l.slot < 64 && isDir == (At(m, l).size == 0)
    requires ClearsSlot(m, m', lay, l) && Frees(m.fat, m'.fat, lay.chains[l])
    requires EntriesOk(m, lay)
    ensures EntriesOk(m', DropEntry(lay, l, isDir))
    ensures forall k :: k in lay.chains && k != l ==> k.dir < 512 && k.slot < 64 && At(m', k) == At(m, k)
  {
    ClearTables(m, m', lay, l);
    forall k | k in lay.chains && k != l
      ensures k.dir < 512 && k.slot < 64 && At(m', k) == At(m, k) && EntryOk(m', DropEntry(lay, l, isDir), k)
    {
      DropKeepsEntry(m, m', lay, l, k);
    }
  }

  lemma DropWellFounded(home: map<nat, Loc>, x: nat)
    requires WellFounded(home)
    ensures WellFounded(home - {x})
  {
    var home' := home - {x};
    forall S: set<nat> | S != {} && S <= home'.Keys
      ensures HasWayOut(home', S)
    {
      assert HasWayOut(home, S);
      var d :| d in S && d in home && home[d].dir !in S;
    }
  }

  lemma DropHome(m: Meta, m': Meta, lay: Layout, l: Loc, isDir: bool, d: nat)
    requires d in lay.home && HomeOk(m, lay, d)
    requires l in lay.chains && |lay.chains[l]| > 0 && l.dir < 512 && l.slot < 64
    requires if isDir then d != lay.chains[l][0] else At(m, l).size != 0
    requires forall k :: k in lay.chains && k != l ==> k.dir < 512 && k.slot < 64 && At(m', k) == At(m, k)
    ensures d in DropEntry(lay, l, isDir).home && HomeOk(m', DropEntry(lay, l, isDir), d)
  {
  }

  lemma DropHomes(m: Meta, m': Meta, lay: Layout, l: Loc, isDir: bool)
    requires l in lay.chains && |lay.chains[l]| > 0 && l.dir < 512 && l.slot < 64
    requires WellFounded(lay.home) && isDir == (At(m, l).size == 0)
    requires HomesOk(m, lay)
    requires forall k :: k in lay.chains && k != l ==> k.dir < 512 && k.slot < 64 && At(m', k) == At(m, k)
    ensures var lay' := DropEntry(lay, l, isDir);
            WellFounded(lay'.home) && HomesOk(m', lay')
  {
    var lay' := DropEntry(lay, l, isDir);
    DropWellFounded(lay.home, lay.chains[l][0]);
    forall d | d in lay'.home
      ensures HomeOk(m', lay', d)
    {
      DropHome(m, m', lay, l, isDir, d);
    }
  }

  lemma DropRest(m: Meta, m': Meta, lay: Layout, l: Loc, isDir: bool)
    requires l in lay.chains && l.dir < 512 && l.slot < 64 && EntryOk(m, lay, l) && isDir == (At(m, l).size == 0)
    requires FatHeader(m.fat) && Frees(m.fat, m'.fat, lay.chains[l]) && Disjoint(lay.chains)
    requires TablesOk(m', lay)
    ensures var lay' := DropEntry(lay, l, isDir);
            FatHeader(m'.fat) && TablesOk(m', lay') && Disjoint(lay'.chains)
  {
  }

  lemma DropPreserves(m: Meta, m': Meta, lay: Layout, l: Loc)
    requires Consistent(m, lay) && Drops(m, m', lay, l)
    ensures |lay.chains[l]| > 0 && Consistent(m', DropEntry(lay, l, At(m, l).size == 0))
  {
    assert EntryOk(m, lay, l);
    DropEntries(m, m', lay, l, At(m, l).size == 0);
    DropHomes(m, m', lay, l, At(m, l).size == 0);
    ClearTables(m, m', lay, l);
    DropRest(m, m', lay, l, At(m, l).size == 0);
    DropSlots(m, m', lay, l, At(m, l).size == 0);
  }

  lemma DropLeaksNothing(m: Meta, m': Meta, lay: Layout, l: Loc, isDir: bool)
    requires l in lay.chains && |lay.chains[l]| > 0 && Frees(m.fat, m'.fat, lay.chains[l])
    ensures LeaksNoMore(m, lay, m', DropEntry(lay, l, isDir))
  {
    var lay' := DropEntry(lay, l, isDir);
    forall c | 3 <= c < 512 && m'.fat[c] != 0 && Owned(lay, c)
      ensures Owned(lay', c)
    {
      var k :| k in lay.chains && c in lay.chains[k];
      assert k in lay'.chains && c in lay'.chains[k];
    }
  }

  // ---- Moving an entry -------------------------------------------------------

  function SetSlot(m: Meta, l: Loc, e: Entry): Meta
    requires l.dir < 512 && l.slot < 64
  {
    m.(tables := m.tables[l.dir := m.tables[l.dir][l.slot := e]])
  }

  function MoveEntry(lay: Layout, l: Loc, l': Loc, isDir: bool): Layout
    requires l in lay.chains && |lay.chains[l]| > 0
  {
    var ch := lay.chains[l];
    Layout((lay.chains - {l})[l' := ch], if isDir then lay.home[ch[0] := l'] else lay.home)
  }

  /** `m'` is `m` with the entry at `l` cleared and then written to the free slot `l'`; a moved
      directory does not end up below itself. */
  ghost predicate Moves(m: Meta, m': Meta, lay: Layout, l: Loc, l': Loc) {
    && l in lay.chains && l.dir < 512 && l.slot < 64 && |lay.chains[l]| > 0
    && m'.fat == m.fat
    && AddsSlot(SetSlot(m, l, ZERO_ENTRY), m', lay, l', At(m, l))
    && (At(m, l).size == 0 ==> WellFounded(lay.home[lay.chains[l][0] := l']))
  }

  lemma MoveTables(m: Meta, m': Meta, lay: Layout, l: Loc, l': Loc)
    requires TablesOk(m, lay) && SlotsMatch(m, lay) && Moves(m, m', lay, l, l')
    ensures TablesOk(m', lay)
    ensures forall d :: d in lay.Dirs() && d < 512 ==> m'.tables[d][0] == m.tables[d][0]
  {
    var m1 := SetSlot(m, l, ZERO_ENTRY);
    ClearTables(m, m1, lay, l);
    AddTables(m1, m', lay, l', At(m, l));
  }

  lemma MoveKeepsSlot(m: Meta, m': Meta, lay: Layout, l: Loc, l': Loc, k: Loc)
    requires Moves(m, m', lay, l, l') && k.dir in lay.Dirs() && k.dir < 512 && k.slot < 64 && k != l'
    ensures At(m', k) == if k == l then ZERO_ENTRY else At(m, k)
  {
  }

  lemma MoveTarget(m: Meta, m': Meta, lay: Layout, l: Loc, l': Loc)
    requires Moves(m, m', lay, l, l')
    ensures l'.dir in lay.Dirs() && l'.dir < 512 && 1 <= l'.slot < 64
    ensures At(m', l') == At(m, l) && Live(At(m', l'))
    ensures l' == l || !Live(At(m, l'))
  {
  }

  lemma MoveSlots(m: Meta, m': Meta, lay: Layout, l: Loc, l': Loc)
    requires SlotsMatch(m, lay) && Moves(m, m', lay, l, l')
    requires At(m, l).size == 0 ==> lay.chains[l][0] in lay.home
    ensures SlotsMatch(m', MoveEntry(lay, l, l', At(m, l).size == 0))
  {
    var lay' := MoveEntry(lay, l, l', At(m, l).size == 0);
    assert lay'.Dirs() == lay.Dirs();
    MoveTarget(m, m', lay, l, l');
    forall k | k in lay'.chains
      ensures k.dir in lay'.Dirs() && k.dir < 512 && 1 <= k.slot < 64 && Live(At(m', k))
    {
      if k != l' {
        assert k in lay.chains;
        MoveKeepsSlot(m, m', lay, l, l', k);
      }
    }
    forall d, s | d in lay'.Dirs() && d < 512 && 1 <= s < 64 && Live(At(m', Loc(d, s)))
      ensures Loc(d, s) in lay'.chains
    {
      if Loc(d, s) != l' {
        MoveKeepsSlot(m, m', lay, l, l', Loc(d, s));
      }
    }
  }

  lemma MoveEntries(m: Meta, m': Meta, lay: Layout, l: Loc, l': Loc)
    requires Consistent(m, lay) && Moves(m, m', lay, l, l')
    ensures var lay' := MoveEntry(lay, l, l', At(m, l).size == 0);
            EntriesOk(m', lay')
  {
    var lay' := MoveEntry(lay, l, l', At(m, l).size == 0);
    MoveTables(m, m', lay, l, l');
    forall k' | k' in lay'.chains
      ensures k'.dir < 512 && k'.slot < 64 && EntryOk(m', lay', k')
    {
      var k := if k' == l' then l else k';
      assert EntryOk(m, lay, k) && EntryOk(m, lay, l);
      if k' != l' {
        MoveKeepsSlot(m, m', lay, l, l', k);
        assert lay.chains[k][0] in lay.chains[k] && lay.chains[l][0] in lay.chains[l];
      }
    }
  }

  lemma MoveHomes(m: Meta, m': Meta, lay: Layout, l: Loc, l': Loc)
    requires SlotsMatch(m, lay) && Moves(m, m', lay, l, l')
    requires At(m, l).size == 0 ==> lay.chains[l] == [lay.chains[l][0]]
    requires HomesOk(m, lay)
    ensures var lay' := MoveEntry(lay, l, l', At(m, l).size == 0);
            HomesOk(m', lay')
  {
    var lay' := MoveEntry(lay, l, l', At(m, l).size == 0);
    forall d | d in lay'.home
      ensures HomeOk(m', lay', d)
    {
      if At(m, l).size != 0 || d != lay.chains[l][0] {
        assert HomeOk(m, lay, d);
        MoveKeepsSlot(m, m', lay, l, l', lay.home[d]);
      }
    }
  }

  lemma MoveTree(m: Meta, m': Meta, lay: Layout, l: Loc, l': Loc)
    requires TablesOk(m, lay) && SlotsMatch(m, lay) && WellFounded(lay.home)
    requires Moves(m, m', lay, l, l')
    requires At(m, l).size == 0 ==> lay.chains[l][0] in lay.home
    ensures var lay' := MoveEntry(lay, l, l', At(m, l).size == 0);
            TablesOk(m', lay') && SlotsMatch(m', lay') && WellFounded(lay'.home)
  {
    var lay' := MoveEntry(lay, l, l', At(m, l).size == 0);
    MoveSlots(m, m', lay, l, l');
    MoveTables(m, m', lay, l, l');
    MoveWellFounded(m, m', lay, l, l');
    assert lay'.Dirs() == lay.Dirs();
  }

  lemma MoveWellFounded(m: Meta, m': Meta, lay: Layout, l: Loc, l': Loc)
    requires WellFounded(lay.home) && Moves(m, m', lay, l, l')
    requires At(m, l).size == 0 ==> lay.chains[l][0] in lay.home
    ensures var lay' := MoveEntry(lay, l, l', At(m, l).size == 0);
            WellFounded(lay'.home) && lay'.home.Keys == lay.home.Keys
  {
  }

  lemma MoveParts(m: Meta, m': Meta, lay: Layout, l: Loc, l': Loc)
    requires Consistent(m, lay) && Moves(m, m', lay, l, l')
    ensures var lay' := MoveEntry(lay, l, l', At(m, l).size == 0);
            EntriesOk(m', lay') && HomesOk(m', lay') && Disjoint(lay'.chains) && m'.fat == m.fat
    ensures At(m, l).size == 0 ==> lay.chains[l][0] in lay.home
  {
    assert EntryOk(m, lay, l);
    MoveEntries(m, m', lay, l, l');
    MoveHomes(m, m', lay, l, l');
    MoveTarget(m, m', lay, l, l');
  }

  lemma MovePreserves(m: Meta, m': Meta, lay: Layout, l: Loc, l': Loc)
    requires Consistent(m, lay) && Moves(m, m', lay, l, l')
    ensures Consistent(m', MoveEntry(lay, l, l', At(m, l).size == 0))
  {
    MoveParts(m, m', lay, l, l');
    MoveTree(m, m', lay, l, l');
  }

  lemma MoveLeaksNothing(m: Meta, m': Meta, lay: Layout, l: Loc, l': Loc, isDir: bool)
    requires m'.fat == m.fat && l in lay.chains && |lay.chains[l]| > 0
    requires l' == l || l' !in lay.chains
    ensures LeaksNoMore(m, lay, m', MoveEntry(lay, l, l', isDir))
  {
    var lay' := MoveEntry(lay, l, l', isDir);
    forall c | 3 <= c < 512 && m'.fat[c] != 0 && Owned(lay, c)
      ensures Owned(lay', c)
    {
      var k :| k in lay.chains && c in lay.chains[k];
      var k' := if k == l then l' else k;
      assert k' in lay'.chains && c in lay'.chains[k'];
    }
  }
}
