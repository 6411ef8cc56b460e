/** The whole-disk invariant: what it means for a file allocation table and a set of directory
    tables to describe a tree of directories and files with well-formed, disjoint chains. */
module Volume {
  import opened Format

  /** Where a directory entry lives: the cluster of its table and its slot there. */
  datatype Loc = Loc(dir: nat, slot: nat)

  /** The file allocation table together with every addressable cluster read as a table. */
  datatype Meta = Meta(fat: Fat, tables: Tables)

  type Tables = s: seq<Table> | |s| == 512
    witness seq(512, (_: nat) => seq(64, (_: nat) => ZERO_ENTRY))

  /** The structure a disk encodes: the clusters of every live entry, in order, and for every
      directory but the root the one entry that names it. */
  datatype Layout = Layout(chains: map<Loc, seq<nat>>, home: map<nat, Loc>) {
    function Dirs(): set<nat> {
      home.Keys + {ROOT}
    }
  }

  predicate Live(e: Entry) {
    e.user == UATTR_NOT_EMPTY
  }

  predicate SameName(e: Entry, f: Entry) {
    e.name == f.name && e.ext == f.ext
  }

  /** The search of a table by name and extension also stops at a free slot when both are zero. */
  predicate Named(e: Entry) {
    e.name != NO_NAME || e.ext != NO_EXT
  }

  /** The only shape of live entry the driver produces. */
  function LiveEntry(name: Name, ext: Ext, head: u16, size: u32): Entry {
    Entry(name, ext, 0, UATTR_NOT_EMPTY, NO_MISC, 0, head, size, 0)
  }

  /** A directory has size 0 and owns one cluster. */
  function ClustersOf(size: u32): nat {
    if size == 0 then 1 else (size + 2047) / 2048
  }

  function At(m: Meta, l: Loc): Entry
    requires l.dir < 512 && l.slot < 64
  {
    m.tables[l.dir][l.slot]
  }

  // ---- The parts of the invariant -------------------------------------------

  predicate FatHeader(fat: Fat) {
    fat[0] == CLUSTER_0_VALUE && fat[1] == CLUSTER_1_VALUE && fat[ROOT] == END_OF_FILE
  }

  /** Slot 0 describes the table itself, free slots are all zero, live names are unique. */
  ghost predicate TableOk(t: Table, d: nat) {
    && d < 512
    && t[0] == LiveEntry(t[0].name, NO_EXT, d, 0)
    && (forall s :: 0 <= s < 64 ==> if Live(t[s]) then Named(t[s]) else t[s] == ZERO_ENTRY)
    && (forall s, s' {:trigger SameName(t[s], t[s'])} ::
          0 <= s < s' < 64 && Live(t[s]) && Live(t[s']) ==> !SameName(t[s], t[s']))
  }

  ghost predicate IsChain(fat: Fat, ch: seq<nat>) {
    && |ch| > 0
    && (forall i :: 0 <= i < |ch| ==> 3 <= ch[i] < 512)
    && (forall i :: 0 <= i < |ch| - 1 ==> fat[ch[i]] == ch[i + 1])
    && fat[ch[|ch| - 1]] == END_OF_FILE
    && (forall i, j :: 0 <= i < j < |ch| ==> ch[i] != ch[j])
  }

  /** The entry at `l` is in the driver's shape and its chain is right; a directory's own table
      opens with a copy of the entry. */
  ghost predicate EntryOk(m: Meta, lay: Layout, l: Loc) {
    && l in lay.chains && l.dir < 512 && l.slot < 64
    && var e, ch := At(m, l), lay.chains[l];
       && IsChain(m.fat, ch)
       && |ch| == ClustersOf(e.size)
       && e == LiveEntry(e.name, e.ext, ch[0], e.size)
       && (e.size == 0 ==> ch[0] in lay.home && lay.home[ch[0]] == l && m.tables[ch[0]][0] == e)
  }

  ghost predicate EntriesOk(m: Meta, lay: Layout) {
    forall l {:trigger EntryOk(m, lay, l)} :: l in lay.chains ==> EntryOk(m, lay, l)
  }

  ghost predicate HomeOk(m: Meta, lay: Layout, d: nat) {
    && d in lay.home
    && var l := lay.home[d];
       l in lay.chains && lay.chains[l] == [d] && l.dir < 512 && l.slot < 64 && At(m, l).size == 0
  }

  ghost predicate HomesOk(m: Meta, lay: Layout) {
    forall d {:trigger HomeOk(m, lay, d)} :: d in lay.home ==> HomeOk(m, lay, d)
  }

  /** No set of directories is closed under "parent of": every nonempty one has a member whose
      parent lies outside. This is what makes the directories a tree. */
  ghost predicate WellFounded(home: map<nat, Loc>) {
    forall S: set<nat> | S != {} && S <= home.Keys :: HasWayOut(home, S)
  }

  ghost predicate HasWayOut(home: map<nat, Loc>, S: set<nat>) {
    exists d :: d in S && d in home && home[d].dir !in S
  }

  ghost predicate SlotsMatch(m: Meta, lay: Layout) {
    && (forall l :: l in lay.chains ==> l.dir in lay.Dirs() && l.dir < 512 && 1 <= l.slot < 64 && Live(At(m, l)))
    && (forall d, s :: d in lay.Dirs() && d < 512 && 1 <= s < 64 && Live(At(m, Loc(d, s))) ==> Loc(d, s) in lay.chains)
  }

  ghost predicate Disjoint(chains: map<Loc, seq<nat>>) {
    forall l, l', c ::
      l in chains && l' in chains && c in chains[l] && c in chains[l'] ==> l == l'
  }

  ghost predicate TablesOk(m: Meta, lay: Layout) {
    && (forall d :: d in lay.home ==> 3 <= d < 512)
    && (forall d :: d in lay.Dirs() ==> d < 512)
    && (forall d {:trigger TableOk(m.tables[d], d)} :: d in lay.Dirs() ==> TableOk(m.tables[d], d))
    && m.tables[ROOT][0].name == ROOT_NAME
  }

  /** Everything but the absence of leaks: what a reader of the disk relies on. */
  ghost predicate Consistent(m: Meta, lay: Layout) {
    && FatHeader(m.fat)
    && TablesOk(m, lay)
    && SlotsMatch(m, lay)
    && EntriesOk(m, lay)
    && HomesOk(m, lay)
    && Disjoint(lay.chains)
    && WellFounded(lay.home)
  }

  ghost predicate Owned(lay: Layout, c: nat) {
    exists l :: l in lay.chains && c in lay.chains[l]
  }

  ghost predicate NoLeak(m: Meta, lay: Layout) {
    forall c {:trigger Owned(lay, c)} :: 3 <= c < 512 && m.fat[c] != 0 ==> Owned(lay, c)
  }

  /** No cell is leaked that was not leaked before. */
  ghost predicate LeaksNoMore(m: Meta, lay: Layout, m': Meta, lay': Layout) {
    forall c {:trigger Owned(lay', c)} ::
      3 <= c < 512 && m'.fat[c] != 0 && !Owned(lay', c) ==> m.fat[c] != 0 && !Owned(lay, c)
  }

  /** What an operation keeps: the structure, and the absence of leaks or at least of new ones. */
  ghost predicate Carries(m: Meta, lay: Layout, m': Meta, lay': Layout) {
    Consistent(m', lay') && LeaksNoMore(m, lay, m', lay')
  }

  ghost predicate Valid(m: Meta, lay: Layout) {
    Consistent(m, lay) && NoLeak(m, lay)
  }

  /** Some layout makes the disk valid. */
  ghost predicate Sound(m: Meta) {
    exists lay :: Valid(m, lay)
  }

  lemma CarriesSound(m: Meta, lay: Layout, m': Meta, lay': Layout)
    requires Valid(m, lay) && Carries(m, lay, m', lay')
    ensures Valid(m', lay') && Sound(m')
  {
    assert NoLeak(m', lay');
    assert Valid(m', lay');
  }

  // ---- Consequences ----------------------------------------------------------

  lemma OwnedIsTaken(m: Meta, lay: Layout, c: nat)
    requires Consistent(m, lay) && Owned(lay, c)
    ensures 3 <= c < 512 && m.fat[c] != 0
  {
    var l :| l in lay.chains && c in lay.chains[l];
    var ch := lay.chains[l];
    assert EntryOk(m, lay, l);
    var i :| 0 <= i < |ch| && ch[i] == c;
    if i < |ch| - 1 {
      assert m.fat[ch[i]] == ch[i + 1];
    }
  }

  lemma DirsAreTaken(m: Meta, lay: Layout, d: nat)
    requires Consistent(m, lay) && d in lay.Dirs()
    ensures 2 <= d < 512 && m.fat[d] == END_OF_FILE
  {
    if d != ROOT {
      assert HomeOk(m, lay, d);
      assert EntryOk(m, lay, lay.home[d]);
    }
  }

  // ---- Frame: clusters nobody owns do not matter ------------------------------

  /** `m'` differs from `m` only in cells that were free and in tables of other clusters. */
  ghost predicate SameOnTaken(m: Meta, m': Meta, lay: Layout) {
    && (forall c :: 0 <= c < 512 && m.fat[c] != 0 ==> m'.fat[c] == m.fat[c])
    && (forall d :: d in lay.Dirs() && d < 512 ==> m'.tables[d] == m.tables[d])
  }

  lemma ChainFrame(fat: Fat, fat': Fat, ch: seq<nat>)
    requires IsChain(fat, ch)
    requires forall c :: 0 <= c < 512 && c in ch ==> fat'[c] == fat[c]
    ensures IsChain(fat', ch)
  {
    forall i | 0 <= i < |ch|
      ensures fat'[ch[i]] == fat[ch[i]]
    {
      assert ch[i] in ch;
    }
  }

  lemma ChainIsTaken(fat: Fat, ch: seq<nat>, c: nat)
    requires IsChain(fat, ch) && c in ch
    ensures 3 <= c < 512 && fat[c] != 0
  {
    var i :| 0 <= i < |ch| && ch[i] == c;
    if i < |ch| - 1 {
      assert fat[ch[i]] == ch[i + 1];
    }
  }

  lemma TakenFrame(m: Meta, m': Meta, lay: Layout)
    requires Consistent(m, lay) && SameOnTaken(m, m', lay)
    ensures Consistent(m', lay)
  {
    forall l | l in lay.chains
      ensures At(m', l) == At(m, l) && EntryOk(m', lay, l)
    {
      var ch := lay.chains[l];
      assert EntryOk(m, lay, l);
      forall c | 0 <= c < 512 && c in ch
        ensures m'.fat[c] == m.fat[c]
      {
        ChainIsTaken(m.fat, ch, c);
      }
      if At(m, l).size == 0 {
        assert ch[0] in lay.Dirs();
      }
    }
    forall d | d in lay.home
      ensures HomeOk(m', lay, d)
    {
      assert HomeOk(m, lay, d);
    }
    assert ROOT in lay.Dirs();
  }
}
