/** What the invariant buys: a disk has at most one layout, every directory hangs below the
    root, and the cells of the map split exactly into free, owned and reserved ones. */
module Tree {
  import opened Format
  import opened Volume

  // ---- Chains are determined by their heads -----------------------------------

  lemma {:induction false} SameUpTo(fat: Fat, a: seq<nat>, b: seq<nat>, i: nat)
    requires IsChain(fat, a) && IsChain(fat, b) && a[0] == b[0] && i < |a|
    ensures i < |b| && a[i] == b[i]
  {
    if i > 0 {
      SameUpTo(fat, a, b, i - 1);
      assert fat[a[i - 1]] == a[i] && a[i] < 512;
    }
  }

  lemma SameChain(fat: Fat, a: seq<nat>, b: seq<nat>)
    requires IsChain(fat, a) && IsChain(fat, b) && a[0] == b[0]
    ensures a == b
  {
    SameUpTo(fat, a, b, |a| - 1);
    SameUpTo(fat, b, a, |b| - 1);
    forall i | 0 <= i < |a|
      ensures a[i] == b[i]
    {
      SameUpTo(fat, a, b, i);
    }
  }

  /** Chains with one head in two maps agree as soon as the maps agree along one of them. */
  lemma SameChainAcross(fat: Fat, fat': Fat, a: seq<nat>, b: seq<nat>)
    requires IsChain(fat, a) && IsChain(fat', b) && a[0] == b[0]
    requires forall c :: 0 <= c < 512 && c in b ==> fat[c] == fat'[c]
    ensures a == b
  {
    SameChain(fat, a, b);
  }

  // ---- The directory tree -----------------------------------------------------

  /** `h` names directories by live directory entries of `m`, starting from the root. */
  ghost predicate NamesDirs(m: Meta, h: map<nat, Loc>) {
    && WellFounded(h)
    && (forall d {:trigger NamesDir(m, h, d)} :: d in h ==> NamesDir(m, h, d))
  }

  ghost predicate NamesDir(m: Meta, h: map<nat, Loc>, d: nat) {
    && d in h && h[d].dir in h.Keys + {ROOT} && h[d].dir < 512 && 1 <= h[d].slot < 64
    && Live(At(m, h[d])) && At(m, h[d]).size == 0 && At(m, h[d]).low == d
  }

  lemma HomeNamesDirs(m: Meta, lay: Layout)
    requires Consistent(m, lay)
    ensures NamesDirs(m, lay.home)
  {
    forall d | d in lay.home
      ensures lay.home[d] in lay.chains && At(m, lay.home[d]).size == 0 && At(m, lay.home[d]).low == d
    {
      assert HomeOk(m, lay, d);
      assert EntryOk(m, lay, lay.home[d]);
    }
  }

  lemma ClosedHasNoWayOut(home: map<nat, Loc>, S: set<nat>)
    requires forall d :: d in S && d in home ==> home[d].dir in S
    ensures !HasWayOut(home, S)
  {
  }

  /** Induction along the tree: a set that contains a directory whenever its parent is the root
      or in the set contains every directory. */
  lemma TreeInduction(home: map<nat, Loc>, G: set<nat>)
    requires WellFounded(home)
    requires forall d :: d in home && (home[d].dir in home.Keys ==> home[d].dir in G) ==> d in G
    ensures home.Keys <= G
  {
    ClosedHasNoWayOut(home, home.Keys - G);
  }

  /** Every directory that can be reached by live entries belongs to every layout of the disk. */
  lemma NamedDirsAreIn(m: Meta, lay: Layout, h: map<nat, Loc>)
    requires Consistent(m, lay) && NamesDirs(m, h)
    ensures h.Keys <= lay.home.Keys
  {
    forall d | d in h && (h[d].dir in h.Keys ==> h[d].dir in lay.home.Keys)
      ensures d in lay.home.Keys
    {
      assert NamesDir(m, h, d);
      NamedDirIsIn(m, lay, h[d]);
    }
    TreeInduction(h, lay.home.Keys);
  }

  lemma NamedDirIsIn(m: Meta, lay: Layout, l: Loc)
    requires SlotsMatch(m, lay) && EntriesOk(m, lay)
    requires l.dir in lay.Dirs() && l.dir < 512 && 1 <= l.slot < 64 && Live(At(m, l)) && At(m, l).size == 0
    ensures l in lay.chains && At(m, l).low in lay.home && lay.home[At(m, l).low] == l
  {
    assert EntryOk(m, lay, l);
  }

  lemma SameHead(m: Meta, lay: Layout, lay': Layout, l: Loc)
    requires EntriesOk(m, lay) && EntriesOk(m, lay') && l in lay.chains && l in lay'.chains
    ensures lay.chains[l] == lay'.chains[l]
  {
    assert EntryOk(m, lay, l) && EntryOk(m, lay', l);
    SameChain(m.fat, lay.chains[l], lay'.chains[l]);
  }

  lemma SameHome(m: Meta, lay: Layout, lay': Layout, d: nat)
    requires EntriesOk(m, lay) && EntriesOk(m, lay') && HomesOk(m, lay) && d in lay.home
    requires lay.chains.Keys <= lay'.chains.Keys
    ensures d in lay'.home && lay'.home[d] == lay.home[d]
  {
    var l := lay.home[d];
    assert HomeOk(m, lay, d);
    SameHead(m, lay, lay', l);
    assert EntryOk(m, lay', l);
  }

  lemma LayoutBelow(m: Meta, lay: Layout, lay': Layout)
    requires Consistent(m, lay) && Consistent(m, lay')
    ensures lay.home.Keys <= lay'.home.Keys && lay.chains.Keys <= lay'.chains.Keys
  {
    HomeNamesDirs(m, lay);
    NamedDirsAreIn(m, lay', lay.home);
  }

  lemma SameMaps(m: Meta, lay: Layout, lay': Layout)
    requires EntriesOk(m, lay) && EntriesOk(m, lay') && HomesOk(m, lay)
    requires lay.chains.Keys == lay'.chains.Keys && lay.home.Keys == lay'.home.Keys
    ensures lay == lay'
  {
    forall l | l in lay.chains
      ensures lay.chains[l] == lay'.chains[l]
    {
      SameHead(m, lay, lay', l);
    }
    forall d | d in lay.home
      ensures lay'.home[d] == lay.home[d]
    {
      SameHome(m, lay, lay', d);
    }
  }

  /** The layout is not a choice: the disk alone determines it. */
  lemma LayoutUnique(m: Meta, lay: Layout, lay': Layout)
    requires Consistent(m, lay) && Consistent(m, lay')
    ensures lay == lay'
  {
    LayoutBelow(m, lay, lay');
    LayoutBelow(m, lay', lay);
    SameMaps(m, lay, lay');
  }

  /** `p` walks down from the root: each directory is named in the table of the one before. */
  ghost predicate IsPath(home: map<nat, Loc>, p: seq<nat>) {
    && |p| > 0 && p[0] == ROOT
    && (forall i :: 0 < i < |p| ==> StepAt(home, p, i))
  }

  /** A stack of bytes as the cluster numbers it holds. */
  function AsPath(stack: seq<byte>): seq<nat> {
    stack
  }

  ghost predicate StepAt(home: map<nat, Loc>, p: seq<nat>, i: nat) {
    0 < i < |p| && p[i] in home && home[p[i]].dir == p[i - 1]
  }

  ghost predicate Reachable(home: map<nat, Loc>, d: nat) {
    exists p :: IsPath(home, p) && p[|p| - 1] == d
  }

  lemma ReachableChild(home: map<nat, Loc>, d: nat)
    requires d in home && Reachable(home, home[d].dir)
    ensures Reachable(home, d)
  {
    var p :| IsPath(home, p) && p[|p| - 1] == home[d].dir;
    PathExtends(home, p, d);
  }

  lemma PathExtends(home: map<nat, Loc>, p: seq<nat>, d: nat)
    requires IsPath(home, p) && d in home && home[d].dir == p[|p| - 1]
    ensures IsPath(home, p + [d])
  {
    forall i | 0 < i < |p + [d]|
      ensures StepAt(home, p + [d], i)
    {
      assert i < |p| ==> StepAt(home, p, i);
    }
  }

  /** The last step of a path, and the path without it. */
  lemma PathShrinks(home: map<nat, Loc>, p: seq<nat>)
    requires IsPath(home, p) && |p| >= 2
    ensures var n := |p| - 1;
            IsPath(home, p[..n]) && p[..n][n - 1] == p[n - 1] && p[n] in home && home[p[n]].dir == p[n - 1]
  {
    var n := |p| - 1;
    assert StepAt(home, p, n);
    PathPrefix(home, p, n);
  }

  lemma PathPrefix(home: map<nat, Loc>, p: seq<nat>, n: nat)
    requires IsPath(home, p) && 0 < n <= |p|
    ensures IsPath(home, p[..n])
  {
    forall i | 0 < i < n
      ensures StepAt(home, p[..n], i)
    {
      assert StepAt(home, p, i);
    }
  }

  /** A path leads along every map that agrees with the first one on its steps. */
  lemma PathFrame(home: map<nat, Loc>, home': map<nat, Loc>, p: seq<nat>)
    requires IsPath(home, p) && forall i :: 0 < i < |p| && p[i] in home ==> p[i] in home' && home'[p[i]] == home[p[i]]
    ensures IsPath(home', p)
  {
    forall i | 0 < i < |p|
      ensures StepAt(home', p, i)
    {
      assert StepAt(home, p, i);
    }
  }

  lemma HomesAreReachable(home: map<nat, Loc>)
    requires WellFounded(home) && forall d :: d in home ==> home[d].dir in home.Keys + {ROOT}
    ensures forall d :: d in home ==> Reachable(home, d)
  {
    assert IsPath(home, [ROOT]) && [ROOT][|[ROOT]| - 1] == ROOT;
    var G := set d | d in home && Reachable(home, d);
    forall d | d in home && (home[d].dir in home.Keys ==> home[d].dir in G)
      ensures d in G
    {
      ReachableChild(home, d);
    }
    TreeInduction(home, G);
  }

  /** Every directory is reached from the root by a chain of entries. */
  lemma EveryDirectoryIsReachable(m: Meta, lay: Layout, d: nat)
    requires Consistent(m, lay) && d in lay.Dirs()
    ensures Reachable(lay.home, d)
  {
    assert IsPath(lay.home, [ROOT]) && [ROOT][|[ROOT]| - 1] == ROOT;
    HomeNamesDirs(m, lay);
    forall x | x in lay.home
      ensures NamesDir(m, lay.home, x)
    {
    }
    HomesAreReachable(lay.home);
  }

  /** A path from the root to the parent of `x` does not pass through `x`. */
  lemma PathAvoidsChild(home: map<nat, Loc>, p: seq<nat>, x: nat)
    requires WellFounded(home) && ROOT !in home && IsPath(home, p)
    requires x in home && home[x].dir == p[|p| - 1]
    ensures x !in p
  {
    forall k | 0 <= k < |p|
      ensures p[k] != x
    {
      if p[k] == x {
        LoopHasNoWayOut(home, p, k);
      }
    }
  }

  /** No path passes through a directory twice. */
  lemma PathIsDistinct(home: map<nat, Loc>, p: seq<nat>)
    requires WellFounded(home) && ROOT !in home && IsPath(home, p)
    ensures forall i, j :: 0 <= i < j < |p| ==> p[i] != p[j]
  {
    forall i, j | 0 <= i < j < |p|
      ensures p[i] != p[j]
    {
      PathPrefix(home, p, j);
      assert StepAt(home, p, j);
      PathAvoidsChild(home, p[..j], p[j]);
      assert p[..j][i] == p[i];
    }
  }

  lemma NotItsOwnParent(home: map<nat, Loc>, x: nat)
    requires WellFounded(home) && x in home
    ensures home[x].dir != x
  {
    assert HasWayOut(home, {x});
  }

  lemma LoopHasNoWayOut(home: map<nat, Loc>, p: seq<nat>, k: nat)
    requires ROOT !in home && IsPath(home, p) && k < |p|
    requires p[k] in home && home[p[k]].dir == p[|p| - 1]
    ensures var S := set i | k <= i < |p| :: p[i];
            S != {} && S <= home.Keys && !HasWayOut(home, S)
  {
    var S := set i | k <= i < |p| :: p[i];
    forall d | d in S
      ensures d in home && home[d].dir in S
    {
      var i :| k <= i < |p| && p[i] == d;
      if i == k {
        assert p[|p| - 1] in S;
      } else {
        assert StepAt(home, p, i) && p[i - 1] in S;
      }
    }
  }

  /** The two directory moves the shell offers keep the tree a tree: into a sibling ... */
  lemma IntoSiblingWellFounded(home: map<nat, Loc>, x: nat, l': Loc)
    requires WellFounded(home) && x in home && l'.dir in home && l'.dir != x
    requires home[l'.dir].dir == home[x].dir
    ensures WellFounded(home[x := l'])
  {
    var home' := home[x := l'];
    forall S: set<nat> | S != {} && S <= home'.Keys
      ensures HasWayOut(home', S)
    {
      assert HasWayOut(home, S);
      var d :| d in S && d in home && home[d].dir !in S;
      if d == x {
        // Either the sibling is outside, or its parent, which was also the parent of x, is.
        var w := if l'.dir in S then l'.dir else x;
        assert w in S && home'[w].dir !in S;
      } else {
        assert home'[d].dir !in S;
      }
    }
  }

  /** ... and up to the parent of the parent. */
  lemma UpWellFounded(home: map<nat, Loc>, x: nat, l': Loc)
    requires WellFounded(home) && x in home
    requires if home[x].dir in home then home[home[x].dir].dir == l'.dir else l'.dir == home[x].dir
    ensures WellFounded(home[x := l'])
  {
    var home' := home[x := l'];
    var p := home[x].dir;
    forall S: set<nat> | S != {} && S <= home'.Keys
      ensures HasWayOut(home', S)
    {
      var T := if x in S && p in home then S + {p} else S;
      assert HasWayOut(home, T);
      var d :| d in T && d in home && home[d].dir !in T;
      var w := if d in S then d else x;
      assert w in S && home'[w].dir !in S;
    }
  }
}
