/** The cluster map as an allocator: the free cells in ascending order, linking a chain into the
    map cell by cell, and freeing it again. */
module Allocation {
  import opened Format
  import opened Volume

  // ---- Free cells ------------------------------------------------------------

  /** The free cells from `i` on, lowest first: what scanning upwards for a zero cell finds. */
  function FreeFrom(fat: Fat, i: nat): (r: seq<nat>)
    requires i <= 512
    ensures forall k :: 0 <= k < |r| ==> r[k] < 512
    decreases |fat| - i
  {
    if i == 512 then []
    else if fat[i] == 0 then [i] + FreeFrom(fat, i + 1)
    else FreeFrom(fat, i + 1)
  }

  function Free(fat: Fat): seq<nat> {
    FreeFrom(fat, 0)
  }

  ghost predicate Ascending(s: seq<nat>) {
    forall j, k :: 0 <= j < k < |s| ==> s[j] < s[k]
  }

  lemma {:induction false} FreeAreFree(fat: Fat, i: nat)
    requires i <= 512
    ensures forall k :: 0 <= k < |FreeFrom(fat, i)| ==> i <= FreeFrom(fat, i)[k] && fat[FreeFrom(fat, i)[k]] == 0
    ensures Ascending(FreeFrom(fat, i))
    decreases |fat| - i
  {
    if i < 512 {
      FreeAreFree(fat, i + 1);
    }
  }

  lemma {:induction false} FreeIsListed(fat: Fat, i: nat, c: nat)
    requires i <= c < 512 && fat[c] == 0
    ensures c in FreeFrom(fat, i)
    decreases c - i
  {
    if i < c {
      FreeIsListed(fat, i + 1, c);
    }
  }

  /** The list is exactly the set of free cells, in ascending order. */
  lemma FreeCells(fat: Fat, i: nat)
    requires i <= 512
    ensures forall k :: 0 <= k < |FreeFrom(fat, i)| ==> i <= FreeFrom(fat, i)[k] && fat[FreeFrom(fat, i)[k]] == 0
    ensures Ascending(FreeFrom(fat, i))
    ensures forall c :: i <= c < 512 && fat[c] == 0 ==> c in FreeFrom(fat, i)
  {
    FreeAreFree(fat, i);
    forall c | i <= c < 512 && fat[c] == 0
      ensures c in FreeFrom(fat, i)
    {
      FreeIsListed(fat, i, c);
    }
  }

  /** A scan that has passed only taken cells has lost none of the free ones. */
  lemma {:induction false} ScanSkips(fat: Fat, i: nat, c: nat)
    requires i <= c <= 512 && forall j :: i <= j < c ==> fat[j] != 0
    ensures FreeFrom(fat, i) == FreeFrom(fat, c)
    decreases c - i
  {
    if i < c {
      ScanSkips(fat, i + 1, c);
    }
  }

  lemma {:induction false} FreeAbove(fat: Fat, c: nat, v: u32, i: nat)
    requires c < i <= 512
    ensures FreeFrom(fat[c := v], i) == FreeFrom(fat, i)
    decreases |fat| - i
  {
    if i < 512 {
      FreeAbove(fat, c, v, i + 1);
    }
  }

  /** The lowest free cell is where an upward scan stops. */
  lemma {:induction false} ScanStops(fat: Fat, i: nat, c: nat)
    requires i <= 512 && |FreeFrom(fat, i)| > 0 && c == FreeFrom(fat, i)[0]
    ensures i <= c < 512 && fat[c] == 0 && forall j :: i <= j < c ==> fat[j] != 0
    decreases |fat| - i
  {
    if i < 512 && fat[i] != 0 {
      ScanStops(fat, i + 1, c);
    }
  }

  /** Taking the lowest free cell leaves the others, in order. */
  lemma TakeLowest(fat: Fat, c: nat, v: u32)
    requires |Free(fat)| > 0 && c == Free(fat)[0] && v != 0
    ensures Free(fat[c := v]) == Free(fat)[1..] == FreeFrom(fat, c + 1)
  {
    ScanStops(fat, 0, c);
    ScanSkips(fat, 0, c);
    ScanSkips(fat[c := v], 0, c);
    FreeAbove(fat, c, v, c + 1);
  }

  function WithCell(fat: Fat, c: nat, v: u32): Fat
    requires c < 512
  {
    fat[c := v]
  }

  // ---- Linking and freeing a chain ---------------------------------------------

  ghost predicate Cells(ch: seq<nat>) {
    && (forall i :: 0 <= i < |ch| ==> ch[i] < 512)
    && (forall i, j :: 0 <= i < j < |ch| ==> ch[i] != ch[j])
  }

  function NextCell(ch: seq<nat>, i: nat): u32
    requires i < |ch| && forall k :: 0 <= k < |ch| ==> ch[k] < 512
  {
    if i + 1 < |ch| then ch[i + 1] else END_OF_FILE
  }

  /** The map after the first `n` cells of `ch` have been given their links. */
  function Link(fat: Fat, ch: seq<nat>, n: nat): Fat
    requires n <= |ch| && forall k :: 0 <= k < |ch| ==> ch[k] < 512
  {
    if n == 0 then fat else Link(fat, ch, n - 1)[ch[n - 1] := NextCell(ch, n - 1)]
  }

  /** The map after the first `n` cells of `ch` have been cleared. */
  function Unlink(fat: Fat, ch: seq<nat>, n: nat): Fat
    requires n <= |ch| && forall k :: 0 <= k < |ch| ==> ch[k] < 512
  {
    if n == 0 then fat else Unlink(fat, ch, n - 1)[ch[n - 1] := 0]
  }

  lemma {:induction false} LinkCells(fat: Fat, ch: seq<nat>, n: nat)
    requires Cells(ch) && n <= |ch|
    ensures forall i {:trigger NextCell(ch, i)} :: 0 <= i < n ==> Link(fat, ch, n)[ch[i]] == NextCell(ch, i)
    ensures forall i :: n <= i < |ch| ==> Link(fat, ch, n)[ch[i]] == fat[ch[i]]
    ensures forall c :: 0 <= c < 512 && c !in ch ==> Link(fat, ch, n)[c] == fat[c]
  {
    if n > 0 {
      LinkCells(fat, ch, n - 1);
    }
  }

  lemma {:induction false} UnlinkCells(fat: Fat, ch: seq<nat>, n: nat)
    requires Cells(ch) && n <= |ch|
    ensures forall i :: 0 <= i < n ==> Unlink(fat, ch, n)[ch[i]] == 0
    ensures forall i :: n <= i < |ch| ==> Unlink(fat, ch, n)[ch[i]] == fat[ch[i]]
    ensures forall c :: 0 <= c < 512 && c !in ch ==> Unlink(fat, ch, n)[c] == fat[c]
  {
    if n > 0 {
      UnlinkCells(fat, ch, n - 1);
    }
  }

  /** The cells a file of `k` clusters is given: the `k` lowest free ones. */
  function Lowest(fat: Fat, k: nat): (ch: seq<nat>)
    requires k <= |Free(fat)|
    ensures |ch| == k && forall i :: 0 <= i < k ==> ch[i] < 512
  {
    Free(fat)[..k]
  }

  lemma LowestAreCells(fat: Fat, k: nat)
    requires k <= |Free(fat)|
    ensures Cells(Lowest(fat, k))
    ensures forall i :: 0 <= i < k ==> fat[Lowest(fat, k)[i]] == 0
  {
    FreeCells(fat, 0);
  }

  /** Every free cell left over lies above every cell chosen. */
  lemma LowestAreLowest(fat: Fat, k: nat, c: nat, d: nat)
    requires k <= |Free(fat)| && c in Lowest(fat, k)
    requires d < 512 && fat[d] == 0 && d !in Lowest(fat, k)
    ensures fat[c] == 0 && c < d
  {
    FreeCells(fat, 0);
    var f := Free(fat);
    var i :| 0 <= i < k && Lowest(fat, k)[i] == c;
    var j :| k <= j < |f| && f[j] == d;
  }

  /** After `n` of the chosen cells are linked, the lowest free cell is the next chosen one: the
      loop may forget where it was and scan from the start every time. */
  lemma {:induction false} RescanFindsNext(fat: Fat, k: nat, n: nat)
    requires n <= k <= |Free(fat)|
    ensures Free(Link(fat, Lowest(fat, k), n)) == Free(fat)[n..]
  {
    if n > 0 {
      var ch := Lowest(fat, k);
      RescanFindsNext(fat, k, n - 1);
      LinkIsTaken(fat, k, n - 1);
      TakeLowest(Link(fat, ch, n - 1), ch[n - 1], NextCell(ch, n - 1));
      assert Free(fat)[n - 1..][1..] == Free(fat)[n..];
    }
  }

  /** ... and the look-ahead from there finds the one after it. */
  lemma LookAheadFindsNext(fat: Fat, k: nat, n: nat)
    requires n < k <= |Free(fat)|
    ensures var f := Link(fat, Lowest(fat, k), n);
            FreeFrom(f, Lowest(fat, k)[n] + 1) == Free(fat)[n + 1..]
  {
    var f := Link(fat, Lowest(fat, k), n);
    RescanFindsNext(fat, k, n);
    TakeLowest(f, Lowest(fat, k)[n], END_OF_FILE);
    assert Free(fat)[n..][1..] == Free(fat)[n + 1..];
  }

  /** One round in the loop's terms: both scans stop, the first at the cell to link, the second
      at the cell to link it to - even in the last round, which only needs the end mark. */
  lemma RoundFinds(fat: Fat, k: nat, n: nat)
    requires n < k < |Free(fat)|
    ensures var f, c := Link(fat, Lowest(fat, k), n), Lowest(fat, k)[n];
            && |Free(f)| > 0 && Free(f)[0] == c
            && |FreeFrom(f, c + 1)| > 0 && FreeFrom(f, c + 1)[0] == Free(fat)[n + 1]
            && Link(fat, Lowest(fat, k), n + 1) == f[c := if n < k - 1 then Free(fat)[n + 1] else END_OF_FILE]
  {
    RescanFindsNext(fat, k, n);
    LookAheadFindsNext(fat, k, n);
  }

  /** Both searches of a round stop inside the map. */
  predicate RoundStops(fat: Fat) {
    |Free(fat)| > 0 && |FreeFrom(fat, Free(fat)[0] + 1)| > 0
  }

  /** The map after a round that links its cell to the next. */
  function AfterRound(fat: Fat): Fat
    requires RoundStops(fat)
  {
    fat[Free(fat)[0] := FreeFrom(fat, Free(fat)[0] + 1)[0]]
  }

  /** `k` rounds in a row, each on the map the one before left. */
  predicate RoundsStop(fat: Fat, k: nat)
    decreases k, fat
  {
    k == 0 || (RoundStops(fat) && RoundsStop(AfterRound(fat), k - 1))
  }

  lemma AfterRoundFree(fat: Fat)
    requires RoundStops(fat)
    ensures Free(AfterRound(fat)) == Free(fat)[1..]
  {
    var c := Free(fat)[0];
    FreeCells(fat, c + 1);
    TakeLowest(fat, c, FreeFrom(fat, c + 1)[0]);
  }

  /** All searches of the rounds for `k` clusters stop if and only if there are more than `k` free
      cells: the last round looks ahead in vain. */
  lemma {:induction false} RoundsStopIff(fat: Fat, k: nat)
    requires k > 0
    ensures RoundsStop(fat, k) <==> k < |Free(fat)|
    decreases k
  {
    if |Free(fat)| > 0 {
      TakeLowest(fat, Free(fat)[0], END_OF_FILE);
    }
    if RoundStops(fat) {
      AfterRoundFree(fat);
      if k > 1 {
        RoundsStopIff(AfterRound(fat), k - 1);
      }
    }
  }

  lemma LinkIsTaken(fat: Fat, k: nat, i: nat)
    requires i < k <= |Free(fat)|
    ensures NextCell(Lowest(fat, k), i) != 0
  {
    FreeCells(fat, 0);
    if i + 1 < k {
      assert Free(fat)[i] < Free(fat)[i + 1];
    }
  }

  /** The linked cells form a chain, provided the reserved cells were taken. */
  lemma LinkedIsChain(fat: Fat, ch: seq<nat>)
    requires |ch| > 0 && Cells(ch) && FatHeader(fat) && forall i :: 0 <= i < |ch| ==> fat[ch[i]] == 0
    ensures IsChain(Link(fat, ch, |ch|), ch)
  {
    LinkCells(fat, ch, |ch|);
    NextCellsAreChain(Link(fat, ch, |ch|), fat, ch);
  }

  lemma NextCellsAreChain(f: Fat, fat: Fat, ch: seq<nat>)
    requires |ch| > 0 && Cells(ch) && FatHeader(fat) && forall i :: 0 <= i < |ch| ==> fat[ch[i]] == 0
    requires forall i {:trigger NextCell(ch, i)} :: 0 <= i < |ch| ==> f[ch[i]] == NextCell(ch, i)
    ensures IsChain(f, ch)
  {
    forall i | 0 <= i < |ch|
      ensures 3 <= ch[i] < 512 && f[ch[i]] == NextCell(ch, i)
    {
      assert fat[ch[i]] == 0;
    }
  }

  /** Freeing what was linked gives the old map back. */
  lemma UnlinkUndoesLink(fat: Fat, ch: seq<nat>)
    requires Cells(ch) && forall i :: 0 <= i < |ch| ==> fat[ch[i]] == 0
    ensures Unlink(Link(fat, ch, |ch|), ch, |ch|) == fat
  {
    var f := Link(fat, ch, |ch|);
    LinkCells(fat, ch, |ch|);
    UnlinkCells(f, ch, |ch|);
    forall c | 0 <= c < 512
      ensures Unlink(f, ch, |ch|)[c] == fat[c]
    {
      if c in ch {
        var i :| 0 <= i < |ch| && ch[i] == c;
      }
    }
  }

  // ---- Following links ---------------------------------------------------------

  /** The clusters met by following at most `n` links from `c`. */
  function Follow(fat: Fat, c: nat, n: nat): (ch: seq<nat>)
    ensures |ch| <= n && forall i :: 0 <= i < |ch| ==> ch[i] < 512
    decreases n
  {
    if n == 0 || c >= 512 then [] else [c] + Follow(fat, fat[c], n - 1)
  }

  /** A full-length walk starts at `c` and each cluster is the link of the one before. */
  lemma {:induction false} FollowSteps(fat: Fat, c: nat, n: nat)
    requires |Follow(fat, c, n)| == n
    ensures var ch := Follow(fat, c, n);
            (n > 0 ==> ch[0] == c) && forall j :: 0 < j < n ==> ch[j] == fat[ch[j - 1]]
    decreases n
  {
    if n > 0 {
      FollowSteps(fat, fat[c], n - 1);
    }
  }

  lemma {:induction false} FollowSuffix(fat: Fat, ch: seq<nat>, i: nat)
    requires IsChain(fat, ch) && i < |ch|
    ensures Follow(fat, ch[i], |ch| - i) == ch[i..]
    decreases |ch| - i
  {
    if i + 1 < |ch| {
      FollowSuffix(fat, ch, i + 1);
      assert ch[i..] == [ch[i]] + ch[i + 1..];
    } else {
      assert ch[i..] == [ch[i]];
      assert Follow(fat, fat[ch[i]], 0) == [];
    }
  }

  lemma FollowChain(fat: Fat, ch: seq<nat>)
    requires IsChain(fat, ch)
    ensures Follow(fat, ch[0], |ch|) == ch
  {
    FollowSuffix(fat, ch, 0);
  }

  // ---- Following links to the end ---------------------------------------------------

  /** The clusters met from `c` on up to the end mark, at most `n` of them. */
  function ToEnd(fat: Fat, c: nat, n: nat): (ch: seq<nat>)
    ensures |ch| <= n && forall i :: 0 <= i < |ch| ==> ch[i] < 512
    decreases n, c
  {
    if n == 0 || c >= 512 then []
    else if fat[c] == END_OF_FILE then [c]
    else [c] + ToEnd(fat, fat[c], n - 1)
  }

  lemma {:induction false} ToEndSuffix(fat: Fat, ch: seq<nat>, i: nat, n: nat)
    requires IsChain(fat, ch) && i < |ch| && |ch| - i <= n
    ensures ToEnd(fat, ch[i], n) == ch[i..]
    decreases |ch| - i
  {
    if i + 1 < |ch| {
      assert fat[ch[i]] == ch[i + 1];
      ToEndSuffix(fat, ch, i + 1, n - 1);
    } else {
      assert ch[i..] == [ch[i]];
    }
  }

  /** From the head of a chain the walk meets the chain, however long the map allows. */
  lemma ChainToEnd(fat: Fat, ch: seq<nat>)
    requires IsChain(fat, ch)
    ensures ToEnd(fat, ch[0], 512) == ch
  {
    Pigeonhole(ch, 3, 512);
    ToEndSuffix(fat, ch, 0, 512);
  }

  ghost function Interval(lo: nat, hi: nat): (r: set<nat>)
    requires lo <= hi
    ensures |r| == hi - lo && forall x: nat :: x in r <==> lo <= x < hi
    decreases hi
  {
    if lo == hi then {} else Interval(lo, hi - 1) + {hi - 1}
  }

  lemma {:induction false} DistinctCount(ch: seq<nat>, n: nat)
    requires n <= |ch| && forall i, j :: 0 <= i < j < |ch| ==> ch[i] != ch[j]
    ensures |set i | 0 <= i < n :: ch[i]| == n
  {
    var S := set i | 0 <= i < n :: ch[i];
    if n == 0 {
      assert S == {};
    } else {
      var T := set i | 0 <= i < n - 1 :: ch[i];
      DistinctCount(ch, n - 1);
      assert S == T + {ch[n - 1]};
    }
  }

  lemma {:induction false} SubsetCount(A: set<nat>, B: set<nat>)
    requires A <= B
    ensures |A| <= |B|
  {
    if A != {} {
      var x :| x in A;
      SubsetCount(A - {x}, B - {x});
    }
  }

  /** Distinct numbers of an interval are at most as many as the interval has. */
  lemma Pigeonhole(s: seq<nat>, lo: nat, hi: nat)
    requires lo <= hi && forall i :: 0 <= i < |s| ==> lo <= s[i] < hi
    requires forall i, j :: 0 <= i < j < |s| ==> s[i] != s[j]
    ensures |s| <= hi - lo
  {
    DistinctCount(s, |s|);
    SubsetCount(set i | 0 <= i < |s| :: s[i], Interval(lo, hi));
  }
}
