/** What the shell's commands do, told over the slots of the tables, the bytes of the names and the
    stack, in every state they can work on. */
module ShellEffects {
  import opened Format
  import opened Storage
  import opened DriverSpec
  import opened ShellSpec

  // ---- Searches, from slot 1 on ----------------------------------------------------------------

  predicate HasPair(e: Entry, name: Name, ext: Ext) {
    e.name == name && e.ext == ext
  }

  /** `i` is the first slot after the first that is marked taken and has this name and extension, or 64. */
  ghost predicate FirstTaken(t: Table, name: Name, ext: Ext, i: nat) {
    && 1 <= i <= 64 && (i < 64 ==> t[i].user == 0xAA && HasPair(t[i], name, ext))
    && forall j :: 1 <= j < i ==> !(t[j].user == 0xAA && HasPair(t[j], name, ext))
  }

  /** The same, taken or not. */
  ghost predicate FirstNamed(t: Table, name: Name, ext: Ext, i: nat) {
    && 1 <= i <= 64 && (i < 64 ==> HasPair(t[i], name, ext))
    && forall j :: 1 <= j < i ==> !HasPair(t[j], name, ext)
  }

  /** `i` is the first slot after the first that is not marked taken, or 64. */
  ghost predicate FirstOpen(t: Table, i: nat) {
    1 <= i <= 64 && (i < 64 ==> t[i].user != 0xAA) && forall j :: 1 <= j < i ==> t[j].user == 0xAA
  }

  lemma TakenSearch(t: Table, name: Name, ext: Ext, i: nat)
    requires FirstTaken(t, name, ext, i)
    ensures First(t, ByLivePair(name, ext), 1) == i
  {
    assert i < 64 ==> Hits(ByLivePair(name, ext), t[i]);
  }

  lemma NamedSearch(t: Table, name: Name, ext: Ext, i: nat)
    requires FirstNamed(t, name, ext, i)
    ensures First(t, ByPair(name, ext), 1) == i
  {
    assert i < 64 ==> Hits(ByPair(name, ext), t[i]);
  }

  lemma OpenSearch(t: Table, i: nat)
    requires FirstOpen(t, i)
    ensures First(t, FreeSlot, 1) == i
  {
    assert i < 64 ==> Hits(FreeSlot, t[i]);
  }

  // ---- cd --------------------------------------------------------------------------------------

  /** A name whose first two bytes are dots goes up, except in the root; any other enters the first taken
      slot of that name without extension, if there is one. */
  lemma CdAnswer(s: Shell, name: Name, i: nat)
    requires CdReady(s) && FirstTaken(TableOf(s.img, s.cur), name, [0, 0, 0], i)
    ensures var (s', ok) := Cd(s, name); var t := TableOf(s.img, s.cur);
            && s'.img == s.img && (!ok ==> s' == s)
            && if name[0] == 46 && name[1] == 46
               then ok == (s.cur != 2)
                    && (ok ==> s'.stack == s.stack[..|s.stack| - 1] && s'.cur == s'.stack[|s'.stack| - 1])
               else ok == (i < 64)
                    && (ok ==> s'.cur == t[i].low + 65536 * t[i].high && s'.stack == s.stack + [s'.cur % 256])
  {
    TakenSearch(TableOf(s.img, s.cur), name, [0, 0, 0], i);
  }

  /** Beside the stack goes one name for each element: the one entered by. */
  lemma CdNamesAnswer(s: Shell, name: Name, names: seq<seq<byte>>)
    requires CdReady(s) && |names| == |s.stack|
    ensures var ok, names' := Cd(s, name).1, CdNames(s, name, names);
            names' == if !ok then names
                      else if name[0] == 46 && name[1] == 46 then names[..|names| - 1]
                      else names + [name]
  {
  }

  /** `path` is walked in `k` steps that succeed; the next one, if there is one, fails and is the last. */
  ghost predicate Walks(states: seq<Shell>, s: Shell, path: seq<Name>) {
    && 1 <= |states| <= |path| + 1 && states[0] == s
    && (forall j :: 0 <= j < |states| - 1 ==> CdReady(states[j]) && Cd(states[j], path[j]) == (states[j + 1], true))
    && (|states| <= |path| ==> CdReady(states[|states| - 1]) && !Cd(states[|states| - 1], path[|states| - 1]).1)
  }

  lemma {:induction false} MultiCdWalks(s: Shell, path: seq<Name>) returns (states: seq<Shell>)
    requires MultiCdReady(s, path)
    ensures Walks(states, s, path) && MultiCd(s, path) == states[|states| - 1]
    decreases path
  {
    if path == [] || !Cd(s, path[0]).1 {
      states := [s];
    } else if |path| == 1 {
      states := [s, Cd(s, path[0]).0];
    } else {
      var rest := MultiCdWalks(Cd(s, path[0]).0, path[1..]);
      states := [s] + rest;
    }
  }

  // ---- mv --------------------------------------------------------------------------------------

  /** An entry put into a slot, field by field: marked taken, as a file, with the low half of the cluster. */
  ghost predicate IsCarried(was: Entry, e: Entry, from: Entry, name: Name, ext: Ext) {
    && e.name == name && e.ext == ext && e.size == from.size && e.attribute == 0 && e.user == 0xAA
    && e.low == from.low && e.high == 0 && e.misc == was.misc && e.last == was.last
  }

  /** ... and one cleared. */
  ghost predicate IsCleared(was: Entry, e: Entry) {
    && e.name == [0, 0, 0, 0, 0, 0, 0, 0] && e.ext == [0, 0, 0] && e.size == 0 && e.attribute == 0 && e.user == 0
    && e.low == 0 && e.high == 0 && e.misc == was.misc && e.last == was.last
  }

  lemma CarriedIs(was: Entry, from: Entry, name: Name, ext: Ext)
    ensures IsCarried(was, MovedEntry(was, from, name, ext), from, name, ext)
    ensures IsCleared(was, ClearedEntry(was))
  {
  }

  /** The tables are the same beside slot `i`. */
  ghost predicate SameBeside(t: Table, t': Table, i: nat) {
    i < 64 && forall j :: 0 <= j < 64 && j != i ==> t'[j] == t[j]
  }

  /** The first open slot of the table at `from` gets the entry, and the table goes to `to`; without an
      open slot nothing happens. */
  lemma DepositAnswer(img: Image, from: nat, to: nat, e: Entry, name: Name, ext: Ext, o: nat)
    requires from < 2048 && to < 2048 && FirstOpen(TableOf(img, from), o)
    ensures var out, t := Deposit(img, from, to, e, name, ext), TableOf(img, from);
            if o == 64 then out == img && DepositSteps(img, from, to, e, name, ext) == []
            else && DepositSteps(img, from, to, e, name, ext) == [out]
                 && SameBeside(t, TableOf(out, to), o) && IsCarried(t[o], TableOf(out, to)[o], e, name, ext)
                 && forall x :: 0 <= x < 2048 && x != to ==> out[x] == img[x]
  {
    var t := TableOf(img, from);
    OpenSearch(t, o);
    if o < 64 {
      CarriedIs(t[o], e, name, ext);
      PutTableMeta(img, to, t[o := MovedEntry(t[o], e, name, ext)]);
    }
  }

  lemma ClearAnswer(img: Image, cur: nat, t: Table, n: nat)
    requires cur < 512 && n < 64
    ensures var out := PutTable(img, cur, t[n := ClearedEntry(t[n])]);
            && SameBeside(t, TableOf(out, cur), n) && IsCleared(t[n], TableOf(out, cur)[n])
            && forall x :: 0 <= x < 2048 && x != cur ==> out[x] == img[x]
  {
    CarriedIs(t[n], t[n], t[n].name, t[n].ext);
    PutTableMeta(img, cur, t[n := ClearedEntry(t[n])]);
  }

  /** The entry is in the target, if that has an open slot and is not the directory itself, and its old
      slot is cleared, in the buffer and on the disk; the target is written first. */
  lemma MoveOntoAnswer(img: Image, cur: nat, t: Table, m: nat, name: Name, ext: Ext, n: nat, o: nat)
    requires cur < 512 && m < 64 && FirstNamed(t, name, ext, n)
    requires HeadOf(t[m]) < 2048 && FirstOpen(TableOf(img, HeadOf(t[m])), o)
    ensures var ((out, t'), c) := (MoveOnto(img, cur, t, m, name, ext), t[m].low + 65536 * t[m].high);
            var steps := MoveOntoSteps(img, cur, t, m, name, ext);
            if n == 64 then out == img && t' == t && steps == []
            else && SameBeside(t, t', n) && IsCleared(t[n], t'[n]) && TableOf(out, cur) == t'
                 && |steps| == (if o < 64 then 2 else 1) && steps[|steps| - 1] == out
                 && (o < 64 ==> IsArrival(img, steps[0], c, o, t[n], name, ext))
                 && (forall x :: 0 <= x < 2048 && x != cur ==> out[x] == (if o < 64 then steps[0] else img)[x])
  {
    var c := HeadOf(t[m]);
    NamedSearch(t, name, ext, n);
    if n < 64 {
      DepositAnswer(img, c, c, t[n], name, ext, o);
      ClearAnswer(Deposit(img, c, c, t[n], name, ext), cur, t, n);
    }
  }

  /** Slot `o` of the table in cluster `c` got the entry, and nothing else changed. */
  ghost predicate IsArrival(img: Image, out: Image, c: nat, o: nat, e: Entry, name: Name, ext: Ext) {
    && c < 2048 && SameBeside(TableOf(img, c), TableOf(out, c), o)
    && IsCarried(TableOf(img, c)[o], TableOf(out, c)[o], e, name, ext)
    && forall x :: 0 <= x < 2048 && x != c ==> out[x] == img[x]
  }

  /** One round of the scan, for slot `m` of the buffer as the rounds before have left it. */
  ghost predicate Round(before: (Image, Table), after: (Image, Table), steps: seq<Image>, cur: nat, m: nat,
                        name: Name, ext: Ext, target: Name)
    requires m < 64 && cur < 512
  {
    var (img, t) := before;
    if t[m].user == 0xAA && HasPair(t[m], target, [0, 0, 0]) then
      && HeadOf(t[m]) < 2048 && after == MoveOnto(img, cur, t, m, name, ext)
      && steps == MoveOntoSteps(img, cur, t, m, name, ext)
    else after == before && steps == []
  }

  /** `states[k]` is how round `k` finds disk and buffer, and `steps[k]` what it leaves on the disk. */
  ghost predicate Scans(states: seq<(Image, Table)>, steps: seq<seq<Image>>, cur: nat, m: nat,
                        name: Name, ext: Ext, target: Name)
    requires cur < 512
  {
    && |states| == 65 && |steps| == 64
    && forall k {:trigger steps[k]} :: m <= k < 64 ==>
         Round(states[k], states[k + 1], steps[k], cur, k, name, ext, target)
  }

  lemma ScansFrom(before: (Image, Table), first: seq<Image>, states: seq<(Image, Table)>, steps: seq<seq<Image>>,
                  cur: nat, m: nat, name: Name, ext: Ext, target: Name)
    requires m < 64 && cur < 512 && Scans(states, steps, cur, m + 1, name, ext, target)
    requires Round(before, states[m + 1], first, cur, m, name, ext, target)
    ensures Scans(states[m := before], steps[m := first], cur, m, name, ext, target)
  {
    var all, more := states[m := before], steps[m := first];
    forall k | m <= k < 64
      ensures Round(all[k], all[k + 1], more[k], cur, k, name, ext, target)
    {
      assert k > m ==> all[k] == states[k] && more[k] == steps[k];
      assert all[k + 1] == states[k + 1];
    }
  }

  function Joined(steps: seq<seq<Image>>): seq<Image> {
    if steps == [] then [] else steps[0] + Joined(steps[1..])
  }

  lemma JoinedFrom(first: seq<Image>, steps: seq<seq<Image>>, m: nat)
    requires m < |steps|
    ensures Joined(steps[m := first][m..]) == first + Joined(steps[m + 1..])
  {
    assert steps[m := first][m..][1..] == steps[m + 1..];
  }

  lemma {:induction false} MoveScans(img: Image, cur: nat, t: Table, m: nat, name: Name, ext: Ext, target: Name)
    returns (states: seq<(Image, Table)>, steps: seq<seq<Image>>)
    requires cur < 512 && 1 <= m <= 64 && TargetsReadable(t, target)
    ensures Scans(states, steps, cur, m, name, ext, target) && states[m] == (img, t)
    ensures MoveScan(img, cur, t, m, name, ext, target) == states[64].0
    ensures MoveSteps(img, cur, t, m, name, ext, target) == Joined(steps[m..])
    decreases |t| - m
  {
    if m == 64 {
      states, steps := seq(65, (_: nat) => (img, t)), seq(64, (_: nat) => []);
    } else {
      var first, next := [], (img, t);
      if Hits(ByLivePair(target, NO_EXT), t[m]) {
        first, next := MoveOntoSteps(img, cur, t, m, name, ext), MoveOnto(img, cur, t, m, name, ext);
      }
      states, steps := MoveScans(next.0, cur, next.1, m + 1, name, ext, target);
      ScansFrom((img, t), first, states, steps, cur, m, name, ext, target);
      JoinedFrom(first, steps, m);
      states, steps := states[m := (img, t)], steps[m := first];
    }
  }

  /** `mv name /..` as far as the shell has gone up: the slot of the name is cleared, if there is one. */
  lemma GoneAnswer(s: Shell, name: Name, ext: Ext, n: nat)
    requires CdReady(s) && FirstNamed(TableOf(s.img, s.cur), name, ext, n)
    ensures var up, t := Gone(s, name, ext), TableOf(s.img, s.cur);
            && (if s.cur == 2 then up.cur == 2 && up.stack == s.stack
                else up.stack == s.stack[..|s.stack| - 1] && up.cur == up.stack[|up.stack| - 1])
            && GoneSteps(s, name, ext) == (if n < 64 then [up.img] else [])
            && if n == 64 then up.img == s.img
               else && SameBeside(t, TableOf(up.img, s.cur), n) && IsCleared(t[n], TableOf(up.img, s.cur)[n])
                    && forall x :: 0 <= x < 2048 && x != s.cur ==> up.img[x] == s.img[x]
  {
    var t := TableOf(s.img, s.cur);
    NamedSearch(t, name, ext, n);
    if n < 64 {
      ClearAnswer(s.img, s.cur, t, n);
    }
  }

  /** ... what is then put where slot 0 of the upper table says that table is: the entry, or one of size 0
      with the leftover cluster. */
  lemma UpThereAnswer(s: Shell, name: Name, ext: Ext, junk: u16, up: Shell, n: nat, o: nat)
    requires UpReady(s, name, ext) && FirstNamed(TableOf(s.img, s.cur), name, ext, n)
    requires up == Gone(s, name, ext) && FirstOpen(TableOf(up.img, up.cur), o)
    ensures var there, e := UpThere(s, name, ext, junk), Taken(s, name, ext, junk);
            var own := TableOf(up.img, up.cur)[0];
            && there.cur == up.cur && there.stack == up.stack
            && IsRaised(up, there.img, own.low + 65536 * own.high, o, e, name, ext)
            && UpSteps(s, name, ext, junk) == GoneSteps(s, name, ext) + (if o < 64 then [there.img] else [])
            && if n < 64 then e == TableOf(s.img, s.cur)[n] else e == ZERO_ENTRY.(low := junk)
  {
    NamedSearch(TableOf(s.img, s.cur), name, ext, n);
    DepositAnswer(up.img, up.cur, HeadOf(TableOf(up.img, up.cur)[0]), Taken(s, name, ext, junk), name, ext, o);
  }

  /** ... and then comes back by the name in slot 0 of the table it left. */
  lemma MoveUpAnswer(s: Shell, name: Name, ext: Ext, junk: u16, n: nat, names: seq<seq<byte>>)
    requires UpReady(s, name, ext) && FirstNamed(TableOf(s.img, s.cur), name, ext, n) && |names| == |s.stack|
    ensures var there, own := UpThere(s, name, ext, junk), TableOf(s.img, s.cur)[0].name;
            && (if n < 64 then MoveUpReady(s, name, ext) && MoveUp(s, name, ext) == Cd(there, own).0
                else MissingReady(s) && MoveUpMissing(s, name, ext, junk) == Cd(there, own).0)
            && UpNames(s, name, ext, junk, names) == CdNames(there, own, CdNames(s, UP, names))
  {
    NamedSearch(TableOf(s.img, s.cur), name, ext, n);
  }

  /** The table of the shell's directory with the entry in slot `o` is in cluster `c`; without an open slot
      nothing changed. */
  ghost predicate IsRaised(up: Shell, out: Image, c: nat, o: nat, e: Entry, name: Name, ext: Ext)
    requires up.cur < 512
  {
    if o == 64 then out == up.img
    else && c < 2048 && SameBeside(TableOf(up.img, up.cur), TableOf(out, c), o)
         && IsCarried(TableOf(up.img, up.cur)[o], TableOf(out, c)[o], e, name, ext)
         && forall x :: 0 <= x < 2048 && x != c ==> out[x] == up.img[x]
  }

  /** Slot `m` of the current table gets name and extension and stays as it is otherwise, and then slot 0
      of the table at its cluster, as that was before; of one and the same table slot 0 alone. */
  lemma RenameAnswer(img: Image, cur: nat, name: Name, ext: Ext, newName: Name, newExt: Ext, m: nat)
    requires RenameReady(img, cur, name, ext) && FirstTaken(TableOf(img, cur), name, ext, m)
    ensures var out, t := Rename(img, cur, name, ext, newName, newExt), TableOf(img, cur);
            if m == 64 then out == img
            else var c, half := t[m].low + 65536 * t[m].high, RenameHalf(img, cur, m, newName, newExt);
              && c < 2048 && IsRenamed(img, half, cur, m, newName, newExt)
              && SameBeside(TableOf(img, c), TableOf(out, c), 0)
              && TableOf(out, c)[0] == TableOf(img, c)[0].(name := newName, ext := newExt)
              && forall x :: 0 <= x < 2048 && x != c ==> out[x] == half[x]
  {
    TakenSearch(TableOf(img, cur), name, ext, m);
    if m < 64 {
      var t := TableOf(img, cur);
      var c := HeadOf(t[m]);
      var own, half := TableOf(img, c), RenameHalf(img, cur, m, newName, newExt);
      PutTableMeta(img, cur, t[m := RenamedEntry(t[m], newName, newExt)]);
      PutTableMeta(half, c, own[0 := RenamedEntry(own[0], newName, newExt)]);
    }
  }

  ghost predicate IsRenamed(img: Image, out: Image, c: nat, i: nat, name: Name, ext: Ext) {
    && c < 2048 && i < 64 && SameBeside(TableOf(img, c), TableOf(out, c), i)
    && TableOf(out, c)[i] == TableOf(img, c)[i].(name := name, ext := ext)
    && forall x :: 0 <= x < 2048 && x != c ==> out[x] == img[x]
  }

  /** The three forms ask only that what they read lies on the disk of 2048 clusters. */
  lemma MvNeeds(s: Shell, name: Name, ext: Ext, target: Name, m: nat)
    requires s.cur < 512 && FirstTaken(TableOf(s.img, s.cur), name, ext, m)
    ensures TargetsReadable(TableOf(s.img, s.cur), target) <==>
            forall i :: 1 <= i < 64 && TableOf(s.img, s.cur)[i].user == 0xAA
                        && HasPair(TableOf(s.img, s.cur)[i], target, [0, 0, 0]) ==>
              TableOf(s.img, s.cur)[i].low + 65536 * TableOf(s.img, s.cur)[i].high < 2048
    ensures RenameReady(s.img, s.cur, name, ext) <==>
            (m < 64 ==> TableOf(s.img, s.cur)[m].low + 65536 * TableOf(s.img, s.cur)[m].high < 2048)
    ensures UpReady(s, name, ext) <==>
            && (s.cur == 2 || |s.stack| >= 2)
            && var up := Gone(s, name, ext);
               && up.cur < 512 && (up.cur == 2 || |up.stack| >= 2)
               && TableOf(up.img, up.cur)[0].low + 65536 * TableOf(up.img, up.cur)[0].high < 2048
  {
    TakenSearch(TableOf(s.img, s.cur), name, ext, m);
  }

  // ---- rm and cp -------------------------------------------------------------------------------

  /** `rm` asks `delete` with the size of the first taken slot of the pair, */
  lemma RmAnswer(img: Image, cur: nat, name: Name, ext: Ext, m: nat)
    requires RmReady(img, cur, name, ext) && FirstTaken(TableOf(img, cur), name, ext, m)
    ensures m == 64 ==> Rm(img, cur, name, ext).img == img
    ensures m < 64 ==> var r := Request(name, ext, cur, TableOf(img, cur)[m].size);
                       DeleteReady(img, r) && Rm(img, cur, name, ext) == DeleteOutcome(img, r)
  {
    TakenSearch(TableOf(img, cur), name, ext, m);
  }

  /** ... and `cp` asks `read` and then `write` with it. */
  lemma CpAnswer(img: Image, cur: nat, name: Name, ext: Ext, newName: Name, newExt: Ext, m: nat)
    requires CpReady(img, cur, name, ext, newName, newExt) && FirstTaken(TableOf(img, cur), name, ext, m)
    ensures m == 64 ==> Cp(img, cur, name, ext, newName, newExt).img == img
    ensures m < 64 && CpFits(img, cur, name, ext) ==>
              var size := TableOf(img, cur)[m].size;
              var source, target := Request(name, ext, cur, size), Request(newName, newExt, cur, size);
              && ReadReady(img, source) && size <= |ReadReply(img, source).bytes| && WriteReady(img, target)
              && Cp(img, cur, name, ext, newName, newExt)
                 == WriteOutcome(img, target, ReadReply(img, source).bytes[..size])
  {
    TakenSearch(TableOf(img, cur), name, ext, m);
  }
}
