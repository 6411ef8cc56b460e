/** The stack of directories entered - cluster numbers cut to one byte, and the names they were
    entered by - and the stack of names a path is split into. */
module DirectoryStacks {
  import opened Format
  import opened Paths

  function EnteredTo(names: seq<seq<byte>>, n: nat): (r: seq<seq<byte>>)
    requires n < |names|
    ensures |r| == n && forall i :: 0 <= i < n ==> r[i] == Text(names[i + 1])
  {
    if n == 0 then [] else EnteredTo(names, n - 1) + [Text(names[n])]
  }

  lemma EnteredAreTexts(names: seq<seq<byte>>, fields: seq<Name>)
    requires |names| > 0 && names[1..] == fields
    ensures EnteredTo(names, |names| - 1) == Texts(fields)
  {
    forall i | 0 <= i < |fields|
      ensures names[i + 1] == fields[i]
    {
      assert names[1..][i] == names[i + 1];
    }
  }

  /** What is above the root does not depend on what lies behind it in the array. */
  lemma {:induction false} EnteredOf(all: seq<seq<byte>>, n: nat, m: nat)
    requires n < m <= |all|
    ensures EnteredTo(all[..m], n) == EnteredTo(all, n)
  {
    if n > 0 {
      EnteredOf(all, n - 1, m);
    }
  }

  lemma {:induction false} EnteredGrows(names: seq<seq<byte>>, i: nat, n: nat)
    requires i <= n < |names|
    ensures |Print(EnteredTo(names, i))| <= |Print(EnteredTo(names, n))|
    decreases n - i
  {
    if i < n {
      PrintAppend(EnteredTo(names, i), Text(names[i + 1]));
      EnteredGrows(names, i + 1, n);
    }
  }

  /** One round of the printer: a slash and the next name, still within the whole. */
  lemma EnteredStep(names: seq<seq<byte>>, i: nat, n: nat)
    requires 1 <= i <= n < |names|
    ensures Print(EnteredTo(names, i)) == Print(EnteredTo(names, i - 1)) + [SLASH] + Text(names[i])
    ensures |Print(EnteredTo(names, i))| <= |Print(EnteredTo(names, n))|
  {
    PrintAppend(EnteredTo(names, i - 1), Text(names[i]));
    EnteredGrows(names, i, n);
  }

  /** Copies a name up to its end into `path` from `j` on; returns where the copy ends. */
  method CopyText(path: array<byte>, j: nat, name: seq<byte>) returns (end: nat)
    requires j + |Text(name)| <= path.Length
    modifies path
    ensures end == j + |Text(name)| && path[..end] == old(path[..j]) + Text(name)
  {
    end := j;
    var k := 0;
    ghost var text := Text(name);
    while k < |name| && name[k] != 0
      invariant k <= |text| && end == j + k && path[..end] == old(path[..j]) + text[..k]
      decreases |name| - k
    {
      assert k < |text|;
      path[end] := name[k];
      end := end + 1;
      k := k + 1;
    }
    assert text[..k] == text;
  }

  class CurrentDirStack {
    const cells: array<byte>
    const names: array<seq<byte>>
    var top: int

    ghost predicate Valid()
      reads this
    {
      cells.Length == 256 && names.Length == 256 && cells as object != names && 0 <= top < 256
    }

    /** The filled part, bottom first. */
    ghost function Stack(): (s: seq<byte>)
      requires Valid()
      reads this, cells
      ensures |s| == top + 1
    {
      cells[..top + 1]
    }

    ghost function Names(): (s: seq<seq<byte>>)
      requires Valid()
      reads this, names
      ensures |s| == top + 1
    {
      names[..top + 1]
    }

    /** Only the root, cluster 2. */
    constructor ()
      ensures Valid() && fresh(cells) && fresh(names)
      ensures Stack() == [ROOT] && Names() == [['r' as int, 'o' as int, 'o' as int, 't' as int]]
    {
      cells := new byte[256](_ => ROOT);
      names := new seq<byte>[256](_ => ['r' as int, 'o' as int, 'o' as int, 't' as int]);
      top := 0;
    }

    /** The parameter is a byte: larger cluster numbers are cut. */
    method Push(dir: nat, name: seq<byte>)
      requires Valid() && top < 255
      modifies `top, cells, names
      ensures Valid() && Stack() == old(Stack()) + [dir % 256] && Names() == old(Names()) + [name]
    {
      top := top + 1;
      cells[top] := dir % 256;
      names[top] := name;
    }

    method Pop() returns (dir: byte)
      requires Valid() && top > 0
      modifies `top
      ensures Valid() && old(Stack()) == Stack() + [dir] && top == old(top) - 1
      ensures Names() == old(Names())[..top + 1]
    {
      dir := cells[top];
      top := top - 1;
    }

    method Top() returns (dir: byte)
      requires Valid()
      ensures dir == Stack()[top]
    {
      dir := cells[top];
    }

    /** The texts of the names above the root, in the order entered. */
    ghost function Entered(): (s: seq<seq<byte>>)
      requires Valid()
      reads this, names
      ensures |s| == top
    {
      EnteredTo(names[..], top)
    }

    lemma EnteredIs()
      requires Valid()
      ensures Entered() == EnteredTo(Names(), top)
    {
      EnteredOf(names[..], top, top + 1);
    }

    /** The path of the current directory, zero-terminated in a buffer of 255 bytes. */
    method ConvertToPaths() returns (path: array<byte>)
      requires Valid() && |Print(Entered())| < 255
      ensures fresh(path) && path.Length == 255 && Text(path[..]) == Print(Entered())
    {
      ghost var all := names[..];
      path := new byte[255](_ => 0);
      var i, j := 1, 0;
      while i <= top
        invariant 1 <= i <= top + 1 && names[..] == all
        invariant 0 <= j <= path.Length && path[..j] == Print(EnteredTo(all, i - 1))
      {
        EnteredStep(all, i, top);
        ghost var done := path[..j];
        path[j] := SLASH;
        assert path[..j + 1] == done + [SLASH];
        j := CopyText(path, j + 1, names[i]);
        i := i + 1;
      }
      path[j] := 0;
      PrintHasNoZero(EnteredTo(all, top));
      assert path[..][..j] == Print(Entered());
      TextUpTo(path[..], j);
    }
  }

  // ---- The stack of a request's names ------------------------------------------------------

  /** The name a pop gives when nothing is left: its first byte is zero. */
  const EMPTY: Name := NO_NAME

  class DirStack {
    const stack: array<Name>
    var top: int

    ghost predicate Valid()
      reads this
    {
      stack.Length == 256 && -1 <= top < 256
    }

    ghost function Names(): (s: seq<Name>)
      requires Valid()
      reads this, stack
      ensures |s| == top + 1
    {
      stack[..top + 1]
    }

    constructor ()
      ensures Valid() && fresh(stack) && Names() == []
    {
      stack := new Name[256](_ => NO_NAME);
      top := -1;
    }

    method Push(name: Name)
      requires Valid() && top < 255
      modifies `top, stack
      ensures Valid() && Names() == old(Names()) + [name]
    {
      top := top + 1;
      stack[top] := name;
    }

    method Pop() returns (name: Name)
      requires Valid()
      modifies `top
      ensures Valid()
      ensures if old(Names()) == [] then name == EMPTY && Names() == [] else old(Names()) == Names() + [name]
    {
      if top == -1 {
        return EMPTY;
      }
      name := stack[top];
      top := top - 1;
    }

    /** Swaps the names in place, from both ends inwards. */
    method Reverse()
      requires Valid()
      modifies stack
      ensures Valid() && Names() == Reversed(old(Names()))
    {
      ghost var was := Names();
      var i, j := 0, top;
      while i < j
        invariant 0 <= i <= j + 2 && i + j == top
        invariant forall k :: 0 <= k < i || j < k <= top ==> stack[k] == was[top - k]
        invariant forall k :: i <= k <= j ==> stack[k] == was[k]
      {
        stack[i], stack[j] := stack[j], stack[i];
        i := i + 1;
        j := j - 1;
      }
      forall k | 0 <= k < |was|
        ensures Names()[k] == Reversed(was)[k]
      {
        ReversedAt(was, k);
      }
    }
  }

  /** The array holds the text and a zero after it. */
  ghost predicate Holds(request: seq<byte>, text: seq<byte>) {
    |text| < |request| && request[..|text|] == text && request[|text|] == 0 && 0 !in text
  }

  lemma PartEnds(text: seq<byte>, i: nat, end: nat)
    requires i <= end <= |text| && SLASH !in text[i..end] && (end < |text| ==> text[end] == SLASH)
    ensures FirstPart(text[i..]) == text[i..end]
  {
  }

  /** Copies the part of the request from `i` to the next slash or the end into the eight bytes of
      `path`; a longer part is measured but not kept. */
  method ReadPart(request: array<byte>, ghost text: seq<byte>, i: nat, path: array<byte>) returns (end: nat)
    requires path.Length == 8 && path != request && Holds(request[..], text) && i < |text|
    modifies path
    ensures i <= end <= |text| && FirstPart(text[i..]) == text[i..end]
    ensures end - i <= 8 ==> path[..end - i] == text[i..end]
  {
    end := i;
    var j := 0;
    while request[end] != SLASH && request[end] != 0
      invariant i <= end == i + j <= |text| && Holds(request[..], text)
      invariant SLASH !in text[i..end] && (j <= 8 ==> path[..j] == text[i..end])
      decreases |text| - end
    {
      assert end < |text| && text[end] == request[end];
      assert text[i..end + 1] == text[i..end] + [text[end]];
      if j < 8 {
        path[j] := request[end];
      }
      end := end + 1;
      j := j + 1;
    }
    assert end < |text| ==> text[end] == request[end];
    PartEnds(text, i, end);
  }

  /** Fills the rest of the field with zeros. */
  method FillPart(path: array<byte>, j: nat)
    requires path.Length == 8 && j <= 8
    modifies path
    ensures path[..] == Field(old(path[..j]))
  {
    ghost var p := path[..j];
    var k := j;
    while k < 8
      invariant j <= k <= 8 && path[..j] == p && forall m :: j <= m < k ==> path[m] == 0
    {
      path[k] := 0;
      k := k + 1;
    }
    assert forall m :: j <= m < 8 ==> Field(p)[m] == 0;
  }

  /** The next part as an eight-byte field, if it fits one. */
  method ReadField(request: array<byte>, ghost text: seq<byte>, i: nat) returns (end: nat, name: Name)
    requires Holds(request[..], text) && i < |text|
    ensures i <= end <= |text| && FirstPart(text[i..]) == text[i..end]
    ensures end - i <= 8 ==> name == Field(text[i..end])
  {
    var path := new byte[8];
    end := ReadPart(request, text, i, path);
    if end - i <= 8 {
      FillPart(path, end - i);
    }
    name := path[..];
  }

  /** The result of a split with `names` on the stack and `parts` still to come. */
  function After(names: seq<Name>, parts: seq<seq<byte>>): Parsed {
    Parsed(names + Fields(parts).names, Fields(parts).valid)
  }

  lemma AfterPart(names: seq<Name>, part: seq<byte>, parts: seq<seq<byte>>) returns (next: seq<Name>)
    ensures |part| > 8 ==> After(names, [part] + parts) == Parsed(names, false)
    ensures |part| <= 8 ==> next == names + [Field(part)] && |names| < |After(names, [part] + parts).names|
    ensures |part| <= 8 ==> After(names, [part] + parts) == After(next, parts)
  {
    next := names;
    if |part| <= 8 {
      next := names + [Field(part)];
      AppendThenConcat(names, Field(part), Fields(parts).names);
    }
  }

  lemma AppendThenConcat(a: seq<Name>, x: Name, b: seq<Name>)
    ensures a + ([x] + b) == (a + [x]) + b
  {
  }

  lemma SlashStep(text: seq<byte>, i: nat)
    requires i < |text| && text[i] == SLASH
    ensures Components(text[i..]) == Components(text[i + 1..])
  {
    assert text[i..][1..] == text[i + 1..];
  }

  lemma PartStep(text: seq<byte>, i: nat) returns (part: seq<byte>, rest: seq<seq<byte>>)
    requires i < |text| && text[i] != SLASH
    ensures part == FirstPart(text[i..]) && 0 < |part| && i + |part| <= |text|
    ensures rest == Components(text[i + |part|..]) && Components(text[i..]) == [part] + rest
  {
    part := FirstPart(text[i..]);
    rest := Components(text[i + |part|..]);
  }

  /** What the next part does to a split with `names` done and `parts` to come. */
  lemma SplitStep(text: seq<byte>, i: nat, names: seq<Name>, parts: seq<seq<byte>>, all: Parsed)
    returns (part: seq<byte>, rest: seq<seq<byte>>, next: seq<Name>)
    requires i < |text| && text[i] != SLASH && parts == Components(text[i..]) && all == After(names, parts)
    ensures part == FirstPart(text[i..]) && 0 < |part| && i + |part| <= |text|
    ensures |part| > 8 ==> all == Parsed(names, false)
    ensures |part| <= 8 ==> |names| < |all.names| && next == names + [Field(part)] && all == After(next, rest)
    ensures rest == Components(text[i + |part|..])
  {
    part, rest := PartStep(text, i);
    next := AfterPart(names, part, rest);
  }

  /** Puts the part that starts at `i` on the stack, unless it is too long. */
  method PushPart(ds: DirStack, request: array<byte>, ghost text: seq<byte>, i: nat,
                  ghost part: seq<byte>, ghost next: seq<Name>)
    returns (end: nat, fits: bool)
    requires ds.Valid() && Holds(request[..], text) && ds.stack as object != request
    requires i < |text| && part == FirstPart(text[i..])
    requires |part| <= 8 ==> ds.top < 255 && next == ds.Names() + [Field(part)]
    modifies ds`top, ds.stack
    ensures ds.Valid() && end == i + |part| && request[..] == old(request[..])
    ensures fits == (|part| <= 8) && ds.Names() == if fits then next else old(ds.Names())
  {
    var name: Name;
    end, name := ReadField(request, text, i);
    fits := end - i <= 8;
    if fits {
      ds.Push(name);
    }
  }

  /** One part is pushed; one that is too long ends the split. */
  method Advance(ds: DirStack, request: array<byte>, ghost text: seq<byte>, i: nat,
                 ghost parts: seq<seq<byte>>, ghost all: Parsed)
    returns (end: nat, fits: bool, ghost rest: seq<seq<byte>>)
    requires ds.Valid() && Holds(request[..], text) && ds.stack as object != request
    requires i < |text| && text[i] != SLASH && parts == Components(text[i..])
    requires all == After(ds.Names(), parts) && |all.names| <= 256
    modifies ds`top, ds.stack
    ensures ds.Valid() && i < end <= |text| && request[..] == old(request[..])
    ensures fits ==> rest == Components(text[end..]) && all == After(ds.Names(), rest)
    ensures !fits ==> all == Parsed(ds.Names(), false)
  {
    ghost var names := ds.Names();
    ghost var part, next;
    part, rest, next := SplitStep(text, i, names, parts, all);
    end, fits := PushPart(ds, request, text, i, part, next);
    assert ds.Names() == if fits then next else names;
  }

  /** Splits a zero-terminated request; stops at the first part that is too long. */
  method GetDirStack(request: array<byte>, ghost text: seq<byte>) returns (ds: DirStack, valid: bool)
    requires Holds(request[..], text) && |Parse(text).names| <= 256
    ensures fresh(ds) && fresh(ds.stack) && ds.Valid()
    ensures Parsed(ds.Names(), valid) == Parse(text)
  {
    ds := new DirStack();
    assert text[0..] == text;
    valid := PushParts(ds, request, text, Components(text));
  }

  method PushParts(ds: DirStack, request: array<byte>, ghost text: seq<byte>, ghost parts: seq<seq<byte>>)
    returns (valid: bool)
    requires ds.Valid() && ds.stack as object != request && Holds(request[..], text)
    requires parts == Components(text[0..]) && |After(ds.Names(), parts).names| <= 256
    modifies ds`top, ds.stack
    ensures ds.Valid() && Parsed(ds.Names(), valid) == After(old(ds.Names()), parts)
  {
    var i := 0;
    ghost var all, rest := After(ds.Names(), parts), parts;
    valid := true;
    while request[i] != 0
      invariant 0 <= i <= |text| && Holds(request[..], text) && ds.Valid()
      invariant rest == Components(text[i..]) && After(ds.Names(), rest) == all
      decreases |text| - i
    {
      assert request[i] == text[i];
      if request[i] == SLASH {
        SlashStep(text, i);
        i := i + 1;
      } else {
        i, valid, rest := Advance(ds, request, text, i, rest, all);
        if !valid {
          return;
        }
      }
    }
    assert text[i..] == [];
  }

  /** Split, reverse, then pop until the empty name: gives the names in the order of the path. */
  method Walk(request: array<byte>, ghost text: seq<byte>) returns (names: seq<Name>, valid: bool)
    requires Holds(request[..], text) && |Parse(text).names| <= 256
    ensures valid == Parse(text).valid && names == if valid then Parse(text).names else []
  {
    var ds: DirStack;
    ds, valid := GetDirStack(request, text);
    if !valid {
      return [], false;
    }
    ds.Reverse();
    ReversedTwice(Parse(text).names);
    ParsedNamesAreNonempty(text);
    names := PopAll(ds);
  }

  /** The path on the prompt, split again and walked: the names entered, if all of them fit a field. */
  method WalkPrompt(cds: CurrentDirStack) returns (names: seq<Name>, valid: bool)
    requires cds.Valid() && |Print(cds.Entered())| < 255
    requires forall i :: 0 <= i < |cds.Entered()| ==> Proper(cds.Entered()[i])
    ensures valid == Parse(Print(cds.Entered())).valid
    ensures names == if valid then Parse(Print(cds.Entered())).names else []
    ensures valid <==> forall i :: 0 <= i < |cds.Entered()| ==> |cds.Entered()[i]| <= 8
    ensures valid ==> Texts(names) == cds.Entered()
  {
    ghost var entered := cds.Entered();
    var path := cds.ConvertToPaths();
    PrintedComponents(entered);
    ParsePrintedFields(entered);
    names, valid := Walk(path, Print(entered));
  }

  method PopAll(ds: DirStack) returns (names: seq<Name>)
    requires ds.Valid() && forall i :: 0 <= i < |Reversed(ds.Names())| ==> Reversed(ds.Names())[i][0] != 0
    modifies ds`top
    ensures ds.Valid() && ds.Names() == [] && names == old(Reversed(ds.Names()))
  {
    ghost var all, was := Reversed(ds.Names()), ds.Names();
    names := [];
    var name := ds.Pop();
    PopStep(all, [], was, ds.Names(), name);
    while name[0] != 0
      invariant ds.Valid() && PopsTo(all, names, name, ds.Names())
      decreases |all| - |names|
    {
      names := names + [name];
      was := ds.Names();
      name := ds.Pop();
      PopStep(all, names, was, ds.Names(), name);
    }
  }

  /** Popped so far, just popped, and still to come make up the whole. */
  ghost predicate PopsTo(all: seq<Name>, names: seq<Name>, name: Name, rest: seq<Name>) {
    if name[0] == 0 then names == all && rest == [] else all == names + [name] + Reversed(rest)
  }

  lemma PopStep(all: seq<Name>, names: seq<Name>, was: seq<Name>, rest: seq<Name>, name: Name)
    requires all == names + Reversed(was) && forall i :: 0 <= i < |all| ==> all[i][0] != 0
    requires if was == [] then name == EMPTY && rest == [] else was == rest + [name]
    ensures PopsTo(all, names, name, rest)
  {
    if was != [] {
      assert all[|names|] == name;
    }
  }
}
