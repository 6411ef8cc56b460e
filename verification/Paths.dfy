/** Path text: printing a list of names, each after a slash, and splitting a text at slashes. */
module Paths {
  import opened Format

  const SLASH: byte := '/' as int

  // ---- C strings ---------------------------------------------------------------------

  /** What a reader that stops at the first zero byte sees. */
  function Text(field: seq<byte>): (r: seq<byte>)
    ensures |r| <= |field| && r == field[..|r|] && 0 !in r
    ensures |r| < |field| ==> field[|r|] == 0
  {
    if field == [] || field[0] == 0 then [] else [field[0]] + Text(field[1..])
  }

  /** A text in an eight-byte field, filled up with zeros. */
  function Field(text: seq<byte>): Name
    requires |text| <= 8
  {
    text + NO_NAME[|text|..]
  }

  lemma FieldBytes(text: seq<byte>, i: nat)
    requires |text| <= 8 && i < 8
    ensures Field(text)[i] == if i < |text| then text[i] else 0
  {
  }

  lemma {:induction false} TextUpTo(field: seq<byte>, n: nat)
    requires n <= |field| && 0 !in field[..n] && (n < |field| ==> field[n] == 0)
    ensures Text(field) == field[..n]
  {
    if n > 0 {
      assert field[..n][0] == field[0] && field[1..][..n - 1] == field[..n][1..];
      TextUpTo(field[1..], n - 1);
    }
  }

  // ---- Printing ------------------------------------------------------------------------

  function Print(names: seq<seq<byte>>): seq<byte> {
    if names == [] then [] else [SLASH] + names[0] + Print(names[1..])
  }

  lemma {:induction false} PrintAppend(names: seq<seq<byte>>, n: seq<byte>)
    ensures Print(names + [n]) == Print(names) + [SLASH] + n
  {
    if names == [] {
      assert [n][1..] == [];
    } else {
      assert (names + [n])[1..] == names[1..] + [n];
      PrintAppend(names[1..], n);
    }
  }

  /** One slash, byte 47, in front of every name, and nothing else. */
  lemma {:induction false} PrintJoins(names: seq<seq<byte>>, more: seq<seq<byte>>, n: seq<byte>)
    ensures Print([]) == [] && Print([n]) == [47] + n
    ensures Print(names + more) == Print(names) + Print(more)
  {
    assert [n][1..] == [];
    if names == [] {
      assert names + more == more;
    } else {
      PrintJoins(names[1..], more, n);
      assert (names + more)[1..] == names[1..] + more;
      assert Print(names + more) == [SLASH] + names[0] + (Print(names[1..]) + Print(more));
    }
  }

  lemma {:induction false} PrintHasNoZero(names: seq<seq<byte>>)
    requires forall i :: 0 <= i < |names| ==> 0 !in names[i]
    ensures 0 !in Print(names)
  {
    if names != [] {
      PrintHasNoZero(names[1..]);
    }
  }

  // ---- Parsing -------------------------------------------------------------------------

  function FirstPart(text: seq<byte>): (r: seq<byte>)
    ensures |r| <= |text| && r == text[..|r|] && SLASH !in r
    ensures |r| < |text| ==> text[|r|] == SLASH
  {
    if text == [] || text[0] == SLASH then [] else [text[0]] + FirstPart(text[1..])
  }

  /** The nonempty stretches between slashes. */
  function Components(text: seq<byte>): seq<seq<byte>>
    decreases |text|
  {
    if text == [] then []
    else if text[0] == SLASH then Components(text[1..])
    else [FirstPart(text)] + Components(text[|FirstPart(text)|..])
  }

  /** A stretch of the text between slashes or its ends, nonempty and without a slash. */
  ghost predicate IsStretch(text: seq<byte>, cut: (nat, nat)) {
    var (a, b) := cut;
    && a < b <= |text| && (forall k :: a <= k < b ==> text[k] != 47)
    && (a > 0 ==> text[a - 1] == 47) && (b < |text| ==> text[b] == 47)
  }

  /** From `from` on: the stretches in order, and nothing but slashes elsewhere. */
  ghost predicate Cuts(text: seq<byte>, from: nat, cuts: seq<(nat, nat)>) {
    && (forall i :: 0 <= i < |cuts| ==> IsStretch(text, cuts[i]) && from <= cuts[i].0)
    && (forall i, j :: 0 <= i < j < |cuts| ==> cuts[i].1 < cuts[j].0)
    && (forall k :: from <= k < |text| && text[k] != 47 ==> Covered(cuts, k))
  }

  ghost predicate Covered(cuts: seq<(nat, nat)>, k: nat) {
    exists i :: 0 <= i < |cuts| && cuts[i].0 <= k < cuts[i].1
  }

  lemma CutsWith(text: seq<byte>, a: nat, b: nat, rest: seq<(nat, nat)>)
    requires IsStretch(text, (a, b)) && Cuts(text, b, rest)
    ensures Cuts(text, a, [(a, b)] + rest)
  {
    var cuts := [(a, b)] + rest;
    forall i | 0 <= i < |rest|
      ensures b < rest[i].0
    {
      assert IsStretch(text, rest[i]);
    }
    forall k | a <= k < |text| && text[k] != 47
      ensures Covered(cuts, k)
    {
      if k < b {
        assert cuts[0] == (a, b);
      } else {
        var i :| 0 <= i < |rest| && rest[i].0 <= k < rest[i].1;
        assert cuts[i + 1] == rest[i];
      }
    }
  }

  ghost predicate PartsAt(text: seq<byte>, cuts: seq<(nat, nat)>, parts: seq<seq<byte>>) {
    && |cuts| == |parts|
    && forall i {:trigger cuts[i]} :: 0 <= i < |cuts| ==> cuts[i].0 <= cuts[i].1 <= |text|
                                                          && parts[i] == text[cuts[i].0..cuts[i].1]
  }

  lemma PartsWith(text: seq<byte>, a: nat, b: nat, rest: seq<(nat, nat)>, parts: seq<seq<byte>>)
    requires a <= b <= |text| && PartsAt(text, rest, parts)
    ensures PartsAt(text, [(a, b)] + rest, [text[a..b]] + parts)
  {
  }

  lemma FirstStretch(text: seq<byte>, a: nat) returns (b: nat)
    requires a < |text| && text[a] != SLASH && (a > 0 ==> text[a - 1] == SLASH)
    ensures IsStretch(text, (a, b)) && Components(text[a..]) == [text[a..b]] + Components(text[b..])
  {
    var rest := text[a..];
    var n := |FirstPart(rest)|;
    b := a + n;
    assert rest[..n] == text[a..b] && rest[n..] == text[b..];
    StretchIs(text, a, b);
  }

  lemma StretchIs(text: seq<byte>, a: nat, b: nat)
    requires a < b <= |text| && SLASH !in text[a..b]
    requires (a > 0 ==> text[a - 1] == SLASH) && (b < |text| ==> text[b..][0] == SLASH)
    ensures IsStretch(text, (a, b))
  {
    forall k | a <= k < b
      ensures text[k] != 47
    {
      assert text[a..b][k - a] == text[k];
    }
  }

  lemma {:induction false} PartsFrom(text: seq<byte>, a: nat) returns (cuts: seq<(nat, nat)>)
    requires a <= |text| && (a == 0 || a == |text| || text[a - 1] == SLASH || text[a] == SLASH)
    ensures Cuts(text, a, cuts) && PartsAt(text, cuts, Components(text[a..]))
    decreases |text| - a
  {
    if a == |text| {
      cuts := [];
    } else if text[a] == SLASH {
      cuts := PartsFrom(text, a + 1);
      assert text[a..][1..] == text[a + 1..];
    } else {
      var b := FirstStretch(text, a);
      var rest := PartsFrom(text, b);
      CutsWith(text, a, b, rest);
      PartsWith(text, a, b, rest, Components(text[b..]));
      cuts := [(a, b)] + rest;
    }
  }

  /** The parts of a text are all its stretches, in order. */
  lemma ComponentsAreCuts(text: seq<byte>) returns (cuts: seq<(nat, nat)>)
    ensures Cuts(text, 0, cuts) && PartsAt(text, cuts, Components(text))
  {
    cuts := PartsFrom(text, 0);
    assert text[0..] == text;
  }

  predicate Proper(name: seq<byte>) {
    name != [] && SLASH !in name
  }

  lemma {:induction false} FirstPartIs(name: seq<byte>, rest: seq<byte>)
    requires SLASH !in name && (rest == [] || rest[0] == SLASH)
    ensures FirstPart(name + rest) == name
  {
    if name == [] {
      assert name + rest == rest;
    } else {
      assert (name + rest)[1..] == name[1..] + rest;
      FirstPartIs(name[1..], rest);
    }
  }

  lemma {:induction false} ComponentsAreProper(text: seq<byte>)
    ensures forall i :: 0 <= i < |Components(text)| ==> Proper(Components(text)[i])
    decreases |text|
  {
    if text != [] {
      ComponentsAreProper(if text[0] == SLASH then text[1..] else text[|FirstPart(text)|..]);
    }
  }

  lemma ComponentsStep(name: seq<byte>, rest: seq<byte>)
    requires Proper(name) && (rest == [] || rest[0] == SLASH)
    ensures Components([SLASH] + name + rest) == [name] + Components(rest)
  {
    var text := name + rest;
    assert ([SLASH] + name + rest)[1..] == text;
    assert text[|name|..] == rest && text[0] == name[0];
  }

  lemma {:induction false} PrintedComponents(names: seq<seq<byte>>)
    requires forall i :: 0 <= i < |names| ==> Proper(names[i])
    ensures Components(Print(names)) == names
  {
    if names != [] {
      PrintedComponents(names[1..]);
      ComponentsStep(names[0], Print(names[1..]));
    }
  }

  /** Parsing what was printed gives the names back if and only if every one of them is nonempty
      and free of slashes. */
  lemma ParseUndoesPrintIff(names: seq<seq<byte>>)
    ensures Components(Print(names)) == names <==> forall i :: 0 <= i < |names| ==> Proper(names[i])
  {
    ComponentsAreProper(Print(names));
    if forall i :: 0 <= i < |names| ==> Proper(names[i]) {
      PrintedComponents(names);
    }
  }

  /** Printing what was parsed gives a text that parses the same: repeated, leading and trailing
      slashes are all that is lost. */
  lemma PrintNormalizes(text: seq<byte>)
    ensures Components(Print(Components(text))) == Components(text)
  {
    ComponentsAreProper(text);
    ParseUndoesPrintIff(Components(text));
  }

  // ---- The stack a request becomes --------------------------------------------------------

  /** The fields up to the first part that is too long for one, and whether there was none. */
  datatype Parsed = Parsed(names: seq<Name>, valid: bool)

  function Fields(parts: seq<seq<byte>>): (r: Parsed)
    ensures |r.names| <= |parts| && (r.valid <==> forall i :: 0 <= i < |parts| ==> |parts[i]| <= 8)
    ensures forall i :: 0 <= i < |r.names| ==> |parts[i]| <= 8 && r.names[i] == Field(parts[i])
    ensures r.valid ==> |r.names| == |parts|
    ensures !r.valid ==> |r.names| < |parts| && |parts[|r.names|]| > 8
  {
    if parts == [] then Parsed([], true)
    else if |parts[0]| > 8 then Parsed([], false)
    else var rest := Fields(parts[1..]); Parsed([Field(parts[0])] + rest.names, rest.valid)
  }

  function Parse(text: seq<byte>): Parsed {
    Fields(Components(text))
  }

  lemma {:induction false} PartsAvoidZero(text: seq<byte>)
    requires 0 !in text
    ensures forall i :: 0 <= i < |Components(text)| ==> 0 !in Components(text)[i]
    decreases |text|
  {
    if text != [] {
      PartsAvoidZero(if text[0] == SLASH then text[1..] else text[|FirstPart(text)|..]);
    }
  }

  /** No name on the stack looks like the empty name that ends a walk. */
  lemma ParsedNamesAreNonempty(text: seq<byte>)
    requires 0 !in text
    ensures forall i :: 0 <= i < |Parse(text).names| ==> Parse(text).names[i][0] != 0
  {
    ComponentsAreProper(text);
    PartsAvoidZero(text);
    forall i | 0 <= i < |Parse(text).names|
      ensures Parse(text).names[i][0] != 0
    {
    }
  }

  function Texts(names: seq<Name>): (r: seq<seq<byte>>)
    ensures |r| == |names| && forall i :: 0 <= i < |r| ==> r[i] == Text(names[i])
  {
    if names == [] then [] else [Text(names[0])] + Texts(names[1..])
  }

  /** Names in fields survive being printed as a path and parsed back, zeros included. */
  lemma ParsePrintedFields(names: seq<seq<byte>>)
    requires forall i :: 0 <= i < |names| ==> Proper(names[i]) && 0 !in names[i]
    ensures var r := Parse(Print(names));
            && (r.valid <==> forall i :: 0 <= i < |names| ==> |names[i]| <= 8)
            && (r.valid ==> Texts(r.names) == names)
  {
    PrintedComponents(names);
    var r := Parse(Print(names));
    if r.valid {
      forall i | 0 <= i < |names|
        ensures Texts(r.names)[i] == names[i]
      {
        TextUpTo(Field(names[i]), |names[i]|);
      }
    }
  }

  /** A field that holds a name a path can carry: a text without slashes, zeros behind it. */
  predicate Plain(name: Name) {
    name == Field(Text(name)) && Proper(Text(name))
  }

  predicate HoldsName(name: Name, n: nat)
    requires n <= 8
  {
    && (forall i :: 0 <= i < n ==> name[i] != 0 && name[i] != 47)
    && (forall i :: n <= i < 8 ==> name[i] == 0)
  }

  /** Byte by byte: one to eight bytes other than zero and the slash, zeros behind them. */
  lemma PlainIff(name: Name)
    ensures Plain(name) <==> exists n {:trigger HoldsName(name, n)} :: 1 <= n <= 8 && HoldsName(name, n)
  {
    if Plain(name) {
      PlainHolds(name);
    }
    if n {:trigger HoldsName(name, n)} :| 1 <= n <= 8 && HoldsName(name, n) {
      TextUpTo(name, n);
      assert name == Field(name[..n]);
    }
  }

  lemma PlainHolds(name: Name)
    requires Plain(name)
    ensures 1 <= |Text(name)| && HoldsName(name, |Text(name)|)
  {
    var text := Text(name);
    forall i | 0 <= i < 8
      ensures if i < |text| then name[i] != 0 && name[i] != 47 else name[i] == 0
    {
      FieldBytes(text, i);
      assert i < |text| ==> text[i] in text;
    }
  }

  lemma FieldText(text: seq<byte>)
    requires |text| <= 8 && 0 !in text
    ensures Text(Field(text)) == text
  {
    TextUpTo(Field(text), |text|);
  }

  lemma ParsedIsPlain(text: seq<byte>, i: nat)
    requires 0 !in text && i < |Parse(text).names|
    ensures Plain(Parse(text).names[i])
  {
    ComponentsAreProper(text);
    PartsAvoidZero(text);
    FieldText(Components(text)[i]);
  }

  lemma PlainFields(names: seq<Name>, texts: seq<seq<byte>>)
    requires texts == Texts(names) && forall i :: 0 <= i < |names| ==> Plain(names[i])
    ensures Fields(texts) == Parsed(names, true)
  {
    var r := Fields(texts);
    forall i | 0 <= i < |texts|
      ensures |texts[i]| <= 8 && Field(texts[i]) == names[i]
    {
      assert Plain(names[i]) && texts[i] == Text(names[i]);
    }
    assert r.names == names;
  }

  lemma PlainParse(names: seq<Name>)
    requires forall i :: 0 <= i < |names| ==> Plain(names[i])
    ensures Parse(Print(Texts(names))) == Parsed(names, true)
  {
    var texts := Texts(names);
    forall i | 0 <= i < |texts|
      ensures Proper(texts[i])
    {
      assert Plain(names[i]);
    }
    PrintedComponents(texts);
    PlainFields(names, texts);
  }

  lemma ParsedArePlain(text: seq<byte>, names: seq<Name>)
    requires 0 !in text && Parse(text).names == names
    ensures forall i :: 0 <= i < |names| ==> Plain(names[i])
  {
    forall i | 0 <= i < |names|
      ensures Plain(names[i])
    {
      ParsedIsPlain(text, i);
    }
  }

  /** Names printed as a path and split again are the same fields if and only if all are plain. */
  lemma PrintedFieldsIff(names: seq<Name>)
    ensures Parse(Print(Texts(names))) == Parsed(names, true) <==> forall i :: 0 <= i < |names| ==> Plain(names[i])
  {
    var text := Print(Texts(names));
    PrintHasNoZero(Texts(names));
    if Parse(text) == Parsed(names, true) {
      ParsedArePlain(text, names);
    } else if forall i :: 0 <= i < |names| ==> Plain(names[i]) {
      PlainParse(names);
    }
  }

  // ---- Reversal ------------------------------------------------------------------------------

  function Reversed(s: seq<Name>): (r: seq<Name>)
    ensures |r| == |s|
  {
    if s == [] then [] else [s[|s| - 1]] + Reversed(s[..|s| - 1])
  }

  lemma {:induction false} ReversedAt(s: seq<Name>, i: nat)
    requires i < |s|
    ensures Reversed(s)[i] == s[|s| - 1 - i]
  {
    if i > 0 {
      ReversedAt(s[..|s| - 1], i - 1);
    }
  }

  lemma ReversedTwice(s: seq<Name>)
    ensures Reversed(Reversed(s)) == s
  {
    forall i | 0 <= i < |s|
      ensures Reversed(Reversed(s))[i] == s[i]
    {
      ReversedAt(Reversed(s), i);
      ReversedAt(s, |s| - 1 - i);
    }
  }
}
