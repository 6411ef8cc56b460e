/** Theorems about the commands composed from driver calls: `rm` hits the entry it matched, `cp`
    makes an independent copy, and the names on the prompt lead back to the current directory. */
module CommandProofs {
  import opened Format
  import opened Volume
  import opened Edits
  import opened Tree
  import opened Storage
  import opened DriverSpec
  import opened Reading
  import opened WriteProofs
  import opened DeleteProofs
  import opened ShellSpec
  import opened CwdProofs

  // ---- rm ------------------------------------------------------------------------------

  lemma MatchIsPair(t: Table, d: nat, name: Name, ext: Ext)
    requires TableOk(t, d) && First(t, ByLivePair(name, ext), 1) < 64
    ensures First(t, ByPair(name, ext), 0) == First(t, ByLivePair(name, ext), 1)
  {
    var i := First(t, ByLivePair(name, ext), 1);
    var r := Request(name, ext, d, 0);
    MatchIsUnique(t, d, r, i);
  }

  /** `delete` acts on the entry `rm` matched: always for a file, and for a directory exactly when
      no earlier slot holds the same 8-byte name under another extension. */
  lemma RmHitsMatchIff(img: Image, lay: Layout, cur: nat, name: Name, ext: Ext)
    requires Consistent(MetaOf(img), lay) && cur in lay.Dirs() && cur < 512 && Match(img, cur, name, ext) < 64
    ensures var m, r := Match(img, cur, name, ext), RmRequest(img, cur, name, ext);
            Target(img, r) == m <==> r.size > 0 || forall i :: 0 <= i < m ==> TableOf(img, cur)[i].name != name
  {
    DirTableOk(img, lay, cur);
    var t, r := TableOf(img, cur), RmRequest(img, cur, name, ext);
    if r.size > 0 {
      MatchIsPair(t, cur, name, ext);
    } else {
      forall i | 0 <= i < Target(img, r)
        ensures t[i].name != name
      {
        assert !Hits(ByName(name), t[i]);
      }
    }
  }

  /** Then `rm` takes away exactly that entry, or nothing if it is an occupied directory or one
      called ROOT. */
  lemma RmRemovesMatch(img: Image, lay: Layout, cur: nat, name: Name, ext: Ext)
    requires Consistent(MetaOf(img), lay) && cur in lay.Dirs() && cur < 512 && Match(img, cur, name, ext) < 64
    requires Target(img, RmRequest(img, cur, name, ext)) == Match(img, cur, name, ext)
    ensures RmReady(img, cur, name, ext) && Deletable(img, RmRequest(img, cur, name, ext))
    ensures var l := Loc(cur, Match(img, cur, name, ext));
            var e := TableOf(img, cur)[l.slot];
            && l in lay.chains && |lay.chains[l]| > 0 && (e.size == 0 ==> HeadOf(e) < 512)
            && if e.size == 0 && (!EmptyTable(TableOf(img, HeadOf(e))) || name == ROOT_NAME)
               then Rm(img, cur, name, ext).code != 0 && Rm(img, cur, name, ext).img == img
               else Rm(img, cur, name, ext).code == 0
                    && Carries(MetaOf(img), lay, MetaOf(Rm(img, cur, name, ext).img), DropEntry(lay, l, e.size == 0))
  {
    var r, l := RmParts(img, lay, cur, name, ext);
    var out := RmDeletes(img, lay, r, l);
  }

  lemma RmDeletes(img: Image, lay: Layout, r: Request, l: Loc) returns (out: Outcome)
    requires Consistent(MetaOf(img), lay) && r.parent in lay.Dirs() && r.parent < 512 && Deletable(img, r)
    requires l == Loc(r.parent, Target(img, r)) && r.size == TableOf(img, r.parent)[l.slot].size
    ensures DeleteReady(img, r) && out == DeleteOutcome(img, r)
    ensures l in lay.chains && |lay.chains[l]| > 0 && HeadOf(TableOf(img, r.parent)[l.slot]) < 512
    ensures out.code == DeleteCode(img, r)
    ensures if out.code == 0 then Carries(MetaOf(img), lay, MetaOf(out.img), DropEntry(lay, l, r.size == 0))
            else out.img == img
  {
    DeleteKeepsValid(img, lay, r);
    DeleteRemoves(img, lay, r);
    out := DeleteOutcome(img, r);
  }

  lemma RmParts(img: Image, lay: Layout, cur: nat, name: Name, ext: Ext) returns (r: Request, l: Loc)
    requires Consistent(MetaOf(img), lay) && cur in lay.Dirs() && cur < 512 && Match(img, cur, name, ext) < 64
    requires Target(img, RmRequest(img, cur, name, ext)) == Match(img, cur, name, ext)
    ensures r == RmRequest(img, cur, name, ext) && l == Loc(cur, Match(img, cur, name, ext))
    ensures r.parent == cur && r.name == name && Target(img, r) == l.slot && Deletable(img, r)
    ensures r.size == TableOf(img, cur)[l.slot].size
  {
    r, l := RmRequest(img, cur, name, ext), Loc(cur, Match(img, cur, name, ext));
  }

  // ---- cp ------------------------------------------------------------------------------

  /** The bytes `cp` carries are the file's: it was matched, and its chain holds the whole size. */
  lemma CpReads(img: Image, lay: Layout, cur: nat, name: Name, ext: Ext, bufSize: u32)
    requires Consistent(MetaOf(img), lay) && cur in lay.Dirs() && cur < 512 && Match(img, cur, name, ext) < 64
    requires bufSize >= TableOf(img, cur)[Match(img, cur, name, ext)].size > 0
    ensures var e := TableOf(img, cur)[Match(img, cur, name, ext)];
            var reply := ReadReply(img, Request(name, ext, cur, bufSize));
            && reply.code == 0 && |reply.bytes| == 2048 * ClusterCount(e.size)
            && |CpData(img, cur, name, ext)| == e.size && reply.bytes[..e.size] == CpData(img, cur, name, ext)
  {
    var l := Loc(cur, Match(img, cur, name, ext));
    var e := TableOf(img, cur)[l.slot];
    FileAnswers(img, lay, l, Request(name, ext, cur, bufSize));
    FileAnswers(img, lay, l, Request(name, ext, cur, e.size));
  }

  /** An accepted copy of a file: the disk stays valid with the copy on a chain of its own, the
      new name reads the bytes the old one read, zero-filled, and the old name reads as before. */
  lemma CpCopies(img: Image, lay: Layout, cur: nat, name: Name, ext: Ext, newName: Name, newExt: Ext, bufSize: u32)
    requires Consistent(MetaOf(img), lay) && cur in lay.Dirs() && CpReady(img, cur, name, ext, newName, newExt)
    requires Match(img, cur, name, ext) < 64 && Cp(img, cur, name, ext, newName, newExt).code == 0
    requires bufSize >= TableOf(img, cur)[Match(img, cur, name, ext)].size > 0
    ensures var r := CpRequest(img, cur, name, ext, newName, newExt);
            var img' := Cp(img, cur, name, ext, newName, newExt).img;
            && Carries(MetaOf(img), lay, MetaOf(img'), AddEntry(lay, FileLoc(img, r), FileChain(img, r), false))
            && var copy := ReadReply(img', Request(newName, newExt, cur, bufSize));
               var old_ := ReadReply(img, Request(name, ext, cur, bufSize));
               && copy.code == 0 == old_.code
               && r.size <= |copy.bytes| == |old_.bytes| < r.size + 2048
               && copy.bytes[..r.size] == old_.bytes[..r.size]
               && (forall i :: r.size <= i < |copy.bytes| ==> copy.bytes[i] == 0)
               && ReadReply(img', Request(name, ext, cur, bufSize)) == old_
  {
    var r, data := CpRequest(img, cur, name, ext, newName, newExt), CpData(img, cur, name, ext);
    FileKeepsValid(img, lay, r, data);
    CpReads(img, lay, cur, name, ext, bufSize);
    WriteReadsPad(img, lay, r, data, bufSize);
    PadIsZeroFilled(data);
    ClusterCountIs(r.size);
    assert Pad(data)[..r.size] == data;
    AcceptedIsOther(img, r, Match(img, cur, name, ext));
    WriteKeepsOtherReads(img, lay, r, data, Request(name, ext, cur, bufSize));
  }

  lemma AcceptedIsOther(img: Image, r: Request, m: nat)
    requires r.parent < 512 && r.size > 0 && Accepted(img, r) && m < 64
    ensures !(TableOf(img, r.parent)[m].name == r.name && TableOf(img, r.parent)[m].ext == r.ext)
  {
    assert !Hits(ByPair(r.name, r.ext), TableOf(img, r.parent)[m]);
  }

  /** Both names can be deleted, and deleting either leaves what the other reads. */
  lemma CopyIsDeletable(img: Image, lay: Layout, r: Request, data: seq<byte>)
    requires Consistent(MetaOf(img), lay) && r.parent in lay.Dirs()
    requires WriteReady(img, r) && Accepted(img, r) && r.size == |data| > 0
    ensures var img' := WriteFile(img, r, data);
            && r.parent < 512 && Deletable(img', r) && OfPair(TableOf(img', r.parent)[Target(img', r)], r)
  {
    var ch, l := FileChain(img, r), FileLoc(img, r);
    FileIsPublished(img, lay, r, data);
    AcceptedRoom(img, lay, r, r.ext);
    PublishedTarget(img, BeforePublish(img, r, data), r, l, LiveEntry(r.name, r.ext, ch[0], r.size));
  }

  lemma OriginalIsDeletable(img: Image, lay: Layout, cur: nat, r: Request, m: nat)
    requires Consistent(MetaOf(img), lay) && cur in lay.Dirs() && cur < 512 && 1 <= m < 64
    requires r.parent == cur && OfPair(TableOf(img, cur)[m], r) && TableOf(img, cur)[m].size == r.size > 0
    ensures Target(img, r) == m && Deletable(img, r)
  {
    DirTableOk(img, lay, cur);
    MatchIsUnique(TableOf(img, cur), cur, r, m);
  }

  /** A request that names a live file by its pair and size. */
  predicate NamesFile(img: Image, r: Request) {
    r.parent < 512 && r.size > 0 && Deletable(img, r) && OfPair(TableOf(img, r.parent)[Target(img, r)], r)
  }

  lemma DeleteKeepsOtherFile(img: Image, lay: Layout, a: Request, b: Request, bufSize: u32)
    requires Consistent(MetaOf(img), lay) && a.parent in lay.Dirs() && NamesFile(img, a)
    requires b.parent == a.parent && !(b.name == a.name && b.ext == a.ext)
    ensures DeleteReady(img, a) && DeleteOutcome(img, a).code == 0
    ensures ReadReply(DeleteOutcome(img, a).img, b.(size := bufSize)) == ReadReply(img, b.(size := bufSize))
  {
    DeleteKeepsOtherReads(img, lay, a, b.(size := bufSize));
  }

  lemma WriteNamesTwoFiles(img: Image, lay: Layout, r: Request, data: seq<byte>, old_: Request, m: nat)
    requires Consistent(MetaOf(img), lay) && r.parent in lay.Dirs()
    requires WriteReady(img, r) && Accepted(img, r) && r.size == |data| > 0
    requires 1 <= m < 64 && OfPair(TableOf(img, r.parent)[m], old_) && TableOf(img, r.parent)[m].size == old_.size > 0
    requires old_.parent == r.parent
    ensures Carries(MetaOf(img), lay, MetaOf(WriteFile(img, r, data)),
                    AddEntry(lay, FileLoc(img, r), FileChain(img, r), false))
    ensures NamesFile(WriteFile(img, r, data), r) && NamesFile(WriteFile(img, r, data), old_)
  {
    CopyIsDeletable(img, lay, r, data);
    SlotAfterWrite(img, lay, r, data, m);
    FileKeepsValid(img, lay, r, data);
    OriginalIsDeletable(WriteFile(img, r, data), AddEntry(lay, FileLoc(img, r), FileChain(img, r), false),
                        r.parent, old_, m);
  }

  lemma CpNamesTwoFiles(img: Image, lay: Layout, cur: nat, name: Name, ext: Ext, newName: Name, newExt: Ext)
    requires Consistent(MetaOf(img), lay) && cur in lay.Dirs() && CpReady(img, cur, name, ext, newName, newExt)
    requires Match(img, cur, name, ext) < 64 && Accepted(img, CpRequest(img, cur, name, ext, newName, newExt))
    requires TableOf(img, cur)[Match(img, cur, name, ext)].size > 0
    ensures var r := CpRequest(img, cur, name, ext, newName, newExt);
            var img' := Cp(img, cur, name, ext, newName, newExt).img;
            && Carries(MetaOf(img), lay, MetaOf(img'), AddEntry(lay, FileLoc(img, r), FileChain(img, r), false))
            && NamesFile(img', r) && NamesFile(img', Request(name, ext, cur, r.size))
            && !(name == newName && ext == newExt)
  {
    var m, r, data := CpParts(img, lay, cur, name, ext, newName, newExt);
    AcceptedIsOther(img, r, m);
    WriteNamesTwoFiles(img, lay, r, data, Request(name, ext, cur, r.size), m);
  }

  /** What `cp` matched, and the request and data of the write it makes. */
  lemma CpParts(img: Image, lay: Layout, cur: nat, name: Name, ext: Ext, newName: Name, newExt: Ext)
    returns (m: nat, r: Request, data: seq<byte>)
    requires Consistent(MetaOf(img), lay) && cur in lay.Dirs() && CpReady(img, cur, name, ext, newName, newExt)
    requires Match(img, cur, name, ext) < 64 && Accepted(img, CpRequest(img, cur, name, ext, newName, newExt))
    requires TableOf(img, cur)[Match(img, cur, name, ext)].size > 0
    ensures r == CpRequest(img, cur, name, ext, newName, newExt) && r.parent == cur
    ensures r.name == newName && r.ext == newExt
    ensures WriteReady(img, r) && Accepted(img, r) && r.size == |data| > 0
    ensures 1 <= m < 64 && OfPair(TableOf(img, cur)[m], Request(name, ext, cur, r.size))
    ensures TableOf(img, cur)[m].size == r.size
    ensures Cp(img, cur, name, ext, newName, newExt) == Outcome(0, WriteFile(img, r, data))
  {
    m := Match(img, cur, name, ext);
    r, data := CpRequest(img, cur, name, ext, newName, newExt), CpData(img, cur, name, ext);
  }

  /** Deleting either of the two files `cp` leaves changes nothing the other reads. */
  lemma CpIsIndependent(img: Image, lay: Layout, cur: nat, name: Name, ext: Ext, newName: Name, newExt: Ext,
                        bufSize: u32)
    requires Consistent(MetaOf(img), lay) && cur in lay.Dirs() && CpReady(img, cur, name, ext, newName, newExt)
    requires Match(img, cur, name, ext) < 64 && Accepted(img, CpRequest(img, cur, name, ext, newName, newExt))
    requires TableOf(img, cur)[Match(img, cur, name, ext)].size > 0
    ensures var new_ := CpRequest(img, cur, name, ext, newName, newExt);
            var img' := Cp(img, cur, name, ext, newName, newExt).img;
            var old_ := Request(name, ext, cur, new_.size);
            && DeleteReady(img', old_) && DeleteReady(img', new_)
            && DeleteOutcome(img', old_).code == 0 && DeleteOutcome(img', new_).code == 0
            && ReadReply(DeleteOutcome(img', old_).img, new_.(size := bufSize))
               == ReadReply(img', new_.(size := bufSize))
            && ReadReply(DeleteOutcome(img', new_).img, old_.(size := bufSize))
               == ReadReply(img', old_.(size := bufSize))
  {
    var r := CpRequest(img, cur, name, ext, newName, newExt);
    var img' := Cp(img, cur, name, ext, newName, newExt).img;
    var lay' := AddEntry(lay, FileLoc(img, r), FileChain(img, r), false);
    CpNamesTwoFiles(img, lay, cur, name, ext, newName, newExt);
    DeleteKeepsOtherFile(img', lay', r, Request(name, ext, cur, r.size), bufSize);
    DeleteKeepsOtherFile(img', lay', Request(name, ext, cur, r.size), r, bufSize);
  }

  lemma SlotAfterWrite(img: Image, lay: Layout, r: Request, data: seq<byte>, m: nat)
    requires Consistent(MetaOf(img), lay) && r.parent in lay.Dirs()
    requires WriteReady(img, r) && Accepted(img, r) && r.size == |data| > 0 && m < 64
    requires Live(TableOf(img, r.parent)[m])
    ensures TableOf(WriteFile(img, r, data), r.parent)[m] == TableOf(img, r.parent)[m]
  {
    var ch, l := FileChain(img, r), FileLoc(img, r);
    FileKeepsValid(img, lay, r, data);
    FileIsPublished(img, lay, r, data);
    PublishedTables(img, BeforePublish(img, r, data), lay, l, LiveEntry(r.name, r.ext, ch[0], r.size), r.parent, m);
  }

  // ---- cd along the names on the prompt ------------------------------------------------

  /** The shell part-way along a path. */
  function Along(img: Image, p: seq<byte>, i: nat): Shell
    requires i < |p|
  {
    Shell(img, p[i], p[..i + 1])
  }

  ghost predicate StepsTo(s: Shell, name: Name, s1: Shell) {
    CdReady(s) && Cd(s, name) == (s1, true)
  }

  lemma AlongIsOk(img: Image, lay: Layout, p: seq<byte>, i: nat)
    requires Consistent(MetaOf(img), lay) && IsPath(lay.home, AsPath(p)) && i < |p|
    ensures ShellOk(Along(img, p, i), lay)
  {
    PathPrefix(lay.home, AsPath(p), i + 1);
  }

  lemma StepOnto(img: Image, p: seq<byte>, i: nat, name: Name)
    requires i + 1 < |p| && CdReady(Along(img, p, i)) && !DotDot(name) && CdSlot(Along(img, p, i), name) < 64
    requires var e := TableOf(img, p[i])[CdSlot(Along(img, p, i), name)]; e.size == 0 && HeadOf(e) == p[i + 1]
    ensures StepsTo(Along(img, p, i), name, Along(img, p, i + 1))
  {
    assert p[..i + 1] + [p[i + 1]] == p[..i + 2];
  }

  lemma StepDown(img: Image, lay: Layout, p: seq<byte>, i: nat)
    requires Consistent(MetaOf(img), lay) && IsPath(lay.home, AsPath(p)) && i + 1 < |p|
    requires !DotDot(TableOf(img, p[i + 1])[0].name)
    ensures StepsTo(Along(img, p, i), TableOf(img, p[i + 1])[0].name, Along(img, p, i + 1))
  {
    AlongIsOk(img, lay, p, i);
    ShellDir(Along(img, p, i), lay);
    assert StepAt(lay.home, AsPath(p), i + 1);
    OwnNameLeadsBack(img, lay, p[i + 1]);
    StepOnto(img, p, i, TableOf(img, p[i + 1])[0].name);
  }

  lemma {:induction false} WalkAlong(shells: seq<Shell>, names: seq<Name>)
    requires |shells| == |names| + 1 && CdReady(shells[0])
    requires forall i :: 0 <= i < |names| ==> StepsTo(shells[i], names[i], shells[i + 1])
    ensures MultiCdReady(shells[0], names) && MultiCd(shells[0], names) == shells[|names|]
  {
    if names != [] {
      if |names| > 1 {
        assert StepsTo(shells[1], names[1], shells[2]);
        WalkAlong(shells[1..], names[1..]);
      }
      assert ([names[0]] + names[1..])[1..] == names[1..];
    }
  }

  lemma WalkReturns(s: Shell, lay: Layout)
    requires ShellOk(s, lay) && forall j :: 0 < j < |s.stack| ==> !DotDot(TableOf(s.img, s.stack[j])[0].name)
    ensures MultiCdReady(Shell(s.img, ROOT, [ROOT]), PathNames(s.img, s.stack))
    ensures MultiCd(Shell(s.img, ROOT, [ROOT]), PathNames(s.img, s.stack)) == s
  {
    var shells, names := PathShells(s, lay);
    AlongIsOk(s.img, lay, s.stack, 0);
    WalkAlong(shells, names);
  }

  lemma {:induction false} PathNamesAre(img: Image, stack: seq<byte>)
    ensures var names := PathNames(img, stack);
            && |names| == (if |stack| == 0 then 0 else |stack| - 1)
            && forall j :: 0 <= j < |names| ==> names[j] == TableOf(img, stack[j + 1])[0].name
  {
    if |stack| > 1 {
      PathNamesAre(img, stack[1..]);
    }
  }

  /** The shells met on the way, one per directory of the path. */
  lemma PathShells(s: Shell, lay: Layout) returns (shells: seq<Shell>, names: seq<Name>)
    requires ShellOk(s, lay) && forall j :: 0 < j < |s.stack| ==> !DotDot(TableOf(s.img, s.stack[j])[0].name)
    ensures names == PathNames(s.img, s.stack) && |shells| == |names| + 1
    ensures shells[0] == Shell(s.img, ROOT, [ROOT]) == Along(s.img, s.stack, 0) && shells[|names|] == s
    ensures forall i :: 0 <= i < |names| ==> StepsTo(shells[i], names[i], shells[i + 1])
  {
    names := PathNames(s.img, s.stack);
    shells := seq(|s.stack|, i requires 0 <= i < |s.stack| => Along(s.img, s.stack, i));
    PathNamesAre(s.img, s.stack);
    StackEnds(s);
    forall i | 0 <= i < |names|
      ensures StepsTo(shells[i], names[i], shells[i + 1])
    {
      assert shells[i] == Along(s.img, s.stack, i) && shells[i + 1] == Along(s.img, s.stack, i + 1);
      StepDown(s.img, lay, s.stack, i);
    }
  }

  /** So a walk over a name with two dots in front ends on a stack shorter than its names. */
  lemma {:induction false} WalkLength(s: Shell, names: seq<Name>)
    requires MultiCdReady(s, names)
    ensures |MultiCd(s, names).stack| <= |s.stack| + |names|
    ensures (exists j :: 0 <= j < |names| && DotDot(names[j])) ==> |MultiCd(s, names).stack| < |s.stack| + |names|
    decreases names
  {
    if names != [] {
      if |names| > 1 && Cd(s, names[0]).1 {
        WalkLength(Cd(s, names[0]).0, names[1..]);
      }
    }
  }

  /** The path of the shell - the names in slot 0 of every directory on the stack - leads from the
      root back to the current directory, with the same stack, if and only if none of the names
      begins with two dots. */
  lemma PromptLeadsBackIff(s: Shell, lay: Layout)
    requires ShellOk(s, lay)
    ensures var root, names := Shell(s.img, ROOT, [ROOT]), PathNames(s.img, s.stack);
            MultiCdReady(root, names) && MultiCd(root, names) == s
            <==> forall j :: 0 < j < |s.stack| ==> !DotDot(TableOf(s.img, s.stack[j])[0].name)
  {
    var root, names := Shell(s.img, ROOT, [ROOT]), PathNames(s.img, s.stack);
    if forall j :: 0 < j < |s.stack| ==> !DotDot(TableOf(s.img, s.stack[j])[0].name) {
      WalkReturns(s, lay);
    } else if MultiCdReady(root, names) {
      var j :| 0 < j < |s.stack| && DotDot(TableOf(s.img, s.stack[j])[0].name);
      PathNamesAre(s.img, s.stack);
      assert DotDot(names[j - 1]);
      WalkLength(root, names);
    }
  }

  lemma StackEnds(s: Shell)
    requires |s.stack| > 0 && s.stack[0] == ROOT && s.stack[|s.stack| - 1] == s.cur
    ensures Along(s.img, s.stack, 0) == Shell(s.img, ROOT, [ROOT])
    ensures Along(s.img, s.stack, |s.stack| - 1) == s && s.stack[0..] == s.stack
  {
  }
}
