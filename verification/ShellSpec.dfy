/** The shell's namespace commands as functions of the image, the current directory and the stack
    of directories entered, starting from names already parsed into fixed-width fields. */
module ShellSpec {
  import opened Format
  import opened Storage
  import opened DriverSpec

  /** `stack` is the filled part of the directory stack, whose elements are single bytes. */
  datatype Shell = Shell(img: Image, cur: nat, stack: seq<byte>)

  /** A path that begins with two dots goes up, whatever follows them. */
  predicate DotDot(name: Name) {
    name[0] == '.' as int && name[1] == '.' as int
  }

  const UP: Name := ['.' as int, '.' as int, 0, 0, 0, 0, 0, 0]

  // ---- cd ------------------------------------------------------------------------

  predicate CdReady(s: Shell) {
    s.cur < 512 && (s.cur != ROOT ==> |s.stack| >= 2)
  }

  function CdSlot(s: Shell, name: Name): nat
    requires s.cur < 512
  {
    First(TableOf(s.img, s.cur), ByLivePair(name, NO_EXT), 1)
  }

  /** One step: up by popping, down by the first live entry of the name without extension. The
      stack keeps only the low byte of the cluster number. */
  function Cd(s: Shell, name: Name): (Shell, bool)
    requires CdReady(s)
  {
    if DotDot(name) then
      if s.cur == ROOT then (s, false)
      else (s.(stack := s.stack[..|s.stack| - 1], cur := s.stack[|s.stack| - 2]), true)
    else if CdSlot(s, name) == 64 then (s, false)
    else
      var head := HeadOf(TableOf(s.img, s.cur)[CdSlot(s, name)]);
      (s.(cur := head, stack := s.stack + [head % 256]), true)
  }

  /** What a step does to the names the directories on the stack were entered by. */
  function CdNames(s: Shell, name: Name, names: seq<seq<byte>>): (r: seq<seq<byte>>)
    requires CdReady(s) && |names| == |s.stack|
    ensures |r| == |Cd(s, name).0.stack|
  {
    if !Cd(s, name).1 then names
    else if DotDot(name) then names[..|names| - 1]
    else names + [name]
  }

  // ---- mv to another directory -------------------------------------------------------

  function MovedEntry(free: Entry, e: Entry, name: Name, ext: Ext): Entry {
    free.(name := name, ext := ext, size := e.size, attribute := 0, user := UATTR_NOT_EMPTY,
          high := 0, low := HeadOf(e) % 0x1_0000)
  }

  function ClearedEntry(e: Entry): Entry {
    e.(name := NO_NAME, ext := NO_EXT, size := 0, attribute := 0, user := 0, high := 0, low := 0)
  }

  /** Takes the table read at `from`, puts the entry into its first free slot, if it has one, and
      writes the table at `to`. */
  function Deposit(img: Image, from: nat, to: nat, e: Entry, name: Name, ext: Ext): Image
    requires from < 2048 && to < 2048
  {
    var t := TableOf(img, from);
    var o := First(t, FreeSlot, 1);
    if o == 64 then img else PutTable(img, to, t[o := MovedEntry(t[o], e, name, ext)])
  }

  /** The images a deposit leaves on the disk, one by one: one, or none without a free slot. */
  function DepositSteps(img: Image, from: nat, to: nat, e: Entry, name: Name, ext: Ext): seq<Image>
    requires from < 2048 && to < 2048
  {
    if First(TableOf(img, from), FreeSlot, 1) == 64 then [] else [Deposit(img, from, to, e, name, ext)]
  }

  function MoveSlot(img: Image, cur: nat, name: Name, ext: Ext): nat
    requires cur < 512
  {
    First(TableOf(img, cur), ByPair(name, ext), 1)
  }

  function TargetSlot(img: Image, cur: nat, target: Name): nat
    requires cur < 512
  {
    First(TableOf(img, cur), ByLivePair(target, NO_EXT), 1)
  }

  predicate MoveIntoReady(img: Image, cur: nat, target: Name) {
    cur < 512 && (TargetSlot(img, cur, target) < 64 ==> HeadOf(TableOf(img, cur)[TargetSlot(img, cur, target)]) < 2048)
  }

  /** Every target the scan may meet can be read. */
  predicate TargetsReadable(t: Table, target: Name) {
    forall m :: 1 <= m < 64 && Hits(ByLivePair(target, NO_EXT), t[m]) ==> HeadOf(t[m]) < 2048
  }

  /** Slot `m` of the buffered table is a target: deposit the entry there, then clear its slot here. */
  function MoveOnto(img: Image, cur: nat, t: Table, m: nat, name: Name, ext: Ext): (Image, Table)
    requires cur < 512 && m < 64 && HeadOf(t[m]) < 2048
  {
    var n := First(t, ByPair(name, ext), 1);
    if n == 64 then (img, t)
    else
      var t' := t[n := ClearedEntry(t[n])];
      (PutTable(Deposit(img, HeadOf(t[m]), HeadOf(t[m]), t[n], name, ext), cur, t'), t')
  }

  function MoveOntoSteps(img: Image, cur: nat, t: Table, m: nat, name: Name, ext: Ext): seq<Image>
    requires cur < 512 && m < 64 && HeadOf(t[m]) < 2048
  {
    var n := First(t, ByPair(name, ext), 1);
    if n == 64 then []
    else DepositSteps(img, HeadOf(t[m]), HeadOf(t[m]), t[n], name, ext) + [MoveOnto(img, cur, t, m, name, ext).0]
  }

  /** `mv name /target` from slot `m` on: the scan goes on after a match, over the changed buffer. */
  function MoveScan(img: Image, cur: nat, t: Table, m: nat, name: Name, ext: Ext, target: Name): Image
    requires cur < 512 && 1 <= m <= 64 && TargetsReadable(t, target)
    decreases |t| - m
  {
    if m == 64 then img
    else if Hits(ByLivePair(target, NO_EXT), t[m]) then
      var (img', t') := MoveOnto(img, cur, t, m, name, ext);
      MoveScan(img', cur, t', m + 1, name, ext, target)
    else MoveScan(img, cur, t, m + 1, name, ext, target)
  }

  /** The images `mv name /target` leaves on the disk from slot `m` on. */
  function MoveSteps(img: Image, cur: nat, t: Table, m: nat, name: Name, ext: Ext, target: Name): seq<Image>
    requires cur < 512 && 1 <= m <= 64 && TargetsReadable(t, target)
    decreases |t| - m
  {
    if m == 64 then []
    else if Hits(ByLivePair(target, NO_EXT), t[m]) then
      var (img', t') := MoveOnto(img, cur, t, m, name, ext);
      MoveOntoSteps(img, cur, t, m, name, ext) + MoveSteps(img', cur, t', m + 1, name, ext, target)
    else MoveSteps(img, cur, t, m + 1, name, ext, target)
  }

  /** `mv name /target` where the target's name is unique: deposit in the named directory, then clear
      the old slot. */
  function MoveInto(img: Image, cur: nat, name: Name, ext: Ext, target: Name): Image
    requires MoveIntoReady(img, cur, target)
  {
    var t, n, m := TableOf(img, cur), MoveSlot(img, cur, name, ext), TargetSlot(img, cur, target);
    if m == 64 || n == 64 then img
    else PutTable(Deposit(img, HeadOf(t[m]), HeadOf(t[m]), t[n], name, ext), cur, t[n := ClearedEntry(t[n])])
  }

  /** `mv name /..`, first half: clear the old slot, go up, deposit where slot 0 says "here" is. */
  function MoveUpThere(s: Shell, name: Name, ext: Ext): Shell
    requires CdReady(s) && MoveSlot(s.img, s.cur, name, ext) < 64 && MoveUpReady(s, name, ext)
  {
    var t, n := TableOf(s.img, s.cur), MoveSlot(s.img, s.cur, name, ext);
    var up := Lifted(s, name, ext);
    up.(img := Deposit(up.img, up.cur, HeadOf(TableOf(up.img, up.cur)[0]), t[n], name, ext))
  }

  function Lifted(s: Shell, name: Name, ext: Ext): Shell
    requires CdReady(s) && MoveSlot(s.img, s.cur, name, ext) < 64
  {
    var t, n := TableOf(s.img, s.cur), MoveSlot(s.img, s.cur, name, ext);
    Cd(s.(img := PutTable(s.img, s.cur, t[n := ClearedEntry(t[n])])), UP).0
  }

  predicate MoveUpReady(s: Shell, name: Name, ext: Ext)
    requires CdReady(s) && MoveSlot(s.img, s.cur, name, ext) < 64
  {
    var up := Lifted(s, name, ext);
    CdReady(up) && HeadOf(TableOf(up.img, up.cur)[0]) < 2048
  }

  /** ... second half: back down by the name in slot 0 of the directory it started in. */
  function MoveUp(s: Shell, name: Name, ext: Ext): Shell
    requires CdReady(s) && MoveSlot(s.img, s.cur, name, ext) < 64 && MoveUpReady(s, name, ext)
  {
    Cd(MoveUpThere(s, name, ext), TableOf(s.img, s.cur)[0].name).0
  }

  predicate MissingReady(s: Shell) {
    CdReady(s) && var up := Cd(s, UP).0; CdReady(up) && HeadOf(TableOf(up.img, up.cur)[0]) < 2048
  }

  /** `mv name /..` for a name that is not there: nothing is cleared, and what is deposited has size 0
      and whatever cluster the local variable happened to hold. */
  function MoveUpMissing(s: Shell, name: Name, ext: Ext, junk: u16): Shell
    requires MissingReady(s)
  {
    var up := Cd(s, UP).0;
    var there := HeadOf(TableOf(up.img, up.cur)[0]);
    Cd(up.(img := Deposit(up.img, up.cur, there, ZERO_ENTRY.(low := junk), name, ext)), TableOf(s.img, s.cur)[0].name).0
  }

  // ---- ... step by step, whether the name is there or not ----

  /** The entry cleared, if it is there, and the shell one level up. */
  function Gone(s: Shell, name: Name, ext: Ext): Shell
    requires CdReady(s)
  {
    if MoveSlot(s.img, s.cur, name, ext) < 64 then Lifted(s, name, ext) else Cd(s, UP).0
  }

  function Taken(s: Shell, name: Name, ext: Ext, junk: u16): Entry
    requires s.cur < 512
  {
    var n := MoveSlot(s.img, s.cur, name, ext);
    if n < 64 then TableOf(s.img, s.cur)[n] else ZERO_ENTRY.(low := junk)
  }

  function GoneSteps(s: Shell, name: Name, ext: Ext): seq<Image>
    requires CdReady(s)
  {
    if MoveSlot(s.img, s.cur, name, ext) < 64 then [Gone(s, name, ext).img] else []
  }

  predicate UpReady(s: Shell, name: Name, ext: Ext) {
    CdReady(s) && var up := Gone(s, name, ext); CdReady(up) && HeadOf(TableOf(up.img, up.cur)[0]) < 2048
  }

  /** The shell before it comes back, the images on the way, and the names entered afterwards. */
  function UpThere(s: Shell, name: Name, ext: Ext, junk: u16): Shell
    requires UpReady(s, name, ext)
  {
    var up := Gone(s, name, ext);
    up.(img := Deposit(up.img, up.cur, HeadOf(TableOf(up.img, up.cur)[0]), Taken(s, name, ext, junk), name, ext))
  }

  function UpSteps(s: Shell, name: Name, ext: Ext, junk: u16): seq<Image>
    requires UpReady(s, name, ext)
  {
    var up := Gone(s, name, ext);
    GoneSteps(s, name, ext)
      + DepositSteps(up.img, up.cur, HeadOf(TableOf(up.img, up.cur)[0]), Taken(s, name, ext, junk), name, ext)
  }

  function UpNames(s: Shell, name: Name, ext: Ext, junk: u16, names: seq<seq<byte>>): seq<seq<byte>>
    requires UpReady(s, name, ext) && |names| == |s.stack|
  {
    CdNames(UpThere(s, name, ext, junk), TableOf(s.img, s.cur)[0].name, CdNames(s, UP, names))
  }

  // ---- mv as rename ---------------------------------------------------------------------

  /** The first of the two writes: the entry in slot `m` gets the new name. */
  function RenameHalf(img: Image, cur: nat, m: nat, newName: Name, newExt: Ext): Image
    requires cur < 512 && m < 64
  {
    var t := TableOf(img, cur);
    PutTable(img, cur, t[m := RenamedEntry(t[m], newName, newExt)])
  }

  /** Both the entry in slot `m` and slot 0 of whatever it points at get the new name. */
  function RenameSlot(img: Image, cur: nat, m: nat, newName: Name, newExt: Ext): Image
    requires cur < 512 && m < 64 && HeadOf(TableOf(img, cur)[m]) < 2048
  {
    var c := HeadOf(TableOf(img, cur)[m]);
    var own := TableOf(img, c);
    PutTable(RenameHalf(img, cur, m, newName, newExt), c, own[0 := RenamedEntry(own[0], newName, newExt)])
  }

  function RenamedEntry(e: Entry, newName: Name, newExt: Ext): Entry {
    e.(name := newName, ext := newExt)
  }

  predicate RenameReady(img: Image, cur: nat, name: Name, ext: Ext) {
    cur < 512 && (Match(img, cur, name, ext) < 64 ==> HeadOf(TableOf(img, cur)[Match(img, cur, name, ext)]) < 2048)
  }

  /** `mv name newname`. */
  function Rename(img: Image, cur: nat, name: Name, ext: Ext, newName: Name, newExt: Ext): Image
    requires RenameReady(img, cur, name, ext)
  {
    var m := Match(img, cur, name, ext);
    if m == 64 then img else RenameSlot(img, cur, m, newName, newExt)
  }

  // ---- rm, cp, mkdir -----------------------------------------------------------------------

  function Match(img: Image, cur: nat, name: Name, ext: Ext): nat
    requires cur < 512
  {
    First(TableOf(img, cur), ByLivePair(name, ext), 1)
  }

  /** The request `rm` sends: the matched entry's size picks the mode of `delete`. */
  function RmRequest(img: Image, cur: nat, name: Name, ext: Ext): Request
    requires cur < 512 && Match(img, cur, name, ext) < 64
  {
    Request(name, ext, cur, TableOf(img, cur)[Match(img, cur, name, ext)].size)
  }

  ghost predicate RmReady(img: Image, cur: nat, name: Name, ext: Ext) {
    cur < 512 && (Match(img, cur, name, ext) < 64 ==> DeleteReady(img, RmRequest(img, cur, name, ext)))
  }

  ghost function Rm(img: Image, cur: nat, name: Name, ext: Ext): Outcome
    requires RmReady(img, cur, name, ext)
  {
    if Match(img, cur, name, ext) == 64 then Outcome(1, img)
    else DeleteOutcome(img, RmRequest(img, cur, name, ext))
  }

  /** `cp` reads with the size as the buffer size and writes that many bytes under the new name. */
  function CpData(img: Image, cur: nat, name: Name, ext: Ext): seq<byte>
    requires cur < 512 && Match(img, cur, name, ext) < 64
  {
    var size := TableOf(img, cur)[Match(img, cur, name, ext)].size;
    var bytes := ReadReply(img, Request(name, ext, cur, size)).bytes;
    if size <= |bytes| then bytes[..size] else []
  }

  function CpRequest(img: Image, cur: nat, name: Name, ext: Ext, newName: Name, newExt: Ext): Request
    requires cur < 512 && Match(img, cur, name, ext) < 64
  {
    Request(newName, newExt, cur, TableOf(img, cur)[Match(img, cur, name, ext)].size)
  }

  /** The matched file can be read, and its clusters fit the four of the command's buffer. */
  predicate CpFits(img: Image, cur: nat, name: Name, ext: Ext)
    requires cur < 512 && Match(img, cur, name, ext) < 64
  {
    var r := Request(name, ext, cur, TableOf(img, cur)[Match(img, cur, name, ext)].size);
    ReadReady(img, r) && r.size <= |ReadReply(img, r).bytes| <= 8192
  }

  predicate CpReady(img: Image, cur: nat, name: Name, ext: Ext, newName: Name, newExt: Ext) {
    && cur < 512
    && (Match(img, cur, name, ext) < 64 ==>
          && WriteReady(img, CpRequest(img, cur, name, ext, newName, newExt))
          && |CpData(img, cur, name, ext)| == CpRequest(img, cur, name, ext, newName, newExt).size)
  }

  function Cp(img: Image, cur: nat, name: Name, ext: Ext, newName: Name, newExt: Ext): Outcome
    requires CpReady(img, cur, name, ext, newName, newExt)
  {
    if Match(img, cur, name, ext) == 64 then Outcome(1, img)
    else WriteOutcome(img, CpRequest(img, cur, name, ext, newName, newExt), CpData(img, cur, name, ext))
  }

  // ---- cd along a path -----------------------------------------------------------------------

  predicate MultiCdReady(s: Shell, names: seq<Name>)
    decreases names
  {
    CdReady(s) && (|names| > 1 && Cd(s, names[0]).1 ==> MultiCdReady(Cd(s, names[0]).0, names[1..]))
  }

  /** One `cd` per name, stopping at the first that fails. */
  function MultiCd(s: Shell, names: seq<Name>): Shell
    requires MultiCdReady(s, names)
    decreases names
  {
    if names == [] then s
    else if |names| > 1 && Cd(s, names[0]).1 then MultiCd(Cd(s, names[0]).0, names[1..])
    else Cd(s, names[0]).0
  }

  function MultiCdNames(s: Shell, path: seq<Name>, names: seq<seq<byte>>): (r: seq<seq<byte>>)
    requires MultiCdReady(s, path) && |names| == |s.stack|
    ensures |r| == |MultiCd(s, path).stack|
    decreases path
  {
    if path == [] then names
    else if |path| > 1 && Cd(s, path[0]).1 then MultiCdNames(Cd(s, path[0]).0, path[1..], CdNames(s, path[0], names))
    else CdNames(s, path[0], names)
  }

  /** What the directories on the stack below the root are called: slot 0 of each. */
  function PathNames(img: Image, stack: seq<byte>): seq<Name> {
    if |stack| <= 1 then [] else [TableOf(img, stack[1])[0].name] + PathNames(img, stack[1..])
  }
}
