/** The page-frame allocator: a page directory of 4 MiB entries and a pointer that only grows. */
module Paging {

  const FRAME: nat := 0x40_0000
  const ENTRIES: nat := 1024
  const KERNEL: nat := 0x300

  /** The eight flag bits of a directory entry, lowest first. */
  datatype Flags = Flags(present: bool, write: bool, user: bool, writeThrough: bool, noCache: bool,
                         accessed: bool, dirty: bool, big: bool)

  /** An entry: its flags, the fields no code here sets, and bits 31..22 of the frame's address. */
  datatype Pde = Pde(flags: Flags, rest: nat, frame: nat)

  const UNUSED := Pde(Flags(false, false, false, false, false, false, false, false), 0, 0)
  const KERNEL_FLAGS := Flags(true, true, false, false, false, false, false, true)
  const USER_FLAGS := Flags(true, true, true, false, false, false, false, true)

  datatype Pages = Pages(table: seq<Pde>, next: nat)

  /** The directory index of an address: its top ten bits. */
  function Slot(address: nat): (r: nat)
    ensures r < ENTRIES
  {
    address / FRAME % ENTRIES
  }

  // ---- The specification ------------------------------------------------------------------

  function Mapped(table: seq<Pde>, physical: nat, address: nat, flags: Flags): (r: seq<Pde>)
    requires |table| == ENTRIES
    ensures |r| == ENTRIES
  {
    table[Slot(address) := table[Slot(address)].(flags := flags, frame := Slot(physical))]
  }

  /** 0 and a new mapping while the pointer is below 128 MiB, -1 and no change afterwards. */
  function Allocate(p: Pages, address: nat): (r: (Pages, int))
    requires |p.table| == ENTRIES
    ensures |r.0.table| == ENTRIES
  {
    if p.next >= 32 * FRAME then (p, -1)
    else (Pages(Mapped(p.table, p.next, address, USER_FLAGS), p.next + FRAME), 0)
  }

  /** After the loader has cleared the identity mapping: only the kernel is mapped. */
  function Loaded(): (r: Pages)
    ensures |r.table| == ENTRIES
    ensures forall i :: 0 <= i < ENTRIES ==>
      r.table[i] == if i == KERNEL then Pde(KERNEL_FLAGS, 0, 0) else UNUSED
  {
    Pages(seq(ENTRIES, (i: nat) => if i == KERNEL then Pde(KERNEL_FLAGS, 0, 0) else UNUSED), FRAME)
  }

  class PageDriver {
    const table: array<Pde>
    var lastAvailable: nat

    ghost predicate Valid()
      reads this
    {
      table.Length == ENTRIES
    }

    ghost function State(): Pages
      reads this, table
      requires Valid()
    {
      Pages(table[..], lastAvailable)
    }

    /** The static directory maps frame 0 twice; the loader then clears entry 0. */
    constructor ()
      ensures Valid() && fresh(table) && State() == Loaded()
    {
      table := new Pde[ENTRIES](i => if i == 0 || i == KERNEL then Pde(KERNEL_FLAGS, 0, 0) else UNUSED);
      lastAvailable := FRAME;
      new;
      table[0] := UNUSED;
    }

    method UpdatePageDirectoryEntry(physical: nat, address: nat, flags: Flags)
      requires Valid()
      modifies table
      ensures Valid() && table[..] == Mapped(old(table[..]), physical, address, flags)
    {
      var i := Slot(address);
      table[i] := table[i].(flags := flags);
      table[i] := table[i].(frame := Slot(physical));
    }

    method AllocateSingleUserPageFrame(address: nat) returns (code: int)
      requires Valid()
      modifies `lastAvailable, table
      ensures Valid() && (State(), code) == Allocate(old(State()), address)
    {
      var last := lastAvailable;
      if last >= 32 * FRAME {
        return -1;
      }
      UpdatePageDirectoryEntry(last, address, USER_FLAGS);
      lastAvailable := lastAvailable + FRAME;
      return 0;
    }
  }

  // ---- Whole runs -----------------------------------------------------------------------------

  /** The state and the return codes after allocating for each address in turn. */
  function Run(p: Pages, addresses: seq<nat>): (r: (Pages, seq<int>))
    requires |p.table| == ENTRIES
    ensures |r.0.table| == ENTRIES && |r.1| == |addresses|
  {
    if addresses == [] then (p, [])
    else
      var (q, codes) := Run(p, addresses[..|addresses| - 1]);
      var (q', code) := Allocate(q, addresses[|addresses| - 1]);
      (q', codes + [code])
  }

  /** How many of the calls succeed: memory holds 31 frames above the kernel's. */
  function Granted(addresses: seq<nat>): nat {
    if |addresses| < 31 then |addresses| else 31
  }

  /** The number, from 1, of the last address that falls into the slot, or 0. */
  function LastFor(addresses: seq<nat>, slot: nat): (r: nat)
    ensures r <= |addresses| && (r > 0 ==> Slot(addresses[r - 1]) == slot)
    ensures forall j :: r <= j < |addresses| ==> Slot(addresses[j]) != slot
  {
    if addresses == [] then 0
    else if Slot(addresses[|addresses| - 1]) == slot then |addresses|
    else LastFor(addresses[..|addresses| - 1], slot)
  }

  lemma FrameNumber(n: nat)
    requires n < ENTRIES
    ensures Slot(FRAME * n) == n
  {
  }

  /** The whole effect of a run: the first 31 calls succeed, and every slot holds the frame whose
      number is that of the last granted call for it. */
  lemma {:induction false} RunIs(addresses: seq<nat>)
    ensures var (p, codes), n := Run(Loaded(), addresses), Granted(addresses);
            && p.next == FRAME * (1 + n)
            && (forall i :: 0 <= i < |addresses| ==> codes[i] == if i < 31 then 0 else -1)
            && (forall s :: 0 <= s < ENTRIES ==>
                  p.table[s] == var k := LastFor(addresses[..n], s);
                                if k == 0 then Loaded().table[s] else Pde(USER_FLAGS, 0, k))
  {
    if addresses != [] {
      var before := addresses[..|addresses| - 1];
      var n := Granted(before);
      RunIs(before);
      FrameNumber(1 + n);
      assert addresses[..n] == before[..n];
      if n < 31 {
        assert before[..n] == before && addresses[..n + 1] == addresses;
      }
    }
  }

  /** User entries lie in distinct frames between the kernel's and the pointer; other entries are
      as they were loaded. */
  lemma UserFramesAreDistinct(addresses: seq<nat>)
    ensures var p := Run(Loaded(), addresses).0;
            && (forall s :: 0 <= s < ENTRIES && p.table[s].flags.user ==>
                  p.table[s].flags == USER_FLAGS && 1 <= p.table[s].frame <= 31 && FRAME * p.table[s].frame < p.next)
            && (forall s :: 0 <= s < ENTRIES && !p.table[s].flags.user ==> p.table[s] == Loaded().table[s])
            && (forall s, s' :: 0 <= s < s' < ENTRIES && p.table[s].flags.user && p.table[s'].flags.user ==>
                  p.table[s].frame != p.table[s'].frame)
  {
    RunIs(addresses);
  }

  /** A slot is a user's if and only if one of the first 31 addresses falls into it. */
  lemma UserSlotIff(addresses: seq<nat>, s: nat)
    requires s < ENTRIES
    ensures Run(Loaded(), addresses).0.table[s].flags.user
            <==> exists i :: 0 <= i < Granted(addresses) && Slot(addresses[i]) == s
  {
    RunIs(addresses);
  }

  /** The kernel keeps its entry if and only if none of the first 31 addresses lies in its slot. */
  lemma KernelStaysIff(addresses: seq<nat>)
    ensures Run(Loaded(), addresses).0.table[KERNEL] == Loaded().table[KERNEL]
            <==> forall i :: 0 <= i < Granted(addresses) ==> Slot(addresses[i]) != KERNEL
  {
    UserSlotIff(addresses, KERNEL);
  }

  /** At most 31 calls ever succeed; from then on a call fails and changes nothing. */
  lemma FailuresChangeNothing(addresses: seq<nat>, address: nat)
    ensures var (p, codes) := Run(Loaded(), addresses);
            if |addresses| < 31 then Allocate(p, address).1 == 0 else Allocate(p, address) == (p, -1)
  {
    RunIs(addresses);
  }

  // ---- The bits -------------------------------------------------------------------------------

  /** Present, writable and 4 MiB large, for the user or for the kernel alone; the other four bits clear. */
  predicate MappedFor(f: Flags, user: bool) {
    && f.present && f.write && f.big && (f.user <==> user)
    && !f.writeThrough && !f.noCache && !f.accessed && !f.dirty
  }

  predicate NoBits(f: Flags) {
    && !f.present && !f.write && !f.user && !f.writeThrough
    && !f.noCache && !f.accessed && !f.dirty && !f.big
  }

  /** The slot of an address is the top ten of its 32 bits: `k` counts the calls up to the last that finds
      memory, among the first 31, for an address of this slot, and is 0 if there is none. */
  ghost predicate LastHit(addresses: seq<nat>, slot: nat, k: nat) {
    && k <= |addresses| && k <= 31 && (k > 0 ==> addresses[k - 1] / 0x40_0000 % 1024 == slot)
    && forall j :: k <= j < |addresses| && j < 31 ==> addresses[j] / 0x40_0000 % 1024 != slot
  }

  lemma LastHitIs(addresses: seq<nat>, slot: nat)
    ensures LastHit(addresses, slot, LastFor(addresses[..Granted(addresses)], slot))
  {
    var granted := addresses[..Granted(addresses)];
    forall j | LastFor(granted, slot) <= j < |addresses| && j < 31
      ensures addresses[j] / 0x40_0000 % 1024 != slot
    {
      assert Slot(granted[j]) != slot;
    }
  }

  /** After any run, a slot bit by bit: the user's page of the last call for it, in the frame of that call's
      number; or without one the kernel's at 0x300, and nothing anywhere else. */
  lemma EntriesAre(addresses: seq<nat>, slot: nat) returns (k: nat)
    requires slot < 1024
    ensures LastHit(addresses, slot, k)
    ensures var e := Run(Loaded(), addresses).0.table[slot];
            && e.rest == 0 && e.frame == k
            && if k > 0 then MappedFor(e.flags, true)
               else if slot == 0x300 then MappedFor(e.flags, false) else NoBits(e.flags)
    ensures Run(Loaded(), addresses).0.next == 0x40_0000 * (1 + if |addresses| < 31 then |addresses| else 31)
  {
    RunIs(addresses);
    LastHitIs(addresses, slot);
    k := LastFor(addresses[..Granted(addresses)], slot);
  }

  /** One update of any table: the addressed entry gets the flags and the top ten bits of the frame's
      address, and keeps the rest; every other entry stays. */
  lemma MappedIs(table: seq<Pde>, physical: nat, address: nat, flags: Flags, slot: nat)
    requires |table| == 1024 && slot < 1024
    ensures var e := Mapped(table, physical, address, flags)[slot];
            if address / 0x40_0000 % 1024 == slot
            then e.flags == flags && e.frame == physical / 0x40_0000 % 1024 && e.rest == table[slot].rest
            else e == table[slot]
  {
  }
}
