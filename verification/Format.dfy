/** The on-disk format: little-endian integers, 32-byte directory entries, one-cluster
    directory tables and the one-cluster file allocation table.

    Every codec comes with both round trips, so a table that is read and written back
    unchanged leaves its cluster byte for byte as it was. */
module Format {
  type byte = x: int | 0 <= x < 0x100
  type u16 = x: int | 0 <= x < 0x1_0000
  type u32 = x: int | 0 <= x < 0x1_0000_0000

  const CLUSTER_0_VALUE: u32 := 0x0FFF_FFF0
  const CLUSTER_1_VALUE: u32 := 0x0FFF_FFFF
  const END_OF_FILE: u32 := 0x0FFF_FFFF

  const FAT_CLUSTER := 1
  const ROOT := 2

  const UATTR_NOT_EMPTY: byte := 0xAA

  type Block = s: seq<byte> | |s| == 512 witness seq(512, (_: nat) => 0 as byte)
  type Cluster = s: seq<byte> | |s| == 2048 witness seq(2048, (_: nat) => 0 as byte)
  type Name = s: seq<byte> | |s| == 8 witness [0, 0, 0, 0, 0, 0, 0, 0]
  type Ext = s: seq<byte> | |s| == 3 witness [0, 0, 0]

  /** The storage as the driver addresses it: one element per cluster. */
  type Image = s: seq<Cluster> | |s| == 2048
    witness seq(2048, (_: nat) => seq(2048, (_: nat) => 0 as byte))

  type Fat = s: seq<u32> | |s| == 512 witness seq(512, (_: nat) => 0 as u32)

  const NO_NAME: Name := [0, 0, 0, 0, 0, 0, 0, 0]
  const NO_EXT: Ext := [0, 0, 0]
  const ROOT_NAME: Name := ['R' as int, 'O' as int, 'O' as int, 'T' as int, 0, 0, 0, 0]

  /** `misc` holds the ten bytes from `undelete` to `access_date`, which the driver never sets. */
  type Misc = s: seq<byte> | |s| == 10 witness [0, 0, 0, 0, 0, 0, 0, 0, 0, 0]

  datatype Entry = Entry(
    name: Name,
    ext: Ext,
    attribute: byte,
    user: byte,
    misc: Misc,
    high: u16,
    low: u16,
    size: u32,
    last: byte)

  type Table = s: seq<Entry> | |s| == 64 witness seq(64, (_: nat) => ZERO_ENTRY)

  const NO_MISC: Misc := [0, 0, 0, 0, 0, 0, 0, 0, 0, 0]
  const ZERO_ENTRY := Entry(NO_NAME, NO_EXT, 0, 0, NO_MISC, 0, 0, 0, 0)

  // ---- Integers -------------------------------------------------------------

  /** The number that little-endian bytes stand for. */
  function Value(s: seq<byte>): nat {
    if s == [] then 0 else s[0] + 256 * Value(s[1..])
  }

  /** The lowest `k` bytes of a number, lowest first. */
  function Bytes(n: nat, k: nat): (s: seq<byte>)
    ensures |s| == k
    decreases n, k
  {
    if k == 0 then [] else [n % 256] + Bytes(n / 256, k - 1)
  }

  function Bound(k: nat): nat {
    if k == 0 then 1 else 256 * Bound(k - 1)
  }

  lemma {:induction false} ValueIsBounded(s: seq<byte>)
    ensures Value(s) < Bound(|s|)
  {
    if s != [] {
      ValueIsBounded(s[1..]);
    }
  }

  lemma {:induction false} ValueOfBytes(n: nat, k: nat)
    requires n < Bound(k)
    ensures Value(Bytes(n, k)) == n
    decreases k
  {
    if k > 0 {
      ValueOfBytes(n / 256, k - 1);
      assert Bytes(n, k)[1..] == Bytes(n / 256, k - 1);
    }
  }

  lemma SplitByte(a: byte, b: nat)
    ensures (a + 256 * b) % 256 == a && (a + 256 * b) / 256 == b
  {
  }

  lemma {:induction false} BytesOfValue(s: seq<byte>)
    ensures Bytes(Value(s), |s|) == s
  {
    if s != [] {
      BytesOfValue(s[1..]);
      SplitByte(s[0], Value(s[1..]));
      assert s == [s[0]] + s[1..];
    }
  }

  lemma OneByte(n: byte)
    ensures Bytes(n, 1) == [n]
  {
    assert Bytes(n / 256, 0) == [];
  }

  lemma TwoBytes(n: u16)
    ensures Bytes(n, 2) == [n % 256, n / 256]
  {
    OneByte(n / 256);
    assert Bytes(n, 2) == [n % 256] + Bytes(n / 256, 1);
  }

  lemma FourBytes(n: u32)
    ensures Bytes(n, 4) == [n % 256, n / 256 % 256, n / 65536 % 256, n / 16777216]
  {
    assert n / 256 / 256 == n / 65536 && n / 65536 / 256 == n / 16777216 && n / 16777216 < 256;
    OneByte(n / 16777216);
    assert Bytes(n, 4) == [n % 256] + Bytes(n / 256, 3);
    assert Bytes(n / 256, 3) == [n / 256 % 256] + Bytes(n / 65536, 2);
    assert Bytes(n / 65536, 2) == [n / 65536 % 256] + Bytes(n / 16777216, 1);
  }

  function Word(s: seq<byte>): u16
    requires |s| == 2
  {
    ValueIsBounded(s);
    Value(s)
  }

  function Long(s: seq<byte>): u32
    requires |s| == 4
  {
    ValueIsBounded(s);
    Value(s)
  }

  // ---- Directory entries and tables -----------------------------------------

  function EncodeEntry(e: Entry): (s: seq<byte>)
    ensures |s| == 32
  {
    EncodeLabel(e) + EncodeExtent(e)
  }

  /** Bytes 0 to 22: everything up to the dates. */
  function EncodeLabel(e: Entry): (s: seq<byte>)
    ensures |s| == 23
  {
    e.name + e.ext + [e.attribute, e.user] + e.misc
  }

  /** Bytes 23 to 31: where the content starts and how long it is. */
  function EncodeExtent(e: Entry): (s: seq<byte>)
    ensures |s| == 9
  {
    Bytes(e.high, 2) + Bytes(e.low, 2) + Bytes(e.size, 4) + [e.last]
  }

  function DecodeEntry(s: seq<byte>): Entry
    requires |s| == 32
  {
    Entry(s[0..8], s[8..11], s[11], s[12], s[13..23], Word(s[23..25]), Word(s[25..27]), Long(s[27..31]), s[31])
  }

  lemma EntryRoundTrip(e: Entry)
    ensures DecodeEntry(EncodeEntry(e)) == e
  {
    var s := EncodeEntry(e);
    assert s[..23] == EncodeLabel(e) && s[23..] == EncodeExtent(e);
    LabelRoundTrip(e, s);
    ExtentRoundTrip(e, s);
  }

  lemma LabelRoundTrip(e: Entry, s: seq<byte>)
    requires |s| == 32 && s[..23] == EncodeLabel(e)
    ensures s[0..8] == e.name && s[8..11] == e.ext && s[13..23] == e.misc
    ensures s[11] == e.attribute && s[12] == e.user
  {
    var l := EncodeLabel(e);
    assert l[0..8] == e.name && l[8..11] == e.ext && l[13..23] == e.misc;
    assert s[0..8] == s[..23][0..8] && s[8..11] == s[..23][8..11] && s[13..23] == s[..23][13..23];
    assert s[11] == s[..23][11] && s[12] == s[..23][12];
  }

  lemma ExtentRoundTrip(e: Entry, s: seq<byte>)
    requires |s| == 32 && s[23..] == EncodeExtent(e)
    ensures Value(s[23..25]) == e.high && Value(s[25..27]) == e.low && Value(s[27..31]) == e.size && s[31] == e.last
  {
    var x := s[23..];
    assert s[23..25] == x[0..2] == Bytes(e.high, 2);
    assert s[25..27] == x[2..4] == Bytes(e.low, 2);
    assert s[27..31] == x[4..8] == Bytes(e.size, 4);
    assert s[31] == x[8] == e.last;
    ValueOfBytes(e.high, 2);
    ValueOfBytes(e.low, 2);
    ValueOfBytes(e.size, 4);
  }

  lemma EntryBytesRoundTrip(s: seq<byte>)
    requires |s| == 32
    ensures EncodeEntry(DecodeEntry(s)) == s
  {
    var e := DecodeEntry(s);
    assert EncodeLabel(e) == s[..23];
    BytesOfValue(s[23..25]);
    BytesOfValue(s[25..27]);
    BytesOfValue(s[27..31]);
    assert EncodeExtent(e) == s[23..25] + s[25..27] + s[27..31] + [s[31]] == s[23..];
    assert s == s[..23] + s[23..];
  }

  function EncodeEntries(t: seq<Entry>): (b: seq<byte>)
    ensures |b| == 32 * |t|
  {
    if t == [] then [] else EncodeEntry(t[0]) + EncodeEntries(t[1..])
  }

  function DecodeEntries(b: seq<byte>): (t: seq<Entry>)
    requires |b| % 32 == 0
    ensures |b| == 32 * |t|
  {
    if b == [] then [] else [DecodeEntry(b[..32])] + DecodeEntries(b[32..])
  }

  function EncodeTable(t: Table): Cluster {
    EncodeEntries(t)
  }

  function DecodeTable(c: Cluster): Table {
    DecodeEntries(c)
  }

  lemma {:induction false} EntriesRoundTrip(t: seq<Entry>)
    ensures DecodeEntries(EncodeEntries(t)) == t
  {
    if t != [] {
      var b := EncodeEntries(t);
      assert b[..32] == EncodeEntry(t[0]) && b[32..] == EncodeEntries(t[1..]);
      EntryRoundTrip(t[0]);
      EntriesRoundTrip(t[1..]);
    }
  }

  lemma {:induction false} EntriesBytesRoundTrip(b: seq<byte>)
    requires |b| % 32 == 0
    ensures EncodeEntries(DecodeEntries(b)) == b
  {
    if b != [] {
      var t := DecodeEntries(b);
      assert t[1..] == DecodeEntries(b[32..]);
      EntryBytesRoundTrip(b[..32]);
      EntriesBytesRoundTrip(b[32..]);
    }
  }

  lemma SliceOfRest(b: seq<byte>, k: nat, lo: nat, hi: nat)
    requires k <= lo <= hi <= |b|
    ensures b[k..][lo - k..hi - k] == b[lo..hi]
  {
  }

  /** Where an entry of a table lies in its cluster. */
  lemma {:induction false} EntriesAt(t: seq<Entry>, i: nat)
    requires i < |t|
    ensures EncodeEntries(t)[32 * i..32 * i + 32] == EncodeEntry(t[i])
  {
    if i > 0 {
      EntriesAt(t[1..], i - 1);
      SliceOfRest(EncodeEntries(t), 32, 32 * i, 32 * i + 32);
    }
  }

  /** The byte that says whether a slot is taken. */
  lemma {:induction false} UserByte(b: seq<byte>, i: nat)
    requires |b| % 32 == 0 && i < |DecodeEntries(b)|
    ensures 32 * i + 12 < |b| && DecodeEntries(b)[i].user == b[32 * i + 12]
  {
    if i > 0 {
      assert DecodeEntries(b)[1..] == DecodeEntries(b[32..]);
      UserByte(b[32..], i - 1);
    }
  }

  // ---- The file allocation table --------------------------------------------

  function EncodeCells(f: seq<u32>): (b: seq<byte>)
    ensures |b| == 4 * |f|
  {
    if f == [] then [] else Bytes(f[0], 4) + EncodeCells(f[1..])
  }

  function DecodeCells(b: seq<byte>): (f: seq<u32>)
    requires |b| % 4 == 0
    ensures |b| == 4 * |f|
  {
    if b == [] then [] else [Long(b[..4])] + DecodeCells(b[4..])
  }

  function EncodeFat(f: Fat): Cluster {
    EncodeCells(f)
  }

  function DecodeFat(c: Cluster): Fat {
    DecodeCells(c)
  }

  lemma {:induction false} CellsRoundTrip(f: seq<u32>)
    ensures DecodeCells(EncodeCells(f)) == f
  {
    if f != [] {
      var b := EncodeCells(f);
      assert b[..4] == Bytes(f[0], 4) && b[4..] == EncodeCells(f[1..]);
      ValueOfBytes(f[0], 4);
      CellsRoundTrip(f[1..]);
    }
  }

  lemma {:induction false} CellsBytesRoundTrip(b: seq<byte>)
    requires |b| % 4 == 0
    ensures EncodeCells(DecodeCells(b)) == b
  {
    if b != [] {
      var f := DecodeCells(b);
      assert f[1..] == DecodeCells(b[4..]);
      BytesOfValue(b[..4]);
      CellsBytesRoundTrip(b[4..]);
    }
  }

  lemma {:induction false} CellsAt(b: seq<byte>, i: nat)
    requires |b| % 4 == 0 && i < |DecodeCells(b)|
    ensures 4 * i + 4 <= |b| && DecodeCells(b)[i] == Long(b[4 * i..4 * i + 4])
  {
    if i > 0 {
      var rest := b[4..];
      assert DecodeCells(b)[1..] == DecodeCells(rest);
      CellsAt(rest, i - 1);
      SliceOfRest(b, 4, 4 * i, 4 * i + 4);
    }
  }

  lemma {:induction false} ZeroBytes(k: nat)
    ensures forall i :: 0 <= i < k ==> Bytes(0, k)[i] == 0
    decreases k
  {
    if k > 0 {
      ZeroBytes(k - 1);
    }
  }

  lemma {:induction false} ValueOfZeros(s: seq<byte>)
    requires forall i :: 0 <= i < |s| ==> s[i] == 0
    ensures Value(s) == 0
  {
    if s != [] {
      ValueOfZeros(s[1..]);
    }
  }

  lemma ZeroEntryBytes()
    ensures forall i :: 0 <= i < 32 ==> EncodeEntry(ZERO_ENTRY)[i] == 0
  {
    ZeroBytes(2);
    ZeroBytes(4);
    assert forall i :: 0 <= i < 9 ==> EncodeExtent(ZERO_ENTRY)[i] == 0;
    assert forall i :: 0 <= i < 23 ==> EncodeLabel(ZERO_ENTRY)[i] == 0;
  }

  lemma SliceOfSlice(b: seq<byte>, lo: nat, n: nat, i: nat, k: nat)
    requires lo + n <= |b| && i + k <= n
    ensures b[lo..lo + n][i..i + k] == b[lo + i..lo + i + k]
  {
    var x, y := b[lo..lo + n][i..i + k], b[lo + i..lo + i + k];
    assert |x| == |y| == k;
    forall m | 0 <= m < k
      ensures x[m] == y[m]
    {
      assert x[m] == b[lo..lo + n][i + m] == b[lo + (i + m)] && y[m] == b[lo + i + m];
    }
  }

  /** An entry covers eight cells of a map. */
  lemma CellOfEntry(t: Table, s: nat, j: nat)
    requires s < 64 && j < 8
    ensures DecodeFat(EncodeTable(t))[8 * s + j] == Long(EncodeEntry(t[s])[4 * j..4 * j + 4])
  {
    var b, c := EncodeEntries(t), 8 * s + j;
    EntriesAt(t, s);
    SliceOfSlice(b, 32 * s, 32, 4 * j, 4);
    CellsAt(b, c);
    var cell := b[4 * c..4 * c + 4];
    assert 32 * s + 4 * j == 4 * c;
    assert EncodeEntry(t[s])[4 * j..4 * j + 4] == cell && DecodeFat(EncodeTable(t))[c] == Long(cell);
  }
}
