/** What the driver's operations answer and do, told over the cells of the map, the slots of the tables
    and the bytes of the clusters, on every disk they can work on. */
module Effects {
  import opened Format
  import opened Volume
  import opened Edits
  import opened Allocation
  import opened Storage
  import opened DriverSpec
  import opened Crash
  import opened WriteProofs
  import opened DeleteProofs

  // ---- The bytes ----------------------------------------------------------------------------

  /** Where each field of an entry lies, numbers lowest byte first. */
  lemma EntryLayout(e: Entry)
    ensures var s := EncodeEntry(e);
            && s[0..8] == e.name && s[8..11] == e.ext && s[11] == e.attribute && s[12] == e.user && s[13..23] == e.misc
            && s[23] == e.high % 256 && s[24] == e.high / 256 && s[25] == e.low % 256 && s[26] == e.low / 256
            && s[27] == e.size % 256 && s[28] == e.size / 256 % 256 && s[29] == e.size / 65536 % 256
            && s[30] == e.size / 16777216 && s[31] == e.last
  {
    var s, l, x := EncodeEntry(e), EncodeLabel(e), EncodeExtent(e);
    assert l[0..8] == e.name && l[8..11] == e.ext && l[13..23] == e.misc;
    assert s[..23] == l && s[23..] == x;
    assert s[0..8] == s[..23][0..8] && s[8..11] == s[..23][8..11] && s[13..23] == s[..23][13..23];
    assert s[11] == l[11] && s[12] == l[12];
    ExtentLayout(e);
    assert forall i :: 0 <= i < 9 ==> s[23 + i] == x[i];
  }

  lemma ExtentLayout(e: Entry)
    ensures var x := EncodeExtent(e);
            && x[0] == e.high % 256 && x[1] == e.high / 256 && x[2] == e.low % 256 && x[3] == e.low / 256
            && x[4] == e.size % 256 && x[5] == e.size / 256 % 256 && x[6] == e.size / 65536 % 256
            && x[7] == e.size / 16777216 && x[8] == e.last
  {
    TwoBytes(e.high);
    TwoBytes(e.low);
    FourBytes(e.size);
  }

  /** A table is 64 such entries in a row. */
  lemma TableLayout(t: Table, i: nat)
    requires i < 64
    ensures EncodeTable(t)[32 * i..32 * i + 32] == EncodeEntry(t[i])
  {
    EntriesAt(t, i);
  }

  /** A map is 512 numbers in a row. */
  lemma {:induction false} CellLayout(f: seq<u32>, i: nat)
    requires i < |f|
    ensures var b := EncodeCells(f);
            && b[4 * i] == f[i] % 256 && b[4 * i + 1] == f[i] / 256 % 256
            && b[4 * i + 2] == f[i] / 65536 % 256 && b[4 * i + 3] == f[i] / 16777216
  {
    FourBytes(f[0]);
    if i > 0 {
      CellLayout(f[1..], i - 1);
    }
  }

  /** The cluster an entry names is one number of four bytes, the upper two stored first. */
  lemma HeadIs(e: Entry)
    ensures var s := EncodeEntry(e);
            HeadOf(e) == s[25] as nat + 256 * s[26] as nat + 65536 * s[23] as nat + 16777216 * s[24] as nat
  {
    EntryLayout(e);
  }

  // ---- Formatting ---------------------------------------------------------------------------

  /** A formatted disk, byte by byte where it is not a copy. */
  lemma FormattedBytes(img: Image, cache: Fat)
    ensures var d := Formatted(img, cache);
            && d[0] == Signature() + img[0][512..]
            && d[1][0..12] == [0xF0, 0xFF, 0xFF, 0x0F, 0xFF, 0xFF, 0xFF, 0x0F, 0xFF, 0xFF, 0xFF, 0x0F]
            && (forall c :: 3 <= c < 512 ==> DecodeFat(d[1])[c] == cache[c])
            && d[2][0..32] == ROOT_BYTES
            && (forall i :: 1 <= i < 64 ==> DecodeTable(d[2])[i] == ZERO_ENTRY)
            && (forall c :: 3 <= c < 2048 ==> d[c] == img[c])
  {
    FormattedClusters(img, cache);
    MapBytes(cache);
    RootTableBytes();
  }

  const ROOT_BYTES: seq<byte> :=
    [82, 79, 79, 84, 0, 0, 0, 0] + [0, 0, 0] + [0, 0xAA] + [0, 0, 0, 0, 0, 0, 0, 0, 0, 0]
      + [0, 0] + [2, 0] + [0, 0, 0, 0] + [0]

  lemma FormattedClusters(img: Image, cache: Fat)
    ensures var d := Formatted(img, cache);
            && d[0] == Signature() + img[0][512..] && d[1] == EncodeFat(Header(cache))
            && d[2] == EncodeTable(NewTable(RootEntry()))
            && forall c :: 3 <= c < 2048 ==> d[c] == img[c]
  {
  }

  lemma MapBytes(cache: Fat)
    ensures var b := EncodeFat(Header(cache));
            && b[0..12] == [0xF0, 0xFF, 0xFF, 0x0F, 0xFF, 0xFF, 0xFF, 0x0F, 0xFF, 0xFF, 0xFF, 0x0F]
            && forall c :: 3 <= c < 512 ==> DecodeFat(b)[c] == cache[c]
  {
    HeaderBytes(Header(cache));
    CellsRoundTrip(Header(cache));
  }

  lemma RootTableBytes()
    ensures var b := EncodeTable(NewTable(RootEntry()));
            b[0..32] == ROOT_BYTES && forall i :: 1 <= i < 64 ==> DecodeTable(b)[i] == ZERO_ENTRY
  {
    TableLayout(NewTable(RootEntry()), 0);
    RootBytes();
    EntriesRoundTrip(NewTable(RootEntry()));
  }

  lemma HeaderBytes(f: Fat)
    requires f[0] == 0x0FFFFFF0 && f[1] == 0x0FFFFFFF && f[2] == 0x0FFFFFFF
    ensures EncodeFat(f)[0..12] == [0xF0, 0xFF, 0xFF, 0x0F, 0xFF, 0xFF, 0xFF, 0x0F, 0xFF, 0xFF, 0xFF, 0x0F]
  {
    CellLayout(f, 0);
    CellLayout(f, 1);
    CellLayout(f, 2);
  }

  lemma RootBytes()
    ensures EncodeEntry(RootEntry()) == ROOT_BYTES
  {
    TwoBytes(0);
    TwoBytes(2);
    FourBytes(0);
  }

  /** Mounting changes nothing if all 512 bytes of the first block are the signature's, and formats the
      disk otherwise. */
  lemma MountAnswer(img: Image, cache: Fat)
    ensures if forall i :: 0 <= i < 512 ==> img[0][i] == Signature()[i] then Initialized(img, cache) == img
            else Initialized(img, cache) == Formatted(img, cache)
  {
    if forall i :: 0 <= i < 512 ==> img[0][i] == Signature()[i] {
      assert img[0][..512] == Signature();
    } else {
      var i :| 0 <= i < 512 && img[0][i] != Signature()[i];
      assert img[0][..512][i] != Signature()[i];
    }
  }

  // ---- The signature ------------------------------------------------------------------------

  /** Four bytes in a row. */
  predicate Four(s: seq<byte>, i: nat, a: byte, b: byte, c: byte, d: byte)
    requires i + 4 <= |s|
  {
    s[i] == a && s[i + 1] == b && s[i + 2] == c && s[i + 3] == d
  }

  lemma FirstHalfRow()
    ensures var s := Signature(); Four(s, 0, 67, 111, 117, 114) && Four(s, 4, 115, 101, 32, 32)
  {
  }

  lemma FirstRow()
    ensures var s := Signature();
            && Four(s, 0, 67, 111, 117, 114) && Four(s, 4, 115, 101, 32, 32)
            && Four(s, 8, 32, 32, 32, 32) && Four(s, 12, 32, 32, 32, 32)
  {
    FirstHalfRow();
  }

  lemma SecondRow()
    ensures var s := Signature();
            && Four(s, 16, 68, 101, 115, 105) && Four(s, 20, 103, 110, 101, 100)
            && Four(s, 24, 32, 98, 121, 32) && Four(s, 28, 32, 32, 32, 32)
  {
  }

  lemma ThirdRow()
    ensures var s := Signature();
            && Four(s, 32, 76, 97, 98, 32) && Four(s, 36, 83, 105, 115, 116)
            && Four(s, 40, 101, 114, 32, 73) && Four(s, 44, 84, 66, 32, 32)
  {
  }

  lemma FourthRow()
    ensures var s := Signature();
            && Four(s, 48, 77, 97, 100, 101) && Four(s, 52, 32, 119, 105, 116)
            && Four(s, 56, 104, 32, 60, 51) && Four(s, 60, 32, 32, 32, 32)
  {
  }

  lemma FifthRow()
    ensures var s := Signature();
            && Four(s, 64, 45, 45, 45, 45) && Four(s, 68, 45, 45, 45, 45)
            && Four(s, 72, 45, 45, 45, 50) && Four(s, 76, 48, 50, 51, 10)
  {
  }

  lemma FlagRow()
    ensures var s := Signature();
            && Four(s, 312, 70, 65, 67, 84) && Four(s, 316, 123, 99, 104, 49)
            && Four(s, 320, 50, 117, 114, 117) && Four(s, 324, 95, 49, 53, 95)
  {
  }

  lemma FlagRestRow()
    ensures var s := Signature();
            && Four(s, 328, 98, 51, 53, 116) && Four(s, 332, 95, 54, 49, 114)
            && Four(s, 336, 108, 58, 68, 125)
  {
  }

  lemma SignatureRest()
    ensures var s := Signature();
            && s[510] == 79 && s[511] == 107
            && (forall i :: 80 <= i < 312 || 340 <= i < 510 ==> s[i] == 0)
  {
  }

  /** The signature, character code by character code: with the two lemmas for the flag and the one for
      the rest, all of it. */
  lemma SignatureBanner()
    ensures var s := Signature();
            && Four(s, 0, 67, 111, 117, 114) && Four(s, 4, 115, 101, 32, 32)
            && Four(s, 8, 32, 32, 32, 32) && Four(s, 12, 32, 32, 32, 32)
            && Four(s, 16, 68, 101, 115, 105) && Four(s, 20, 103, 110, 101, 100)
            && Four(s, 24, 32, 98, 121, 32) && Four(s, 28, 32, 32, 32, 32)
            && Four(s, 32, 76, 97, 98, 32) && Four(s, 36, 83, 105, 115, 116)
            && Four(s, 40, 101, 114, 32, 73) && Four(s, 44, 84, 66, 32, 32)
            && Four(s, 48, 77, 97, 100, 101) && Four(s, 52, 32, 119, 105, 116)
            && Four(s, 56, 104, 32, 60, 51) && Four(s, 60, 32, 32, 32, 32)
            && Four(s, 64, 45, 45, 45, 45) && Four(s, 68, 45, 45, 45, 45)
            && Four(s, 72, 45, 45, 45, 50) && Four(s, 76, 48, 50, 51, 10)
  {
    FirstRow();
    SecondRow();
    ThirdRow();
    FourthRow();
    FifthRow();
  }

  // ---- Searches -----------------------------------------------------------------------------

  /** `i` is the first slot of this name, or 64. */
  ghost predicate FirstName(t: Table, name: Name, i: nat) {
    i <= 64 && (i < 64 ==> t[i].name == name) && forall j :: 0 <= j < i ==> t[j].name != name
  }

  /** `i` is the first slot of this name and extension, taken or not, or 64. */
  ghost predicate FirstPair(t: Table, name: Name, ext: Ext, i: nat) {
    && i <= 64 && (i < 64 ==> t[i].name == name && t[i].ext == ext)
    && forall j :: 0 <= j < i ==> !(t[j].name == name && t[j].ext == ext)
  }

  /** `i` is the first slot without the mark of a taken one, or 64. */
  ghost predicate FirstFree(t: Table, i: nat) {
    i <= 64 && (i < 64 ==> t[i].user != 0xAA) && forall j :: 0 <= j < i ==> t[j].user == 0xAA
  }

  lemma SearchIs(t: Table, name: Name, ext: Ext)
    ensures FirstName(t, name, First(t, ByName(name), 0))
    ensures FirstPair(t, name, ext, First(t, ByPair(name, ext), 0))
    ensures FirstFree(t, First(t, FreeSlot, 0))
  {
    forall j | 0 <= j < First(t, ByName(name), 0)
      ensures t[j].name != name
    {
      assert !Hits(ByName(name), t[j]);
    }
    forall j | 0 <= j < First(t, ByPair(name, ext), 0)
      ensures !(t[j].name == name && t[j].ext == ext)
    {
      assert !Hits(ByPair(name, ext), t[j]);
    }
    forall j | 0 <= j < First(t, FreeSlot, 0)
      ensures t[j].user == 0xAA
    {
      assert !Hits(FreeSlot, t[j]);
    }
  }

  lemma FirstIsOne(t: Table, name: Name, ext: Ext, i: nat, j: nat)
    ensures FirstName(t, name, i) && FirstName(t, name, j) ==> i == j
    ensures FirstPair(t, name, ext, i) && FirstPair(t, name, ext, j) ==> i == j
    ensures FirstFree(t, i) && FirstFree(t, j) ==> i == j
  {
  }

  // ---- write --------------------------------------------------------------------------------

  /** Some slot, taken or not, carries what the request asks for: the name, for a file with extension. */
  ghost predicate NameTaken(t: Table, r: Request) {
    exists i :: 0 <= i < 64 && t[i].name == r.name && (r.size == 0 || t[i].ext == r.ext)
  }

  lemma AcceptedIff(img: Image, r: Request)
    requires r.parent < 512
    ensures Accepted(img, r) <==> FatOf(img)[r.parent] == 0x0FFFFFFF && !NameTaken(TableOf(img, r.parent), r)
  {
    var t := TableOf(img, r.parent);
    SearchIs(t, r.name, r.ext);
    if NameTaken(t, r) {
      var i :| 0 <= i < 64 && t[i].name == r.name && (r.size == 0 || t[i].ext == r.ext);
      assert Hits(WriteKey(r), t[i]);
    }
  }

  /** What `write` answers: 2 for a parent without the end mark, 1 for a name that is there - for a file
      with the same extension - and 0 otherwise. Errors change nothing. */
  lemma WriteAnswer(img: Image, r: Request, data: seq<byte>)
    requires WriteReady(img, r) && |data| == r.size
    ensures var t, out := TableOf(img, r.parent), WriteOutcome(img, r, data);
            if FatOf(img)[r.parent] != 0x0FFFFFFF then out == Outcome(2, img)
            else if exists i :: 0 <= i < 64 && t[i].name == r.name && (r.size == 0 || t[i].ext == r.ext)
                 then out == Outcome(1, img)
            else out.code == 0
  {
    AcceptedIff(img, r);
  }

  /** What the searches of `write` need, counted on the map and the table. */
  lemma WriteReadyIff(img: Image, r: Request)
    requires r.parent < 512 && FatOf(img)[0] == 0x0FFFFFF0 && FatOf(img)[1] == FatOf(img)[2] == 0x0FFFFFFF
    ensures WriteReady(img, r) <==>
            (FatOf(img)[r.parent] == 0x0FFFFFFF ==>
               && (exists c :: 3 <= c < 512 && FatOf(img)[c] == 0)
               && (!NameTaken(TableOf(img, r.parent), r) ==>
                     && (exists s :: 0 <= s < 64 && TableOf(img, r.parent)[s].user != 0xAA)
                     && (r.size > 0 ==> RoundsStop(FatOf(img), (r.size + 2047) / 2048))))
  {
    var fat, t := FatOf(img), TableOf(img, r.parent);
    AcceptedIff(img, r);
    SearchIs(t, r.name, r.ext);
    FreeCells(fat, 0);
    if |Free(fat)| > 0 {
      assert fat[Free(fat)[0]] == 0;
    }
    if r.size > 0 {
      RoundsStopIff(fat, (r.size + 2047) / 2048);
    }
    if s :| 0 <= s < 64 && t[s].user != 0xAA {
      assert First(t, FreeSlot, 0) <= s;
    }
  }

  /** The lowest free cell of the map. */
  ghost predicate LowestFree(fat: Fat, c: nat) {
    c < 512 && fat[c] == 0 && forall x :: 0 <= x < c ==> fat[x] != 0
  }

  /** A directory write: the lowest free cell gets the end mark, its cluster a table with one entry, and
      the first free slot of the parent the same entry. */
  lemma WriteMakesDirectory(img: Image, r: Request) returns (c: nat, s: nat)
    requires WriteReady(img, r) && r.size == 0 && r.parent != 1 && WriteOutcome(img, r, []).code == 0
    ensures LowestFree(FatOf(img), c) && 3 <= c && s < 64 && FirstFree(TableOf(img, r.parent), s)
    ensures var out := WriteOutcome(img, r, []).img;
            var e := Entry(r.name, [0, 0, 0], 0, 0xAA, [0, 0, 0, 0, 0, 0, 0, 0, 0, 0], 0, c, 0, 0);
            && FatOf(out) == FatOf(img)[c := 0x0FFFFFFF]
            && TableOf(out, c)[0] == e && (forall i :: 1 <= i < 64 ==> TableOf(out, c)[i] == ZERO_ENTRY)
            && TableOf(out, r.parent) == TableOf(img, r.parent)[s := e]
            && forall x :: 0 <= x < 2048 && x != 1 && x != c && x != r.parent ==> out[x] == img[x]
  {
    var e := DirEntry(img, r);
    c, s := e.low, First(TableOf(img, r.parent), FreeSlot, 0);
    ScanStops(FatOf(img), 0, c);
    SearchIs(TableOf(img, r.parent), r.name, r.ext);
    DirectoryClusters(img, r, e, s);
  }

  lemma DirectoryClusters(img: Image, r: Request, e: Entry, s: nat)
    requires WriteReady(img, r) && Accepted(img, r) && r.size == 0 && r.parent != 1 && s < 64
    requires e == DirEntry(img, r) && s == First(TableOf(img, r.parent), FreeSlot, 0) && 3 <= e.low < 512
    requires FatOf(img)[e.low] == 0
    ensures var out := WriteDirectory(img, r);
            && FatOf(out) == FatOf(img)[e.low := END_OF_FILE] && TableOf(out, e.low) == NewTable(e)
            && TableOf(out, r.parent) == TableOf(img, r.parent)[s := e]
            && forall x :: 0 <= x < 2048 && x != 1 && x != e.low && x != r.parent ==> out[x] == img[x]
  {
    var f := WithCell(FatOf(img), e.low, END_OF_FILE);
    PutFatMeta(img, f);
    PutTableMeta(PutFat(img, f), e.low, NewTable(e));
    PutTableMeta(NewDirectory(img, e), r.parent, TableOf(img, r.parent)[s := e]);
  }

  /** The `k` lowest free cells of the map, in order. */
  ghost predicate LowestCells(fat: Fat, ch: seq<nat>) {
    && (forall i :: 0 <= i < |ch| ==> ch[i] < 512 && fat[ch[i]] == 0)
    && (forall i, j :: 0 <= i < j < |ch| ==> ch[i] < ch[j])
    && (forall c, i :: 0 <= c < 512 && fat[c] == 0 && c !in ch && 0 <= i < |ch| ==> ch[i] < c)
  }

  lemma LowestCellsAre(fat: Fat, k: nat)
    requires k <= |Free(fat)|
    ensures LowestCells(fat, Lowest(fat, k))
  {
    FreeCells(fat, 0);
    forall c, i | 0 <= c < 512 && fat[c] == 0 && c !in Lowest(fat, k) && 0 <= i < k
      ensures Lowest(fat, k)[i] < c
    {
      LowestAreLowest(fat, k, Lowest(fat, k)[i], c);
    }
  }

  /** The entry of a new file, field by field, over what the free slot held. */
  ghost predicate IsNewFile(was: Entry, e: Entry, r: Request, head: nat) {
    && e.name == r.name && e.ext == r.ext && e.attribute == 0 && e.user == 0xAA && e.low == head
    && e.size == (was.size + r.size) % 0x1_0000_0000
    && e.misc == was.misc && e.high == was.high && e.last == was.last
  }

  lemma NewFileIs(was: Entry, r: Request, head: u16)
    ensures IsNewFile(was, FileEntry(was, r, head), r, head)
  {
  }

  /** A file write: as few of the lowest free cells as hold the data, each linked to the next and the last
      marked; the data along them, zeros behind it; and the first free slot of the parent with the name,
      the first cell and the size. */
  lemma WriteMakesFile(img: Image, r: Request, data: seq<byte>) returns (ch: seq<nat>, s: nat)
    requires WriteReady(img, r) && r.size == |data| > 0 && r.parent != 1 && WriteOutcome(img, r, data).code == 0
    ensures r.size <= 2048 * |ch| < r.size + 2048 && LowestCells(FatOf(img), ch)
    ensures s < 64 && FirstFree(TableOf(img, r.parent), s)
    ensures var out, t := WriteOutcome(img, r, data).img, TableOf(img, r.parent);
            && (forall i :: 0 <= i < |ch| ==>
                  FatOf(out)[ch[i]] == if i + 1 < |ch| then ch[i + 1] else 0x0FFFFFFF)
            && (forall x :: 0 <= x < 512 && x !in ch ==> FatOf(out)[x] == FatOf(img)[x])
            && TableOf(out, r.parent) == t[s := TableOf(out, r.parent)[s]]
            && IsNewFile(t[s], TableOf(out, r.parent)[s], r, ch[0])
            && HoldData(out, ch, data)
            && forall x :: 0 <= x < 2048 && x != 1 && x != r.parent && x !in ch ==> out[x] == img[x]
  {
    var n := ClusterCount(r.size);
    ch, s := FileChain(img, r), First(TableOf(img, r.parent), FreeSlot, 0);
    ClusterCountIs(r.size);
    LowestAreCells(FatOf(img), n);
    LowestCellsAre(FatOf(img), n);
    SearchIs(TableOf(img, r.parent), r.name, r.ext);
    FileClusters(img, r, data, ch, s);
    LinkedCells(FatOf(img), ch);
    DataClusters(WriteFile(img, r, data), ch, data);
    NewFileIs(TableOf(img, r.parent)[s], r, ch[0]);
  }

  /** The clusters hold the data one after the other, and zeros behind it. */
  ghost predicate HoldData(out: Image, ch: seq<nat>, data: seq<byte>) {
    forall i, j {:trigger out[ch[i]][j]} :: 0 <= i < |ch| && 0 <= j < 2048 ==>
      ch[i] < 512 && out[ch[i]][j] == if 2048 * i + j < |data| then data[2048 * i + j] else 0
  }

  /** Clusters that hold the chunks of the padded data hold the data, and zeros behind it. */
  lemma DataClusters(out: Image, ch: seq<nat>, data: seq<byte>)
    requires Cells(ch) && |ch| == ClusterCount(|data|)
    requires forall i :: 0 <= i < |ch| ==> out[ch[i]] == Chunk(Pad(data), i)
    ensures HoldData(out, ch, data)
  {
    PadIsZeroFilled(data);
    forall i, j | 0 <= i < |ch| && 0 <= j < 2048
      ensures out[ch[i]][j] == if 2048 * i + j < |data| then data[2048 * i + j] else 0
    {
      assert out[ch[i]][j] == Pad(data)[2048 * i + j];
    }
  }

  lemma FileClusters(img: Image, r: Request, data: seq<byte>, ch: seq<nat>, s: nat)
    requires WriteReady(img, r) && Accepted(img, r) && r.size == |data| > 0 && r.parent != 1 && s < 64
    requires ch == FileChain(img, r) && Cells(ch) && s == First(TableOf(img, r.parent), FreeSlot, 0)
    requires forall i :: 0 <= i < |ch| ==> FatOf(img)[ch[i]] == 0
    ensures var out, t := WriteFile(img, r, data), TableOf(img, r.parent);
            && FatOf(out) == Link(FatOf(img), ch, |ch|)
            && TableOf(out, r.parent) == t[s := FileEntry(t[s], r, ch[0])]
            && (forall i :: 0 <= i < |ch| ==> out[ch[i]] == Chunk(Pad(data), i))
            && forall x :: 0 <= x < 2048 && x != 1 && x != r.parent && x !in ch ==> out[x] == img[x]
  {
    var before := BeforePublish(img, r, data);
    forall i | 0 <= i < |ch|
      ensures ch[i] != 1
    {
      assert FatOf(img)[ch[i]] == 0;
    }
    DataWritten(img, ch, Pad(data));
    var t := TableOf(img, r.parent);
    PutTableMeta(before, r.parent, t[s := FileEntry(t[s], r, ch[0])]);
    assert WriteFile(img, r, data)[1] == before[1];
    forall i | 0 <= i < |ch|
      ensures WriteFile(img, r, data)[ch[i]] == Chunk(Pad(data), i)
    {
      assert ch[i] in ch && ch[i] != r.parent;
    }
  }

  lemma DataWritten(img: Image, ch: seq<nat>, bytes: seq<byte>)
    requires Cells(ch) && 1 !in ch && |bytes| == 2048 * |ch|
    ensures var out := PartFile(img, ch, bytes, |ch|, |ch|);
            && FatOf(out) == Link(FatOf(img), ch, |ch|)
            && (forall i :: 0 <= i < |ch| ==> out[ch[i]] == Chunk(bytes, i))
            && forall x :: 0 <= x < 2048 && x != 1 && x !in ch ==> out[x] == img[x]
  {
    PartFileFat(img, ch, bytes, |ch|, |ch|);
    ScatterCells(img, ch, bytes, |ch|);
  }

  /** The links of a new chain, cell by cell. */
  lemma LinkedCells(fat: Fat, ch: seq<nat>)
    requires Cells(ch)
    ensures var f := Link(fat, ch, |ch|);
            && (forall i :: 0 <= i < |ch| ==> f[ch[i]] == if i + 1 < |ch| then ch[i + 1] else 0x0FFFFFFF)
            && forall x :: 0 <= x < 512 && x !in ch ==> f[x] == fat[x]
  {
    LinkCells(fat, ch, |ch|);
    forall i | 0 <= i < |ch|
      ensures Link(fat, ch, |ch|)[ch[i]] == if i + 1 < |ch| then ch[i + 1] else 0x0FFFFFFF
    {
      assert Link(fat, ch, |ch|)[ch[i]] == NextCell(ch, i);
    }
  }

  // ---- read ---------------------------------------------------------------------------------

  /** The clusters met by following `n` links from `c`. */
  ghost predicate Links(fat: Fat, c: nat, ch: seq<nat>) {
    && (|ch| > 0 ==> ch[0] == c)
    && (forall j :: 0 <= j < |ch| ==> ch[j] < 512)
    && (forall j :: 0 < j < |ch| ==> ch[j] == fat[ch[j - 1]])
  }

  lemma {:induction false} LinksAreFollowed(fat: Fat, c: nat, ch: seq<nat>)
    requires Links(fat, c, ch)
    ensures Follow(fat, c, |ch|) == ch
    decreases |ch|
  {
    if |ch| > 0 {
      var rest := ch[1..];
      assert |rest| > 0 ==> rest[0] == fat[c];
      LinksAreFollowed(fat, fat[c], rest);
      assert ch == [c] + rest;
    }
  }

  /** As many clusters as hold the entry's size, from its head on. */
  ghost predicate LinksForSize(fat: Fat, e: Entry, ch: seq<nat>) {
    Links(fat, e.low + 65536 * e.high, ch) && e.size <= 2048 * |ch| < e.size + 2048
  }

  /** `read` stays inside the map exactly when there are links enough for the size of what it finds. */
  lemma ReadReadyIff(img: Image, r: Request, i: nat)
    requires r.parent < 512 && FirstPair(TableOf(img, r.parent), r.name, r.ext, i)
    ensures ReadReady(img, r) <==>
            (i < 64 ==> exists ch :: LinksForSize(FatOf(img), TableOf(img, r.parent)[i], ch))
  {
    var fat, t := FatOf(img), TableOf(img, r.parent);
    SearchIs(t, r.name, r.ext);
    FirstIsOne(t, r.name, r.ext, i, First(t, ByPair(r.name, r.ext), 0));
    if i < 64 {
      var c, n := HeadOf(t[i]), ClusterCount(t[i].size);
      ClusterCountIs(t[i].size);
      if ReadReady(img, r) {
        FollowSteps(fat, c, n);
        assert LinksForSize(fat, t[i], Follow(fat, c, n));
      }
      forall ch | LinksForSize(fat, t[i], ch)
        ensures |Follow(fat, c, n)| == n
      {
        assert |ch| == n;
        LinksAreFollowed(fat, c, ch);
      }
    }
  }

  /** What `read` answers, and with which bytes: nothing and 0 when no slot has the pair; 2 when the first
      that has it is larger than the buffer; 1 when it is marked as no file; and otherwise 0 and the
      clusters met from its head on, as few as hold its size. */
  lemma ReadAnswer(img: Image, r: Request, i: nat) returns (ch: seq<nat>)
    requires ReadReady(img, r) && FirstPair(TableOf(img, r.parent), r.name, r.ext, i)
    ensures var reply := ReadReply(img, r);
            if i == 64 then reply == Reply(0, [])
            else var e := TableOf(img, r.parent)[i];
              if r.size < e.size then reply == Reply(2, [])
              else if e.attribute == 1 then reply == Reply(1, [])
              else && reply.code == 0 && |reply.bytes| == 2048 * |ch| && LinksForSize(FatOf(img), e, ch)
                   && forall j :: 0 <= j < |ch| ==> reply.bytes[2048 * j..2048 * j + 2048] == img[ch[j]]
  {
    var t := TableOf(img, r.parent);
    SearchIs(t, r.name, r.ext);
    FirstIsOne(t, r.name, r.ext, i, First(t, ByPair(r.name, r.ext), 0));
    ch := [];
    if i < 64 && r.size >= t[i].size && t[i].attribute != 1 {
      ch := Follow(FatOf(img), HeadOf(t[i]), ClusterCount(t[i].size));
      ClusterCountIs(t[i].size);
      FollowSteps(FatOf(img), HeadOf(t[i]), ClusterCount(t[i].size));
      forall j | 0 <= j < |ch|
        ensures Gather(img, ch)[2048 * j..2048 * j + 2048] == img[ch[j]]
      {
        GatherAt(img, ch, |ch|, j);
      }
    }
  }

  // ---- delete -------------------------------------------------------------------------------

  /** Links from the entry's head that come to the end mark without meeting a cell twice. */
  ghost predicate LinksToEnd(fat: Fat, e: Entry, ch: seq<nat>) {
    && |ch| > 0 && Links(fat, e.low + 65536 * e.high, ch) && fat[ch[|ch| - 1]] == 0x0FFFFFFF
    && forall j, k :: 0 <= j < k < |ch| ==> ch[j] != ch[k]
  }

  lemma {:induction false} LinksGoToEnd(fat: Fat, c: nat, ch: seq<nat>, n: nat)
    requires |ch| > 0 && Links(fat, c, ch) && fat[ch[|ch| - 1]] == 0x0FFFFFFF && |ch| <= n
    ensures ToEnd(fat, c, n) == ch
    decreases |ch|
  {
    if |ch| == 1 {
      assert ch == [c];
    } else {
      var rest := ch[1..];
      assert rest[0] == fat[c] && fat[c] < 512;
      LinksGoToEnd(fat, fat[c], rest, n - 1);
      assert ch == [c] + rest;
    }
  }

  /** The walk of `delete` in file mode stays inside the map and ends exactly when the links of the first
      slot of the pair come to the end mark. */
  lemma DeleteFileReadyIff(img: Image, r: Request, i: nat)
    requires r.parent < 512 && r.size > 0 && FirstPair(TableOf(img, r.parent), r.name, r.ext, i)
    ensures DeleteReady(img, r) <==>
            (i < 64 ==> exists ch :: LinksToEnd(FatOf(img), TableOf(img, r.parent)[i], ch))
  {
    var fat, t := FatOf(img), TableOf(img, r.parent);
    SearchIs(t, r.name, r.ext);
    FirstIsOne(t, r.name, r.ext, i, First(t, ByPair(r.name, r.ext), 0));
    if i < 64 {
      var c := HeadOf(t[i]);
      if DeleteReady(img, r) {
        assert LinksToEnd(fat, t[i], ToEnd(fat, c, 512));
      }
      forall ch | LinksToEnd(fat, t[i], ch)
        ensures HeadsChain(fat, t[i])
      {
        Pigeonhole(ch, 0, 512);
        LinksGoToEnd(fat, c, ch, 512);
        assert ToEnd(fat, c, 512) == ch;
      }
    }
  }

  lemma DeleteAnswersFile(img: Image, r: Request, i: nat) returns (ch: seq<nat>)
    requires DeleteReady(img, r) && r.size > 0 && FirstPair(TableOf(img, r.parent), r.name, r.ext, i)
    ensures var t, out := TableOf(img, r.parent), DeleteOutcome(img, r);
            if i == 64 then out == Outcome(1, img)
            else && out.code == 0 && LinksToEnd(FatOf(img), t[i], ch)
                 && ClearsAndFrees(img, out.img, r.parent, i, ch)
  {
    var t := TableOf(img, r.parent);
    SearchIs(t, r.name, r.ext);
    FirstIsOne(t, r.name, r.ext, i, First(t, ByPair(r.name, r.ext), 0));
    ch := [];
    if i < 64 {
      ch := ToEnd(FatOf(img), HeadOf(t[i]), 512);
      RemovedEffect(img, ch, Loc(r.parent, i));
    }
  }

  /** Slot `i` is zero, the cells are free, and all else - unless the map was the table - as it was. */
  ghost predicate ClearsAndFrees(img: Image, out: Image, parent: nat, i: nat, ch: seq<nat>)
    requires parent < 512 && i < 64
  {
    && TableOf(out, parent) == TableOf(img, parent)[i := ZERO_ENTRY]
    && (parent != 1 ==> forall x :: 0 <= x < 512 ==> FatOf(out)[x] == if x in ch then 0 else FatOf(img)[x])
    && forall x :: 0 <= x < 2048 && x != 1 && x != parent ==> out[x] == img[x]
  }

  lemma RemovedEffect(img: Image, ch: seq<nat>, l: Loc)
    requires Cells(ch) && l.dir < 512 && l.slot < 64
    ensures ClearsAndFrees(img, Removed(img, Unlink(FatOf(img), ch, |ch|), l), l.dir, l.slot, ch)
  {
    var fat := Unlink(FatOf(img), ch, |ch|);
    PutFatMeta(img, fat);
    PutTableMeta(PutFat(img, fat), l.dir, TableOf(img, l.dir)[l.slot := ZERO_ENTRY]);
    UnlinkCells(FatOf(img), ch, |ch|);
    forall x | 0 <= x < 512
      ensures fat[x] == if x in ch then 0 else FatOf(img)[x]
    {
      if x in ch {
        var i :| 0 <= i < |ch| && ch[i] == x;
      }
    }
  }

  /** Directory mode, by name alone; for a name that is not there with cluster 0 and slot 0. */
  lemma DeleteAnswersDirectory(img: Image, r: Request, i: nat)
    requires DeleteReady(img, r) && r.size == 0 && FirstName(TableOf(img, r.parent), r.name, i)
    ensures var t, out := TableOf(img, r.parent), DeleteOutcome(img, r);
            var c, s := if i < 64 then t[i].low + 65536 * t[i].high else 0, if i < 64 then i else 0;
            && c < 512
            && if Occupied(TableOf(img, c)) then out == Outcome(2, img)
               else if SpellsRoot(r.name) then out == Outcome(-1, img)
               else out.code == 0 && ClearsAndFrees(img, out.img, r.parent, s, [c])
  {
    var t := TableOf(img, r.parent);
    SearchIs(t, r.name, r.ext);
    FirstIsOne(t, r.name, r.ext, i, First(t, ByName(r.name), 0));
    RootNameIs(r.name);
    DirectoryDeleted(img, r, DirTarget(t, r.name).0, DirTarget(t, r.name).1);
  }

  lemma DirectoryDeleted(img: Image, r: Request, c: nat, s: nat)
    requires r.parent < 512 && c < 512 && s < 64 && DirTarget(TableOf(img, r.parent), r.name) == (c, s)
    ensures var out := DeleteDirectory(img, r);
            if Occupied(TableOf(img, c)) then out == Outcome(2, img)
            else if r.name == ROOT_NAME then out == Outcome(-1, img)
            else out.code == 0 && ClearsAndFrees(img, out.img, r.parent, s, [c])
  {
    OccupiedIs(TableOf(img, c));
    assert Unlink(FatOf(img), [c], 0) == FatOf(img);
    RemovedEffect(img, [c], Loc(r.parent, s));
  }

  /** "ROOT", with zeros behind it. */
  predicate SpellsRoot(name: Name) {
    name[0] == 82 && name[1] == 79 && name[2] == 79 && name[3] == 84 && forall i :: 4 <= i < 8 ==> name[i] == 0
  }

  lemma RootNameIs(name: Name)
    ensures name == ROOT_NAME <==> SpellsRoot(name)
  {
    if SpellsRoot(name) {
      assert name == ROOT_NAME;
    }
  }

  /** A slot after the first is taken. */
  ghost predicate Occupied(t: Table) {
    exists j :: 1 <= j < 64 && t[j].user == 0xAA
  }

  lemma OccupiedIs(t: Table)
    ensures !EmptyTable(t) <==> Occupied(t)
  {
    if j :| 1 <= j < 64 && t[j].user == 0xAA {
      assert Live(t[j]);
    }
  }
}
