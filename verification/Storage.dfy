/** The storage image seen through the format: the map in cluster 1, tables and data elsewhere. */
module Storage {
  import opened Format
  import opened Volume

  function FatOf(img: Image): Fat {
    DecodeFat(img[1])
  }

  function TableOf(img: Image, c: nat): Table
    requires c < 2048
  {
    DecodeTable(img[c])
  }

  function PutFat(img: Image, f: Fat): Image {
    img[1 := EncodeFat(f)]
  }

  function PutTable(img: Image, c: nat, t: Table): Image
    requires c < 2048
  {
    img[c := EncodeTable(t)]
  }

  function MetaOf(img: Image): Meta {
    Meta(FatOf(img), seq(512, (c: nat) requires c < 512 => TableOf(img, c)))
  }

  lemma PutFatMeta(img: Image, f: Fat)
    ensures FatOf(PutFat(img, f)) == f
    ensures forall c :: 0 <= c < 2048 && c != 1 ==> PutFat(img, f)[c] == img[c]
  {
    CellsRoundTrip(f);
  }

  lemma PutTableMeta(img: Image, c: nat, t: Table)
    requires c < 2048
    ensures TableOf(PutTable(img, c, t), c) == t
    ensures forall d :: 0 <= d < 2048 && d != c ==> PutTable(img, c, t)[d] == img[d]
  {
    EntriesRoundTrip(t);
  }

  /** Writing back what was read changes nothing. */
  lemma WriteBackIsNoOp(img: Image, c: nat)
    requires c < 2048
    ensures PutFat(img, FatOf(img)) == img
    ensures PutTable(img, c, TableOf(img, c)) == img
  {
    CellsBytesRoundTrip(img[1]);
    EntriesBytesRoundTrip(img[c]);
  }

  // ---- File content ------------------------------------------------------------

  /** Clusters needed for `size` bytes: a rounded-down quotient, corrected upwards. */
  function ClusterCount(size: nat): nat {
    (size + 2047) / 2048
  }

  /** As few clusters as hold the bytes. */
  lemma ClusterCountIs(size: nat)
    ensures size <= 2048 * ClusterCount(size) < size + 2048
  {
  }

  /** The bytes a file occupies on disk: its content, zero-filled to a whole cluster. */
  function Pad(data: seq<byte>): (r: seq<byte>)
    ensures |r| == 2048 * ClusterCount(|data|)
  {
    data + seq(2048 * ClusterCount(|data|) - |data|, (_: nat) => 0 as byte)
  }

  /** The data first, zeros after it, less than a cluster of them. */
  ghost predicate ZeroFilled(bytes: seq<byte>, data: seq<byte>) {
    && |data| <= |bytes| < |data| + 2048 && |bytes| % 2048 == 0
    && (forall i :: 0 <= i < |data| ==> bytes[i] == data[i])
    && (forall i :: |data| <= i < |bytes| ==> bytes[i] == 0)
  }

  lemma PadIsZeroFilled(data: seq<byte>)
    ensures ZeroFilled(Pad(data), data)
  {
    ClusterCountIs(|data|);
  }

  function Chunk(bytes: seq<byte>, i: nat): Cluster
    requires 2048 * i + 2048 <= |bytes|
  {
    bytes[2048 * i..2048 * i + 2048]
  }

  /** The image after the first `n` chunks of `bytes` are written to the clusters of `ch`. */
  function Scatter(img: Image, ch: seq<nat>, bytes: seq<byte>, n: nat): Image
    requires n <= |ch| && 2048 * n <= |bytes| && forall i :: 0 <= i < |ch| ==> ch[i] < 512
  {
    if n == 0 then img else Scatter(img, ch, bytes, n - 1)[ch[n - 1] := Chunk(bytes, n - 1)]
  }

  /** The concatenated content of the clusters of `ch`. */
  function Gather(img: Image, ch: seq<nat>): (r: seq<byte>)
    requires forall i :: 0 <= i < |ch| ==> ch[i] < 512
    ensures |r| == 2048 * |ch|
  {
    GatherTo(img, ch, |ch|)
  }

  function GatherTo(img: Image, ch: seq<nat>, n: nat): (r: seq<byte>)
    requires n <= |ch| && forall i :: 0 <= i < |ch| ==> ch[i] < 512
    ensures |r| == 2048 * n
  {
    if n == 0 then [] else GatherTo(img, ch, n - 1) + img[ch[n - 1]]
  }

  /** The clusters in the order of the chain. */
  lemma {:induction false} GatherAt(img: Image, ch: seq<nat>, n: nat, i: nat)
    requires i < n <= |ch| && forall k :: 0 <= k < |ch| ==> ch[k] < 512
    ensures GatherTo(img, ch, n)[2048 * i..2048 * i + 2048] == img[ch[i]]
  {
    if i < n - 1 {
      GatherAt(img, ch, n - 1, i);
      assert GatherTo(img, ch, n)[..2048 * (n - 1)] == GatherTo(img, ch, n - 1);
      SliceOfPrefix(GatherTo(img, ch, n), 2048 * (n - 1), 2048 * i);
    } else {
      assert GatherTo(img, ch, n)[2048 * i..] == img[ch[i]];
    }
  }

  lemma SliceOfPrefix(b: seq<byte>, n: nat, i: nat)
    requires i + 2048 <= n <= |b|
    ensures b[..n][i..i + 2048] == b[i..i + 2048]
  {
  }

  lemma {:induction false} ScatterCells(img: Image, ch: seq<nat>, bytes: seq<byte>, n: nat)
    requires n <= |ch| && 2048 * n <= |bytes| && forall i :: 0 <= i < |ch| ==> ch[i] < 512
    requires forall i, j :: 0 <= i < j < |ch| ==> ch[i] != ch[j]
    ensures forall i :: 0 <= i < n ==> Scatter(img, ch, bytes, n)[ch[i]] == Chunk(bytes, i)
    ensures forall c :: 0 <= c < 2048 && c !in ch ==> Scatter(img, ch, bytes, n)[c] == img[c]
  {
    if n > 0 {
      ScatterCells(img, ch, bytes, n - 1);
    }
  }

  lemma {:induction false} GatherChunks(img: Image, ch: seq<nat>, bytes: seq<byte>, n: nat)
    requires n <= |ch| && 2048 * |ch| == |bytes| && forall i :: 0 <= i < |ch| ==> ch[i] < 512
    requires forall i :: 0 <= i < n ==> img[ch[i]] == Chunk(bytes, i)
    ensures GatherTo(img, ch, n) == bytes[..2048 * n]
  {
    if n > 0 {
      GatherChunks(img, ch, bytes, n - 1);
    }
  }

  /** Reading along the chain returns what was scattered along it. */
  lemma GatherScatter(img: Image, img': Image, ch: seq<nat>, bytes: seq<byte>)
    requires |bytes| == 2048 * |ch| && forall i :: 0 <= i < |ch| ==> ch[i] < 512
    requires forall i, j :: 0 <= i < j < |ch| ==> ch[i] != ch[j]
    requires forall i :: 0 <= i < |ch| ==> img'[ch[i]] == Scatter(img, ch, bytes, |ch|)[ch[i]]
    ensures Gather(img', ch) == bytes
  {
    ScatterCells(img, ch, bytes, |ch|);
    GatherChunks(img', ch, bytes, |ch|);
  }

  lemma {:induction false} GatherToFrame(img: Image, img': Image, ch: seq<nat>, n: nat)
    requires n <= |ch| && forall i :: 0 <= i < |ch| ==> ch[i] < 512
    requires forall i :: 0 <= i < n ==> img'[ch[i]] == img[ch[i]]
    ensures GatherTo(img', ch, n) == GatherTo(img, ch, n)
  {
    if n > 0 {
      GatherToFrame(img, img', ch, n - 1);
    }
  }

  lemma GatherFrame(img: Image, img': Image, ch: seq<nat>)
    requires forall i :: 0 <= i < |ch| ==> ch[i] < 512 && img'[ch[i]] == img[ch[i]]
    ensures Gather(img', ch) == Gather(img, ch)
  {
    GatherToFrame(img, img', ch, |ch|);
  }
}
