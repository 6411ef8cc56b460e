/** What each driver operation does to the storage image, as functions of the image and the
    request: the simple form the loops of the driver are proved against. */
module DriverSpec {
  import opened Format
  import opened Volume
  import opened Edits
  import opened Allocation
  import opened Storage

  // ---- Searching a table -------------------------------------------------------

  datatype Key =
    | ByName(name: Name)
    | ByPair(name: Name, ext: Ext)
    | ByLivePair(name: Name, ext: Ext)
    | FreeSlot

  predicate Hits(k: Key, e: Entry) {
    match k
    case ByName(n) => e.name == n
    case ByPair(n, x) => e.name == n && e.ext == x
    case ByLivePair(n, x) => Live(e) && e.name == n && e.ext == x
    case FreeSlot => !Live(e)
  }

  /** The first slot from `i` on that the key hits, or 64. */
  function First(t: Table, k: Key, i: nat): (r: nat)
    requires i <= 64
    ensures i <= r <= 64 && (r < 64 ==> Hits(k, t[r]))
    ensures forall j :: i <= j < r ==> !Hits(k, t[j])
    decreases |t| - i
  {
    if i == 64 || Hits(k, t[i]) then i else First(t, k, i + 1)
  }

  // ---- Requests ----------------------------------------------------------------

  datatype Request = Request(name: Name, ext: Ext, parent: nat, size: u32)

  datatype Outcome = Outcome(code: int, img: Image)

  datatype Reply = Reply(code: int, bytes: seq<byte>)

  /** The cluster number an entry holds: high half shifted up, low half or-ed in. */
  function HeadOf(e: Entry): nat {
    0x1_0000 * e.high + e.low
  }

  // ---- read --------------------------------------------------------------------

  function ReadReply(img: Image, r: Request): Reply
    requires r.parent < 512
  {
    var t := TableOf(img, r.parent);
    var i := First(t, ByPair(r.name, r.ext), 0);
    if i == 64 then Reply(0, []) else EntryReply(img, t[i], r.size)
  }

  /** The answer once the entry is found: its clusters, if the buffer is large enough. */
  function EntryReply(img: Image, e: Entry, size: u32): Reply {
    if size < e.size then Reply(2, [])
    else if e.attribute == 1 then Reply(1, [])
    else Reply(0, Gather(img, Follow(FatOf(img), HeadOf(e), ClusterCount(e.size))))
  }

  /** Following the matched entry's links for its size stays inside the map. */
  predicate ReadReady(img: Image, r: Request) {
    && r.parent < 512
    && var t := TableOf(img, r.parent);
       var i := First(t, ByPair(r.name, r.ext), 0);
       i < 64 ==> var n := ClusterCount(t[i].size); |Follow(FatOf(img), HeadOf(t[i]), n)| == n
  }

  // ---- write -------------------------------------------------------------------

  /** A request with size 0 asks for a directory and is refused on an equal name alone. */
  function WriteKey(r: Request): Key {
    if r.size == 0 then ByName(r.name) else ByPair(r.name, r.ext)
  }

  predicate Accepted(img: Image, r: Request)
    requires r.parent < 512
  {
    && FatOf(img)[r.parent] == END_OF_FILE
    && First(TableOf(img, r.parent), WriteKey(r), 0) == 64
  }

  /** The searches of `write` have no bound: there must be a free cluster once the parent is
      accepted, and for an accepted request a free slot and, for a file, one cluster more than
      the file needs, because the last round still looks ahead. */
  predicate WriteReady(img: Image, r: Request) {
    && r.parent < 512
    && FatHeader(FatOf(img))
    && (FatOf(img)[r.parent] == END_OF_FILE ==> |Free(FatOf(img))| > 0)
    && (Accepted(img, r) ==>
          && First(TableOf(img, r.parent), FreeSlot, 0) < 64
          && |Free(FatOf(img))| > (if r.size == 0 then 0 else ClusterCount(r.size)))
  }

  /** The entry a file gets: the free slot's old bytes with the fields `write` sets. */
  function FileEntry(old_: Entry, r: Request, head: u16): Entry {
    old_.(name := r.name, ext := r.ext, attribute := 0, user := UATTR_NOT_EMPTY, low := head,
          size := (old_.size + r.size) % 0x1_0000_0000)
  }

  function WriteOutcome(img: Image, r: Request, data: seq<byte>): Outcome
    requires WriteReady(img, r) && |data| == r.size
  {
    if FatOf(img)[r.parent] != END_OF_FILE then Outcome(2, img)
    else if !Accepted(img, r) then Outcome(1, img)
    else if r.size == 0 then Outcome(0, WriteDirectory(img, r))
    else Outcome(0, WriteFile(img, r, data))
  }

  function WriteDirectory(img: Image, r: Request): Image
    requires WriteReady(img, r) && Accepted(img, r) && r.size == 0
  {
    var t := TableOf(img, r.parent);
    var e := LiveEntry(r.name, NO_EXT, Free(FatOf(img))[0], 0);
    PutTable(NewDirectory(img, e), r.parent, t[First(t, FreeSlot, 0) := e])
  }

  /** The image with a directory's cluster taken and its table written, not yet named anywhere. */
  function NewDirectory(img: Image, e: Entry): Image
    requires e.low < 512
  {
    PutTable(PutFat(img, WithCell(FatOf(img), e.low, END_OF_FILE)), e.low, NewTable(e))
  }

  /** The image while a file is being written: `i` clusters of data and `j` links are down. */
  function PartFile(img: Image, ch: seq<nat>, bytes: seq<byte>, i: nat, j: nat): Image
    requires i <= |ch| && j <= |ch| && 2048 * i <= |bytes| && forall k :: 0 <= k < |ch| ==> ch[k] < 512
  {
    PutFat(Scatter(img, ch, bytes, i), Link(FatOf(img), ch, j))
  }

  function WriteFile(img: Image, r: Request, data: seq<byte>): Image
    requires WriteReady(img, r) && Accepted(img, r) && r.size == |data| > 0
  {
    var t, n := TableOf(img, r.parent), ClusterCount(r.size);
    var ch := Lowest(FatOf(img), n);
    var s := First(t, FreeSlot, 0);
    PutTable(PartFile(img, ch, Pad(data), n, n), r.parent, t[s := FileEntry(t[s], r, ch[0])])
  }

  // ---- delete ------------------------------------------------------------------

  /** In directory mode a name that is not found leaves location and index at 0. */
  function DirTarget(t: Table, name: Name): (r: (nat, nat))
    ensures r.1 < 64
  {
    var i := First(t, ByName(name), 0);
    if i < 64 then (HeadOf(t[i]), i) else (0, 0)
  }

  function DeleteDirectory(img: Image, r: Request): Outcome
    requires r.parent < 512 && DirTarget(TableOf(img, r.parent), r.name).0 < 512
  {
    var t := TableOf(img, r.parent);
    var location, index := DirTarget(t, r.name).0, DirTarget(t, r.name).1;
    if !EmptyTable(TableOf(img, location)) then Outcome(2, img)
    else if r.name == ROOT_NAME then Outcome(-1, img)
    else Outcome(0, PutTable(PutFat(img, WithCell(FatOf(img), location, 0)), r.parent, t[index := ZERO_ENTRY]))
  }

  /** File mode walks links until the end-of-file mark, so the match must head a chain. */
  ghost predicate DeleteReady(img: Image, r: Request) {
    && r.parent < 512
    && var t := TableOf(img, r.parent);
       if r.size == 0 then DirTarget(t, r.name).0 < 512
       else
         var i := First(t, ByPair(r.name, r.ext), 0);
         i < 64 ==> HeadsChain(FatOf(img), t[i])
  }

  ghost predicate HeadsChain(fat: Fat, e: Entry) {
    var ch := ToEnd(fat, HeadOf(e), 512);
    Cells(ch) && EndsWell(fat, ch)
  }

  ghost predicate EndsWell(fat: Fat, ch: seq<nat>)
    requires forall i :: 0 <= i < |ch| ==> ch[i] < 512
  {
    && |ch| > 0
    && (forall i :: 0 <= i < |ch| - 1 ==> fat[ch[i]] == ch[i + 1])
    && fat[ch[|ch| - 1]] == END_OF_FILE
  }

  function DeleteFile(img: Image, r: Request): Outcome
    requires r.parent < 512
  {
    var t := TableOf(img, r.parent);
    var i := First(t, ByPair(r.name, r.ext), 0);
    if i == 64 then Outcome(1, img) else
    var ch := ToEnd(FatOf(img), HeadOf(t[i]), 512);
    Outcome(0, PutTable(PutFat(img, Unlink(FatOf(img), ch, |ch|)), r.parent, t[i := ZERO_ENTRY]))
  }

  function DeleteOutcome(img: Image, r: Request): Outcome
    requires r.parent < 512 && (r.size == 0 ==> DirTarget(TableOf(img, r.parent), r.name).0 < 512)
  {
    if r.size == 0 then DeleteDirectory(img, r) else DeleteFile(img, r)
  }

  /** When `delete` answers with an error: file mode finds nothing, or directory mode is asked for
      the name ROOT or arrives at an occupied table. */
  predicate Refused(img: Image, r: Request)
    requires r.parent < 512
  {
    var t := TableOf(img, r.parent);
    if r.size > 0 then First(t, ByPair(r.name, r.ext), 0) == 64
    else
      var location := DirTarget(t, r.name).0;
      r.name == ROOT_NAME || (location < 512 && !EmptyTable(TableOf(img, location)))
  }

  // ---- initialize ----------------------------------------------------------------

  const BANNER :=
    "Course          " + "Designed by     " + "Lab Sister ITB  " + "Made with <3    " + "-----------2023\n"

  const FLAG := "FACT{ch12uru_15_b35t_61rl:D}"

  /** The boot sector of a formatted disk: the banner, a flag 200 bytes before the end, "Ok". */
  function Signature(): Block {
    seq(512, (i: nat) =>
      if i < 80 then BANNER[i] as int % 256
      else if 312 <= i < 340 then FLAG[i - 312] as int % 256
      else if i == 510 then 'O' as int
      else if i == 511 then 'k' as int
      else 0)
  }

  predicate Signed(img: Image) {
    img[0][..512] == Signature()
  }

  function Header(fat: Fat): Fat {
    fat[0 := CLUSTER_0_VALUE][1 := CLUSTER_1_VALUE][2 := END_OF_FILE]
  }

  function ReplaceBootSector(img: Image, b: Block): Image {
    img[0 := b + img[0][512..]]
  }

  /** Formatting goes through three images: signature, map, root table. The map keeps whatever the
      cache held elsewhere. */
  function BootWritten(img: Image): Image {
    ReplaceBootSector(img, Signature())
  }

  function MapWritten(img: Image, cache: Fat): Image {
    PutFat(BootWritten(img), Header(cache))
  }

  function Formatted(img: Image, cache: Fat): Image {
    PutTable(MapWritten(img, cache), ROOT, NewTable(RootEntry()))
  }

  function RootEntry(): Entry {
    LiveEntry(ROOT_NAME, NO_EXT, ROOT, 0)
  }

  function Initialized(img: Image, cache: Fat): Image {
    if Signed(img) then img else Formatted(img, cache)
  }
}
