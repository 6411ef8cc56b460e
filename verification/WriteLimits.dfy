/** Where `write` stops being safe: it takes any cluster marked end-of-file for a directory - a file's
    last one, or the map itself. */
module WriteLimits {
  import opened Format
  import opened Volume
  import opened Tree
  import opened Allocation
  import opened Storage
  import opened Crash
  import opened DriverSpec
  import opened WriteProofs

  ghost predicate SameElsewhere(img: Image, img': Image, p: nat) {
    forall c :: 0 <= c < 2048 && c != p ==> img'[c] == img[c]
  }

  /** Clusters taken for an entry that is then written outside the tree. */
  lemma StrayKeepsTree(img: Image, img1: Image, img': Image, lay: Layout, p: nat)
    requires Consistent(MetaOf(img), lay) && OnlyFreeTouched(img, img1)
    requires SameElsewhere(img1, img', p) && p != 1 && p !in lay.Dirs()
    ensures Consistent(MetaOf(img'), lay)
  {
    HarmlessFrame(img, img1, lay);
    forall d | d in lay.Dirs() && d < 512
      ensures MetaOf(img').tables[d] == MetaOf(img).tables[d]
    {
      assert MetaOf(img1).tables[d] == MetaOf(img).tables[d] && img'[d] == img1[d];
    }
    TakenFrame(MetaOf(img), MetaOf(img'), lay);
  }

  lemma FreeIsNotOwned(m: Meta, m': Meta, lay: Layout, lay': Layout, c: nat)
    requires Consistent(m, lay) && Consistent(m', lay) && 3 <= c < 512 && m.fat[c] == 0 && m'.fat[c] != 0
    ensures !Valid(m', lay')
  {
    if Valid(m', lay') {
      LayoutUnique(m', lay, lay');
      OwnedIsTaken(m, lay, c);
    }
  }

  lemma StrayEntryLeaks(img: Image, img1: Image, img': Image, lay: Layout, p: nat, c: nat, lay': Layout)
    requires Consistent(MetaOf(img), lay) && OnlyFreeTouched(img, img1)
    requires SameElsewhere(img1, img', p) && p != 1 && p !in lay.Dirs()
    requires 3 <= c < 512 && FatOf(img)[c] == 0 && FatOf(img1)[c] != 0
    ensures !Valid(MetaOf(img'), lay')
  {
    StrayKeepsTree(img, img1, img', lay, p);
    FreeIsNotOwned(MetaOf(img), MetaOf(img'), lay, lay', c);
  }

  lemma StrayDirectory(img: Image, lay: Layout, r: Request, lay': Layout)
    requires Consistent(MetaOf(img), lay) && WriteReady(img, r) && Accepted(img, r) && r.size == 0
    requires r.parent != 1 && r.parent !in lay.Dirs()
    ensures !Valid(MetaOf(WriteDirectory(img, r)), lay')
  {
    var e := DirEntry(img, r);
    DirChainIsNew(img, r);
    ScanStops(FatOf(img), 0, e.low);
    StrayEntryLeaks(img, NewDirectory(img, e), WriteDirectory(img, r), lay, r.parent, e.low, lay');
  }

  lemma StrayFile(img: Image, lay: Layout, r: Request, data: seq<byte>, lay': Layout)
    requires Consistent(MetaOf(img), lay) && WriteReady(img, r) && Accepted(img, r) && r.size == |data| > 0
    requires r.parent != 1 && r.parent !in lay.Dirs()
    ensures !Valid(MetaOf(WriteFile(img, r, data)), lay')
  {
    var ch := FileChain(img, r);
    FileChainIsNew(img, r, data);
    ChainIsTaken(FatOf(BeforePublish(img, r, data)), ch, ch[0]);
    StrayEntryLeaks(img, BeforePublish(img, r, data), WriteFile(img, r, data), lay, r.parent, ch[0], lay');
  }

  // ---- The map taken for a directory ---------------------------------------------------

  lemma ShiftedBytes(e: Entry)
    ensures EncodeEntry(e)[24..28] == [e.high / 256, e.low % 256, e.low / 256, e.size % 256]
  {
    var x := EncodeExtent(e);
    TwoBytes(e.high);
    TwoBytes(e.low);
    assert x[1] == e.high / 256 && x[2] == e.low % 256 && x[3] == e.low / 256;
    assert x[4] == Bytes(e.size, 4)[0] == e.size % 256;
    ShiftedBy(EncodeLabel(e), x);
  }

  lemma ShiftedBy(a: seq<byte>, x: seq<byte>)
    requires |a| == 23 && |x| == 9
    ensures (a + x)[24..28] == [x[1], x[2], x[3], x[4]]
  {
  }

  lemma ValueOfFirst(a: byte, s: seq<byte>)
    ensures Value([a] + s) == a as nat + 256 * Value(s)
  {
    assert ([a] + s)[1..] == s;
  }

  lemma ValueOfFour(s: seq<byte>, a: byte, b: byte, c: byte, d: byte)
    requires s == [a, b, c, d]
    ensures Value(s) == a as nat + 256 * (b as nat + 256 * (c as nat + 256 * d as nat))
  {
    ValueOfFirst(d, []);
    ValueOfFirst(c, [d]);
    ValueOfFirst(b, [c, d]);
    ValueOfFirst(a, [b, c, d]);
    assert [c] + [d] == [c, d] && [b] + [c, d] == [b, c, d] && [a] + [b, c, d] == s && [d] + [] == [d];
  }

  /** That number is no link: beyond the map, and not the end mark. */
  lemma NoLink(e: Entry)
    requires 3 <= e.low < 512
    ensures var v := Long(EncodeEntry(e)[24..28]); v >= 512 && v != END_OF_FILE
  {
    var x, y := e.high / 256, e.size % 256;
    ShiftedBytes(e);
    ValueOfFour(EncodeEntry(e)[24..28], x, e.low % 256, e.low / 256, y);
    BetweenLinks(x, e.low, y);
  }

  lemma BetweenLinks(x: nat, low: nat, y: nat)
    requires x < 256 && 3 <= low < 512 && y < 256
    ensures var v := x + 256 * (low % 256 + 256 * (low / 256 + 256 * y)); v >= 512 && v != END_OF_FILE
  {
    assert low % 256 + 256 * (low / 256 + 256 * y) == low + 65536 * y;
  }

  lemma CellsAreLinks(m: Meta, lay: Layout, c: nat)
    requires Valid(m, lay) && 3 <= c < 512 && m.fat[c] != 0
    ensures m.fat[c] < 512 || m.fat[c] == END_OF_FILE
  {
    assert Owned(lay, c);
    var l :| l in lay.chains && c in lay.chains[l];
    assert EntryOk(m, lay, l);
    var i :| 0 <= i < |lay.chains[l]| && lay.chains[l][i] == c;
    assert i < |lay.chains[l]| - 1 ==> m.fat[c] == lay.chains[l][i + 1];
  }

  /** An entry written into cluster 1 leaves a map no layout describes. */
  lemma EntryOverMap(img: Image, t: Table, s: nat, lay: Layout)
    requires s < 64 && 3 <= t[s].low < 512
    ensures !Valid(MetaOf(PutTable(img, 1, t)), lay)
  {
    var m := MetaOf(PutTable(img, 1, t));
    CellOfEntry(t, s, 6);
    NoLink(t[s]);
    if Valid(m, lay) {
      CellsAreLinks(m, lay, 8 * s + 6);
    }
  }

  lemma MapAsParent(img: Image, r: Request, data: seq<byte>, lay: Layout)
    requires WriteReady(img, r) && Accepted(img, r) && |data| == r.size && r.parent == 1
    ensures !Valid(MetaOf(WriteOutcome(img, r, data).img), lay)
  {
    var t, s := TableOf(img, 1), First(TableOf(img, 1), FreeSlot, 0);
    if r.size == 0 {
      var e := DirEntry(img, r);
      ScanStops(FatOf(img), 0, e.low);
      EntryOverMap(NewDirectory(img, e), t[s := e], s, lay);
    } else {
      var ch := FileChain(img, r);
      FileChainIsNew(img, r, data);
      EntryOverMap(BeforePublish(img, r, data), t[s := FileEntry(t[s], r, ch[0])], s, lay);
    }
  }

  /** On a valid disk, whatever `write` is asked, the disk stays sound if and only if the request is
      refused - its parent is not marked end-of-file, or the name is taken - or its parent is a
      directory. */
  lemma WriteIsSoundIff(img: Image, lay: Layout, r: Request, data: seq<byte>)
    requires Valid(MetaOf(img), lay) && WriteReady(img, r) && |data| == r.size
    ensures Sound(MetaOf(WriteOutcome(img, r, data).img)) <==> !Accepted(img, r) || r.parent in lay.Dirs()
  {
    if r.parent in lay.Dirs() {
      WriteKeepsValid(img, lay, r, data);
      CarriesSound(MetaOf(img), lay, MetaOf(WriteOutcome(img, r, data).img), WriteLayout(img, lay, r));
    } else if !Accepted(img, r) {
      assert Valid(MetaOf(WriteOutcome(img, r, data).img), lay);
    } else {
      forall lay'
        ensures !Valid(MetaOf(WriteOutcome(img, r, data).img), lay')
      {
        if r.parent == 1 {
          MapAsParent(img, r, data, lay');
        } else if r.size == 0 {
          StrayDirectory(img, lay, r, lay');
        } else {
          StrayFile(img, lay, r, data, lay');
        }
      }
    }
  }
}
