/** Formatting and mounting: a formatted disk is valid, empty and signed - but the signature comes
    first, so an interrupted format is never taken up again. */
module Mounting {
  import opened Format
  import opened Volume
  import opened Edits
  import opened Storage
  import opened DriverSpec

  /** No cell beyond the reserved ones is taken in the cached map. */
  predicate CleanCache(cache: Fat) {
    forall c :: 3 <= c < 512 ==> cache[c] == 0
  }

  ghost const EMPTY := Layout(map[], map[])

  lemma FormattedMeta(img: Image, cache: Fat) returns (img': Image)
    ensures img' == Formatted(img, cache) && Signed(img')
    ensures FatOf(img') == Header(cache) && TableOf(img', ROOT) == NewTable(RootEntry())
  {
    var img1 := MapWritten(img, cache);
    img' := Formatted(img, cache);
    PutFatMeta(BootWritten(img), Header(cache));
    PutTableMeta(img1, ROOT, NewTable(RootEntry()));
    BootIsSigned(img);
    assert img'[0] == BootWritten(img)[0];
  }

  lemma BootIsSigned(img: Image)
    ensures Signed(BootWritten(img))
  {
  }

  /** Formatting with an otherwise empty cache makes an empty, valid, signed disk. */
  lemma FormattedIsValid(img: Image, cache: Fat)
    requires CleanCache(cache)
    ensures Valid(MetaOf(Formatted(img, cache)), EMPTY) && Signed(Formatted(img, cache))
    ensures FatOf(Formatted(img, cache)) == Header(cache)
  {
    var img' := FormattedMeta(img, cache);
    EmptyDiskIsValid(img', cache);
  }

  lemma EmptyDiskIsValid(img: Image, cache: Fat)
    requires CleanCache(cache) && FatOf(img) == Header(cache) && TableOf(img, ROOT) == NewTable(RootEntry())
    ensures Valid(MetaOf(img), EMPTY)
  {
  }

  /** Some entry of a tree with directories or files is in the root. */
  lemma FirstLevel(m: Meta, lay: Layout)
    requires Consistent(m, lay) && lay.home != map[]
    ensures !EmptyTable(m.tables[ROOT])
  {
    assert lay.home.Keys != {} && HasWayOut(lay.home, lay.home.Keys);
    var d :| d in lay.home && lay.home[d].dir !in lay.home.Keys;
    assert HomeOk(m, lay, d);
    EntryIsLive(m, lay, lay.home[d]);
  }

  lemma EntryIsLive(m: Meta, lay: Layout, l: Loc)
    requires SlotsMatch(m, lay) && l in lay.chains && (l.dir in lay.Dirs() ==> l.dir == ROOT)
    ensures !EmptyTable(m.tables[ROOT])
  {
    assert Live(m.tables[ROOT][l.slot]);
  }

  lemma FilesOfRoot(m: Meta, lay: Layout)
    requires SlotsMatch(m, lay) && lay.home == map[] && lay.chains != map[]
    ensures !EmptyTable(m.tables[ROOT])
  {
    assert lay.chains.Keys != {};
    var l :| l in lay.chains;
    EntryIsLive(m, lay, l);
  }

  lemma NothingBelowRoot(m: Meta, lay: Layout)
    requires Consistent(m, lay) && EmptyTable(m.tables[ROOT])
    ensures lay == EMPTY
  {
    if lay.home != map[] {
      FirstLevel(m, lay);
    } else if lay.chains != map[] {
      FilesOfRoot(m, lay);
    }
  }

  lemma CleanUnderEmptyRoot(m: Meta, lay: Layout, cache: Fat)
    requires Valid(m, lay) && m.tables[ROOT] == NewTable(RootEntry()) && m.fat == Header(cache)
    ensures CleanCache(cache)
  {
    NothingBelowRoot(m, lay);
    EmptyOwnsNothing(m, cache);
  }

  /** Formatting keeps what the cache says is taken, so the disk is sound if and only if the cache was
      clean. */
  lemma FormattedIsSoundIff(img: Image, cache: Fat)
    ensures Sound(MetaOf(Formatted(img, cache))) <==> CleanCache(cache)
  {
    var img' := FormattedMeta(img, cache);
    if CleanCache(cache) {
      EmptyDiskIsValid(img', cache);
    }
    if Sound(MetaOf(img')) {
      var lay :| Valid(MetaOf(img'), lay);
      CleanUnderEmptyRoot(MetaOf(img'), lay, cache);
    }
  }

  lemma EmptyOwnsNothing(m: Meta, cache: Fat)
    requires NoLeak(m, EMPTY) && m.fat == Header(cache)
    ensures CleanCache(cache)
  {
    forall c | 3 <= c < 512
      ensures cache[c] == 0
    {
      assert m.fat[c] == cache[c] && !Owned(EMPTY, c);
    }
  }

  // ---- A format that is cut short ------------------------------------------------------

  lemma SameDirs(m: Meta, m': Meta, lay: Layout)
    requires Valid(m, lay) && m'.fat == m.fat
    requires forall d :: 2 <= d < 512 ==> m'.tables[d] == m.tables[d]
    ensures Valid(m', lay)
  {
    forall d | d in lay.Dirs() && d < 512
      ensures m'.tables[d] == m.tables[d]
    {
      DirsAreTaken(m, lay, d);
    }
    TakenFrame(m, m', lay);
  }

  /** Stopping after the signature: the next mount finds it and formats nothing, so the disk is
      sound if and only if it was before. */
  lemma SignatureComesFirst(img: Image, cache: Fat)
    ensures Initialized(BootWritten(img), cache) == BootWritten(img)
    ensures Sound(MetaOf(BootWritten(img))) <==> Sound(MetaOf(img))
  {
    var img1 := BootWritten(img);
    BootIsSigned(img);
    forall lay | Valid(MetaOf(img), lay)
      ensures Valid(MetaOf(img1), lay)
    {
      SameDirs(MetaOf(img), MetaOf(img1), lay);
    }
    forall lay | Valid(MetaOf(img1), lay)
      ensures Valid(MetaOf(img), lay)
    {
      SameDirs(MetaOf(img1), MetaOf(img), lay);
    }
  }

  lemma EntryTakesCell(m: Meta, lay: Layout, l: Loc)
    requires EntriesOk(m, lay) && l in lay.chains
    ensures !CleanCache(m.fat)
  {
    assert EntryOk(m, lay, l);
  }

  lemma NoChains(m: Meta, lay: Layout)
    requires Consistent(m, lay) && CleanCache(m.fat)
    ensures lay == EMPTY
  {
    forall l | l in lay.chains
      ensures false
    {
      EntryTakesCell(m, lay, l);
    }
    forall d | d in lay.home
      ensures lay.home[d] in lay.chains
    {
      assert HomeOk(m, lay, d);
    }
  }

  lemma EmptyRoot(m: Meta)
    requires Consistent(m, EMPTY)
    ensures m.tables[ROOT] == NewTable(RootEntry())
  {
    var t := m.tables[ROOT];
    assert ROOT in EMPTY.Dirs() && TableOk(t, ROOT);
    forall s | 1 <= s < 64
      ensures t[s] == ZERO_ENTRY
    {
      assert t[s] == At(m, Loc(ROOT, s));
    }
  }

  /** Stopping after the map: still nothing is formatted at the next mount, and the disk is sound if
      and only if cluster 2 held an empty root table already. */
  lemma MapComesSecond(img: Image, cache: Fat, cache': Fat)
    requires CleanCache(cache)
    ensures Initialized(MapWritten(img, cache), cache') == MapWritten(img, cache)
    ensures Sound(MetaOf(MapWritten(img, cache))) <==> TableOf(img, ROOT) == NewTable(RootEntry())
  {
    var img2 := MapWritten(img, cache);
    BootIsSigned(img);
    PutFatMeta(BootWritten(img), Header(cache));
    assert TableOf(img2, ROOT) == TableOf(img, ROOT);
    if TableOf(img, ROOT) == NewTable(RootEntry()) {
      EmptyDiskIsValid(img2, cache);
    }
    forall lay | Valid(MetaOf(img2), lay)
      ensures TableOf(img, ROOT) == NewTable(RootEntry())
    {
      NoChains(MetaOf(img2), lay);
      EmptyRoot(MetaOf(img2));
    }
  }
}
