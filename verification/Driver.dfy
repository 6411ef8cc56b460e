/** The file-system driver: a cached map and a table buffer over the disk, with the loops of the
    original, each operation proved to do to the storage what its specification says. */
module Driver {
  import opened Format
  import opened Volume
  import opened Edits
  import opened Allocation
  import opened Storage
  import opened DriverSpec
  import opened Crash
  import D = Disk

  class Driver {
    const disk: D.Disk
    const fat: array<u32>
    const dirBuf: array<Entry>

    ghost predicate Valid()
      reads this, disk
    {
      && disk.Valid()
      && fat.Length == 512 && dirBuf.Length == 64
      && fat as object != disk.image && dirBuf as object != disk.image && dirBuf as object != fat
    }

    ghost function View(): Image
      reads this, disk, disk.image
      requires Valid()
    {
      disk.View()
    }

    /** Globals start zeroed. */
    constructor (disk: D.Disk)
      requires disk.Valid()
      ensures Valid() && this.disk == disk && fresh(fat) && fresh(dirBuf)
      ensures fat[..] == seq(512, (_: nat) => 0 as u32)
    {
      this.disk := disk;
      fat := new u32[512](_ => 0);
      dirBuf := new Entry[64](_ => ZERO_ENTRY);
    }

    // ---- Cluster transfers ------------------------------------------------------

    method LoadFat()
      requires Valid()
      modifies fat
      ensures fat[..] == FatOf(View())
    {
      var raw := new byte[2048];
      disk.ReadCluster(raw, 0, FAT_CLUSTER);
      ghost var img := View();
      assert raw[..] == img[1];
      var cells := DecodeFat(raw[..]);
      forall k | 0 <= k < 512 {
        fat[k] := cells[k];
      }
      assert fat[..] == cells;
      assert View() == img;
    }

    method StoreFat()
      requires Valid()
      modifies disk.image, disk`log
      ensures View() == PutFat(old(View()), fat[..])
      ensures disk.log == old(disk.log) + [View()]
    {
      ghost var was := fat[..];
      var bytes := EncodeFat(fat[..]);
      var raw := new byte[2048];
      forall k | 0 <= k < 2048 {
        raw[k] := bytes[k];
      }
      assert raw[0..2048] == bytes;
      disk.WriteCluster(raw, 0, FAT_CLUSTER);
      assert fat[..] == was;
    }

    method LoadTable(t: array<Entry>, c: nat)
      requires Valid() && t.Length == 64 && t as object != disk.image && c < 2048
      modifies t
      ensures t[..] == TableOf(View(), c)
    {
      var raw := new byte[2048];
      disk.ReadCluster(raw, 0, c);
      ghost var img := View();
      assert raw[..] == img[c];
      var entries := DecodeTable(raw[..]);
      forall k | 0 <= k < 64 {
        t[k] := entries[k];
      }
      assert t[..] == entries;
      assert View() == img;
    }

    method StoreTable(t: array<Entry>, c: nat)
      requires Valid() && t.Length == 64 && t as object != disk.image && c < 2048
      modifies disk.image, disk`log
      ensures View() == PutTable(old(View()), c, t[..])
      ensures disk.log == old(disk.log) + [View()]
    {
      ghost var was := t[..];
      var bytes := EncodeTable(t[..]);
      var raw := new byte[2048];
      forall k | 0 <= k < 2048 {
        raw[k] := bytes[k];
      }
      assert raw[0..2048] == bytes;
      disk.WriteCluster(raw, 0, c);
      assert t[..] == was;
    }

    /** Map first, then the parent's table: how both kinds of delete finish. */
    method Commit(parent: nat)
      requires Valid() && parent < 512
      modifies disk.image, disk`log
      ensures View() == PutTable(PutFat(old(View()), fat[..]), parent, dirBuf[..])
      ensures disk.log == old(disk.log) + [PutFat(old(View()), fat[..]), View()]
      ensures parent != 1 ==> fat[..] == FatOf(View())
    {
      ghost var img0, f, t := View(), fat[..], dirBuf[..];
      StoreFat();
      PutFatMeta(img0, f);
      assert dirBuf[..] == t;
      StoreTable(dirBuf, parent);
      assert fat[..] == f && dirBuf[..] == t;
    }

    // ---- Searches ---------------------------------------------------------------

    method ScanFree(from: nat) returns (c: u16)
      requires Valid() && from <= 512 && |FreeFrom(fat[..], from)| > 0
      ensures c < 512 && fat[c] == 0 && c == FreeFrom(fat[..], from)[0]
    {
      var i := from;
      while fat[i] != 0
        invariant from <= i < 512 && FreeFrom(fat[..], i) == FreeFrom(fat[..], from)
        decreases 512 - i
      {
        i := i + 1;
      }
      c := i;
    }

    method ScanFreeSlot() returns (s: nat)
      requires Valid() && First(dirBuf[..], FreeSlot, 0) < 64
      ensures s == First(dirBuf[..], FreeSlot, 0)
    {
      s := 0;
      while dirBuf[s].user == UATTR_NOT_EMPTY
        invariant s < 64 && First(dirBuf[..], FreeSlot, s) == First(dirBuf[..], FreeSlot, 0)
        decreases 64 - s
      {
        s := s + 1;
      }
    }

    method Find(t: array<Entry>, k: Key, from: nat) returns (i: nat)
      requires t.Length == 64 && from <= 64
      ensures i == First(t[..], k, from)
    {
      i := from;
      while i < 64
        invariant from <= i <= 64 && First(t[..], k, i) == First(t[..], k, from)
      {
        if Hits(k, t[i]) {
          return;
        }
        i := i + 1;
      }
    }

    // ---- write ------------------------------------------------------------------

    method InitDirectoryTable(t: array<Entry>, name: Name, c: u16)
      requires t.Length == 64 && t[..] == seq(64, (_: nat) => ZERO_ENTRY)
      modifies t
      ensures t[..] == NewTable(LiveEntry(name, NO_EXT, c, 0))
    {
      t[0] := t[0].(high := c / 0x1_0000, low := c % 0x1_0000, name := name, user := UATTR_NOT_EMPTY);
    }

    /** The last cluster of a file: what is left of the buffer, then zeros. */
    method PaddedTail(buf: array<byte>, from: nat, n: nat) returns (temp: array<byte>)
      requires from + n <= buf.Length && n <= 2048
      ensures fresh(temp) && temp.Length == 2048
      ensures temp[0..2048] == buf[from..from + n] + seq(2048 - n, (_: nat) => 0 as byte)
    {
      temp := new byte[2048];
      forall j | 0 <= j < n {
        temp[j] := buf[from + j];
      }
      for j := n to 2048
        invariant forall k :: 0 <= k < n ==> temp[k] == buf[from + k]
        invariant forall k :: n <= k < j ==> temp[k] == 0
      {
        temp[j] := 0;
      }
    }

    /** The data write of round `i`: a whole cluster of the buffer, or the padded tail. */
    method StoreChunk(buf: array<byte>, size: nat, i: nat, total: nat, c: nat)
      requires Valid() && buf != disk.image && 0 < size <= buf.Length
      requires total == ClusterCount(size) && i < total && c < 2048
      modifies disk.image, disk`log
      ensures View() == old(View())[c := Chunk(Pad(buf[..size]), i)]
      ensures disk.log == old(disk.log) + [View()]
    {
      ghost var chunk := Chunk(Pad(buf[..size]), i);
      if i < total - 1 {
        assert buf[2048 * i..2048 * i + 2048] == chunk;
        disk.WriteCluster(buf, 2048 * i, c);
      } else {
        var temp := PaddedTail(buf, 2048 * i, size - 2048 * i);
        assert temp[0..2048] == chunk;
        disk.WriteCluster(temp, 0, c);
      }
    }

    /** The memory half of round `i`: scan for a free cluster from the start again, look ahead for
        the one after it, link, and let the entry grow. */
    method LinkChunk(size: nat, i: nat, total: nat, slot: nat, ghost fat0: Fat) returns (cluster: u16)
      requires Valid() && 0 < size && slot < 64
      requires total == ClusterCount(size) && i < total < |Free(fat0)|
      requires fat[..] == Link(fat0, Lowest(fat0, total), i)
      modifies fat, dirBuf
      ensures fat[..] == Link(fat0, Lowest(fat0, total), i + 1)
      ensures OnlySlot(slot, old(dirBuf[..]), dirBuf[..])
      ensures dirBuf[slot] == Grown(old(dirBuf[slot]), ChunkSize(size, i))
      ensures cluster == Lowest(fat0, total)[i]
    {
      RoundFinds(fat0, total, i);
      cluster := ScanFree(0);
      var clusterNext := ScanFree(cluster + 1);
      if i < total - 1 {
        fat[cluster] := clusterNext;
        dirBuf[slot] := Grown(dirBuf[slot], 2048);
      } else {
        fat[cluster] := END_OF_FILE;
        dirBuf[slot] := Grown(dirBuf[slot], size - 2048 * i);
      }
    }

    /** One round of the file loop: link, write the data, write the map. */
    method WriteChunk(buf: array<byte>, size: nat, i: nat, total: nat, slot: nat, ghost img0: Image)
      requires Valid() && buf != disk.image && 0 < size <= buf.Length && slot < 64
      requires total == ClusterCount(size) && i < total < |Free(FatOf(img0))| && FatHeader(FatOf(img0))
      requires fat[..] == Link(FatOf(img0), Lowest(FatOf(img0), total), i)
      requires View() == PartFile(img0, Lowest(FatOf(img0), total), Pad(buf[..size]), i, i)
      modifies fat, dirBuf, disk.image, disk`log
      ensures fat[..] == Link(FatOf(img0), Lowest(FatOf(img0), total), i + 1)
      ensures var ch, bytes := Lowest(FatOf(img0), total), Pad(buf[..size]);
              View() == PartFile(img0, ch, bytes, i + 1, i + 1)
              && disk.log == old(disk.log) + [PartFile(img0, ch, bytes, i + 1, i), View()]
      ensures OnlySlot(slot, old(dirBuf[..]), dirBuf[..])
      ensures dirBuf[slot] == Grown(old(dirBuf[slot]), ChunkSize(size, i))
    {
      ghost var fat0 := FatOf(img0);
      ghost var ch, bytes := Lowest(fat0, total), Pad(buf[..size]);
      ghost var img := View();
      LowestAreCells(fat0, total);
      var cluster := LinkChunk(size, i, total, slot, fat0);
      ghost var entries := dirBuf[..];
      assert View() == img;
      StoreChunk(buf, size, i, total, cluster);
      PartFileData(img0, ch, bytes, i);
      assert fat[..] == Link(fat0, ch, i + 1);
      StoreFat();
      PartFileLink(img0, ch, bytes, i);
      assert dirBuf[..] == entries;
    }

    /** The loop invariant of `write`: `i` clusters are linked, written and counted, and no image
        on the way did harm. */
    ghost predicate AtRound(buf: array<byte>, size: nat, i: nat, total: nat, slot: nat,
                            img0: Image, t: Table, before: seq<Image>)
      reads this, disk, disk.image, fat, dirBuf, buf
      requires Valid() && size <= buf.Length && slot < 64
    {
      && i <= total == ClusterCount(size) && total < |Free(FatOf(img0))|
      && fat[..] == Link(FatOf(img0), Lowest(FatOf(img0), total), i)
      && View() == PartFile(img0, Lowest(FatOf(img0), total), Pad(buf[..size]), i, i)
      && OnlySlot(slot, t, dirBuf[..]) && dirBuf[slot] == Grown(t[slot], Done(size, i))
      && HarmlessSince(img0, before, disk.log)
    }

    method Round(buf: array<byte>, size: nat, i: nat, total: nat, slot: nat,
                 ghost img0: Image, ghost t: Table, ghost before: seq<Image>)
      requires Valid() && buf != disk.image && 0 < size <= buf.Length && slot < 64
      requires i < total && FatHeader(FatOf(img0))
      requires AtRound(buf, size, i, total, slot, img0, t, before)
      modifies fat, dirBuf, disk.image, disk`log
      ensures AtRound(buf, size, i + 1, total, slot, img0, t, before)
    {
      LowestAreCells(FatOf(img0), total);
      RoundIsHarmless(img0, Lowest(FatOf(img0), total), Pad(buf[..size]), i, before, disk.log);
      GrownAgain(t[slot], size, i);
      WriteChunk(buf, size, i, total, slot, img0);
    }

    method AllRounds(buf: array<byte>, size: nat, total: nat, slot: nat,
                     ghost img0: Image, ghost t: Table, ghost before: seq<Image>)
      requires Valid() && buf != disk.image && 0 < size <= buf.Length && slot < 64
      requires FatHeader(FatOf(img0))
      requires AtRound(buf, size, 0, total, slot, img0, t, before)
      modifies fat, dirBuf, disk.image, disk`log
      ensures AtRound(buf, size, total, total, slot, img0, t, before)
    {
      for i := 0 to total
        invariant AtRound(buf, size, i, total, slot, img0, t, before)
      {
        Round(buf, size, i, total, slot, img0, t, before);
      }
    }

    ghost method StartRounds(buf: array<byte>, size: nat, total: nat, slot: nat, img0: Image)
      requires Valid() && size <= buf.Length && slot < 64
      requires total == ClusterCount(size) < |Free(FatOf(img0))|
      requires fat[..] == FatOf(img0) && View() == img0
      ensures AtRound(buf, size, 0, total, slot, img0, dirBuf[..], disk.log)
    {
      PartFileStart(img0, Lowest(FatOf(img0), total), Pad(buf[..size]));
      GrownStart(dirBuf[slot], size);
    }

    method WriteFileLoop(buf: array<byte>, size: nat, total: nat, slot: nat, ghost img0: Image)
      requires Valid() && buf != disk.image && 0 < size <= buf.Length && slot < 64
      requires total == ClusterCount(size) < |Free(FatOf(img0))| && FatHeader(FatOf(img0))
      requires fat[..] == FatOf(img0) && View() == img0
      modifies fat, dirBuf, disk.image, disk`log
      ensures fat[..] == Link(FatOf(img0), Lowest(FatOf(img0), total), total)
      ensures View() == PartFile(img0, Lowest(FatOf(img0), total), Pad(buf[..size]), total, total)
      ensures OnlySlot(slot, old(dirBuf[..]), dirBuf[..])
      ensures dirBuf[slot] == Grown(old(dirBuf[slot]), size)
      ensures HarmlessSince(img0, old(disk.log), disk.log)
    {
      StartRounds(buf, size, total, slot, img0);
      AllRounds(buf, size, total, slot, img0, dirBuf[..], disk.log);
    }

    method CountClusters(size: nat) returns (total: nat)
      ensures total == ClusterCount(size)
    {
      total := size / 2048;
      if total * 2048 < size {
        total := total + 1;
      }
    }

    /** Everything `write` sets in the new entry except the size, which grows with the data. */
    method StampEntry(slot: nat, r: Request, cluster: u16)
      requires Valid() && slot < 64
      modifies dirBuf
      ensures OnlySlot(slot, old(dirBuf[..]), dirBuf[..])
      ensures Grown(dirBuf[slot], r.size) == FileEntry(old(dirBuf[slot]), r, cluster)
    {
      FileEntryIsGrown(dirBuf[slot], r, cluster);
      dirBuf[slot] := dirBuf[slot].(name := r.name, ext := r.ext, attribute := 0, user := UATTR_NOT_EMPTY,
                                     low := cluster);
    }

    method PrepareEntry(r: Request) returns (total: nat, slot: nat)
      requires Valid() && 0 < |Free(fat[..])| && First(dirBuf[..], FreeSlot, 0) < 64
      modifies dirBuf
      ensures total == ClusterCount(r.size) && slot == First(old(dirBuf[..]), FreeSlot, 0)
      ensures OnlySlot(slot, old(dirBuf[..]), dirBuf[..])
      ensures Free(fat[..])[0] < 512
           && Grown(dirBuf[slot], r.size) == FileEntry(old(dirBuf[slot]), r, Free(fat[..])[0])
    {
      var cluster := ScanFree(0);
      total := CountClusters(r.size);
      slot := ScanFreeSlot();
      StampEntry(slot, r, cluster);
    }

    method WriteFileBody(r: Request, buf: array<byte>)
      requires Valid() && buf != disk.image && 0 < r.size <= buf.Length
      requires WriteReady(View(), r) && Accepted(View(), r)
      requires fat[..] == FatOf(View()) && dirBuf[..] == TableOf(View(), r.parent)
      modifies fat, dirBuf, disk.image, disk`log
      ensures View() == WriteFile(old(View()), r, buf[..r.size])
      ensures HarmlessBut(old(View()), old(disk.log), disk.log, View())
      ensures r.parent != 1 ==> fat[..] == FatOf(View())
    {
      ghost var img0, t := View(), dirBuf[..];
      var total, slot := PrepareEntry(r);
      assert View() == img0;
      WriteFileLoop(buf, r.size, total, slot, img0);
      assert dirBuf[..] == t[slot := FileEntry(t[slot], r, Lowest(FatOf(img0), total)[0])];
      PartFileFat(img0, Lowest(FatOf(img0), total), Pad(buf[..r.size]), total, total);
      StoreTable(dirBuf, r.parent);
    }

    /** Takes the lowest free cluster and writes the new directory's table there. */
    method MakeDirectory(name: Name) returns (newDir: array<Entry>)
      requires Valid() && FatHeader(fat[..]) && |Free(fat[..])| > 0 && fat[..] == FatOf(View())
      modifies fat, disk.image, disk`log
      ensures fresh(newDir) && newDir.Length == 64
      ensures Free(old(fat[..]))[0] < 512 && newDir[0] == LiveEntry(name, NO_EXT, Free(old(fat[..]))[0], 0)
      ensures View() == NewDirectory(old(View()), newDir[0]) && fat[..] == FatOf(View())
      ensures HarmlessSince(old(View()), old(disk.log), disk.log)
    {
      ghost var img0 := View();
      var cluster := ScanFree(0);
      ghost var e := LiveEntry(name, NO_EXT, cluster, 0);
      NewDirectoryIsHarmless(img0, e, disk.log, PutFat(img0, WithCell(FatOf(img0), cluster, END_OF_FILE)),
                             NewDirectory(img0, e));
      fat[cluster] := END_OF_FILE;
      ghost var f := fat[..];
      assert View() == img0;
      StoreFat();
      newDir := new Entry[64](_ => ZERO_ENTRY);
      InitDirectoryTable(newDir, name, cluster);
      StoreTable(newDir, cluster);
      assert fat[..] == f;
      NewDirectoryTouchesOnlyFree(img0, newDir[0]);
    }

    method WriteDirectoryBody(r: Request)
      requires Valid() && r.size == 0 && WriteReady(View(), r) && Accepted(View(), r)
      requires fat[..] == FatOf(View()) && dirBuf[..] == TableOf(View(), r.parent)
      modifies fat, dirBuf, disk.image, disk`log
      ensures View() == WriteDirectory(old(View()), r)
      ensures HarmlessBut(old(View()), old(disk.log), disk.log, View())
      ensures r.parent != 1 ==> fat[..] == FatOf(View())
    {
      ghost var t := dirBuf[..];
      var newDir := MakeDirectory(r.name);
      assert dirBuf[..] == t;
      var slot := ScanFreeSlot();
      ghost var img1, f := View(), fat[..];
      dirBuf[slot] := newDir[0];
      assert View() == img1 && dirBuf[..] == t[slot := newDir[0]];
      StoreTable(dirBuf, r.parent);
      assert fat[..] == f;
    }

    /** `write`: 0 success, 1 already there, 2 not a valid parent. Every image the disk passes
        through before the last one differs from the old image only where nothing was in use. */
    method Write(r: Request, buf: array<byte>) returns (code: int)
      requires Valid() && buf != disk.image && r.size <= buf.Length && WriteReady(View(), r)
      modifies fat, dirBuf, disk.image, disk`log
      ensures Outcome(code, View()) == WriteOutcome(old(View()), r, buf[..r.size])
      ensures if code == 0 then HarmlessBut(old(View()), old(disk.log), disk.log, View()) else disk.log == old(disk.log)
      ensures r.parent != 1 ==> fat[..] == FatOf(View())
    {
      LoadTable(dirBuf, r.parent);
      LoadFat();
      assert View() == old(View());
      if fat[r.parent] != END_OF_FILE {
        return 2;
      }
      var i := Find(dirBuf, WriteKey(r), 0);
      if i < 64 {
        return 1;
      }
      if r.size == 0 {
        WriteDirectoryBody(r);
      } else {
        WriteFileBody(r, buf);
      }
      return 0;
    }

    // ---- read -------------------------------------------------------------------

    /** Reads the clusters met from `head` into the front of the buffer. */
    method ReadChain(head: nat, total: nat, buf: array<byte>)
      requires Valid() && buf != disk.image && buf as object != fat && 2048 * total <= buf.Length
      requires |Follow(fat[..], head, total)| == total
      modifies buf
      ensures buf[..] == Gather(View(), Follow(fat[..], head, total)) + old(buf[2048 * total..])
    {
      ghost var img, f, was := View(), fat[..], buf[..];
      ghost var ch := Follow(f, head, total);
      FollowSteps(f, head, total);
      var location := head;
      for j := 0 to total
        invariant location == if j == 0 then head else ch[j - 1]
        invariant fat[..] == f && View() == img
        invariant buf[..] == GatherTo(img, ch, j) + was[2048 * j..]
      {
        if j > 0 {
          location := fat[location];
        }
        assert location == ch[j];
        ghost var before := buf[..];
        disk.ReadCluster(buf, 2048 * j, location);
        GatherNext(img, ch, j, was, before, buf[..]);
      }
    }

    /** The matched entry is a file: copy its clusters and write the table back. */
    method ReadFound(r: Request, e: Entry, buf: array<byte>)
      requires Valid() && buf != disk.image && buf as object != fat && buf as object != dirBuf && r.parent < 512
      requires fat[..] == FatOf(View()) && dirBuf[..] == TableOf(View(), r.parent)
      requires |Follow(fat[..], HeadOf(e), ClusterCount(e.size))| == ClusterCount(e.size)
      requires 2048 * ClusterCount(e.size) <= buf.Length
      modifies buf, disk.image, disk`log
      ensures View() == old(View()) && fat[..] == old(fat[..])
      ensures buf[..] == Gather(View(), Follow(fat[..], HeadOf(e), ClusterCount(e.size)))
                         + old(buf[2048 * ClusterCount(e.size)..])
    {
      ghost var img := View();
      var total := CountClusters(e.size);
      ReadChain(HeadOf(e), total, buf);
      WriteBackIsNoOp(img, r.parent);
      ghost var bytes := buf[..];
      assert View() == img;
      StoreTable(dirBuf, r.parent);
      assert buf[..] == bytes;
    }

    /** `read`: 0 success or not found, 1 not a file, 2 buffer too small. Whole clusters are
        copied, so the buffer must hold the size rounded up. */
    method Read(r: Request, buf: array<byte>) returns (code: int)
      requires Valid() && buf != disk.image && buf as object != fat && buf as object != dirBuf
      requires ReadReady(View(), r) && |ReadReply(View(), r).bytes| <= buf.Length
      modifies fat, dirBuf, buf, disk.image, disk`log
      ensures View() == old(View()) && fat[..] == FatOf(View())
      ensures code == ReadReply(View(), r).code
      ensures buf[..] == ReadReply(View(), r).bytes + old(buf[|ReadReply(View(), r).bytes|..])
    {
      LoadTable(dirBuf, r.parent);
      LoadFat();
      var i := Find(dirBuf, ByPair(r.name, r.ext), 0);
      if i == 64 {
        return 0;
      }
      var e := dirBuf[i];
      if r.size < e.size {
        return 2;
      } else if e.attribute == 1 {
        return 1;
      }
      ReadFound(r, e, buf);
      return 0;
    }

    // ---- delete -----------------------------------------------------------------

    /** Frees the chain from `head`, following each link before clearing it. */
    method FreeChain(head: nat, ghost ch: seq<nat>)
      requires Valid() && Cells(ch) && EndsWell(fat[..], ch) && ch[0] == head
      modifies fat
      ensures fat[..] == Unlink(old(fat[..]), ch, |ch|)
    {
      ghost var f := fat[..];
      var location, flag := head, false;
      ghost var i := 0;
      while !flag
        invariant i <= |ch| && flag == (i == |ch|)
        invariant !flag ==> location == ch[i]
        invariant fat[..] == Unlink(f, ch, i)
        decreases |ch| - i
      {
        UnlinkCells(f, ch, i);
        assert f[ch[i]] == if i < |ch| - 1 then ch[i + 1] else END_OF_FILE;
        if fat[location] == END_OF_FILE {
          fat[location] := 0;
          flag := true;
        } else {
          var cluster_temp := location;
          location := fat[location];
          fat[cluster_temp] := 0;
        }
        i := i + 1;
      }
    }

    /** Clears one slot, frees the chain from `head` and writes both back, the map first. */
    method DropChain(head: nat, ghost ch: seq<nat>, index: nat, parent: nat)
      requires Valid() && parent < 512 && index < 64
      requires Cells(ch) && EndsWell(fat[..], ch) && ch[0] == head
      modifies fat, dirBuf, disk.image, disk`log
      ensures fat[..] == Unlink(old(fat[..]), ch, |ch|)
      ensures View() == PutTable(PutFat(old(View()), fat[..]), parent, old(dirBuf[..])[index := ZERO_ENTRY])
      ensures disk.log == old(disk.log) + [PutFat(old(View()), fat[..]), View()]
      ensures parent != 1 ==> fat[..] == FatOf(View())
    {
      ghost var img0, t := View(), dirBuf[..];
      dirBuf[index] := ZERO_ENTRY;
      FreeChain(head, ch);
      ghost var f := fat[..];
      assert View() == img0 && dirBuf[..] == t[index := ZERO_ENTRY];
      Commit(parent);
      assert fat[..] == f;
    }

    method DeleteFileBody(r: Request) returns (code: int)
      requires Valid() && DeleteReady(View(), r) && r.size != 0
      requires fat[..] == FatOf(View()) && dirBuf[..] == TableOf(View(), r.parent)
      modifies fat, dirBuf, disk.image, disk`log
      ensures Outcome(code, View()) == DeleteFile(old(View()), r)
      ensures disk.log == old(disk.log) + if code == 0 then [PutFat(old(View()), fat[..]), View()] else []
      ensures r.parent != 1 ==> fat[..] == FatOf(View())
    {
      var i := Find(dirBuf, ByPair(r.name, r.ext), 0);
      if i == 64 {
        return 1;
      }
      var location := HeadOf(dirBuf[i]);
      DropChain(location, ToEnd(fat[..], location, 512), i, r.parent);
      return 0;
    }

    /** Is there a live entry besides the table's own? */
    method IsOccupied(t: array<Entry>) returns (b: bool)
      requires t.Length == 64
      ensures b == !EmptyTable(t[..])
    {
      for i := 1 to 64
        invariant forall s :: 1 <= s < i ==> !Live(t[..][s])
      {
        if t[i].user == UATTR_NOT_EMPTY {
          assert Live(t[..][i]);
          return true;
        }
      }
      return false;
    }

    /** Looks at the named directory's own table in a temporary buffer. */
    method IsOccupiedAt(location: nat) returns (occupied: bool)
      requires Valid() && location < 512
      ensures occupied == !EmptyTable(TableOf(View(), location))
    {
      var temp_tab := new Entry[64](_ => ZERO_ENTRY);
      LoadTable(temp_tab, location);
      occupied := IsOccupied(temp_tab);
    }

    /** Frees one cell, clears one slot and writes both back, the map first. */
    method DropCell(location: nat, index: nat, parent: nat)
      requires Valid() && parent < 512 && location < 512 && index < 64
      modifies fat, dirBuf, disk.image, disk`log
      ensures fat[..] == WithCell(old(fat[..]), location, 0)
      ensures View() == PutTable(PutFat(old(View()), fat[..]), parent, old(dirBuf[..])[index := ZERO_ENTRY])
      ensures disk.log == old(disk.log) + [PutFat(old(View()), fat[..]), View()]
      ensures parent != 1 ==> fat[..] == FatOf(View())
    {
      ghost var img0, f, t := View(), fat[..], dirBuf[..];
      dirBuf[index] := ZERO_ENTRY;
      fat[location] := 0;
      assert fat[..] == WithCell(f, location, 0);
      assert View() == img0 && dirBuf[..] == t[index := ZERO_ENTRY];
      Commit(parent);
      assert fat[..] == WithCell(f, location, 0);
    }

    method DeleteDirectoryBody(r: Request) returns (code: int)
      requires Valid() && DeleteReady(View(), r) && r.size == 0
      requires fat[..] == FatOf(View()) && dirBuf[..] == TableOf(View(), r.parent)
      modifies fat, dirBuf, disk.image, disk`log
      ensures Outcome(code, View()) == DeleteDirectory(old(View()), r)
      ensures disk.log == old(disk.log) + if code == 0 then [PutFat(old(View()), fat[..]), View()] else []
      ensures r.parent != 1 ==> fat[..] == FatOf(View())
    {
      var location, index := 0, 0;
      var i := Find(dirBuf, ByName(r.name), 0);
      if i < 64 {
        location, index := HeadOf(dirBuf[i]), i;
      }
      var occupied := IsOccupiedAt(location);
      if occupied {
        return 2;
      }
      if r.name == ROOT_NAME {
        return -1;
      }
      DropCell(location, index, r.parent);
      return 0;
    }

    /** `delete`: 0 success, 1 not found, 2 directory not empty, -1 for a directory named ROOT. */
    method Delete(r: Request) returns (code: int)
      requires Valid() && DeleteReady(View(), r)
      modifies fat, dirBuf, disk.image, disk`log
      ensures Outcome(code, View()) == DeleteOutcome(old(View()), r)
      ensures disk.log == old(disk.log) + if code == 0 then [PutFat(old(View()), fat[..]), View()] else []
      ensures r.parent != 1 ==> fat[..] == FatOf(View())
    {
      LoadTable(dirBuf, r.parent);
      LoadFat();
      if r.size == 0 {
        code := DeleteDirectoryBody(r);
      } else {
        code := DeleteFileBody(r);
      }
    }

    // ---- initialize -------------------------------------------------------------

    method IsEmptyStorage() returns (b: bool)
      requires Valid()
      ensures b == !Signed(View())
    {
      var bootSector := new byte[512];
      disk.ReadBlocks(bootSector, 0, 0, 1);
      D.ClusterAt(disk.image[..], 0);
      assert bootSector[..] == View()[0][..512];
      b := bootSector[..] != Signature();
    }

    method WriteSignature()
      requires Valid()
      modifies disk.image, disk`log
      ensures View() == BootWritten(old(View())) && disk.log == old(disk.log) + [View()]
    {
      var signature := Signature();
      var bootSector := new byte[512](i requires 0 <= i < 512 => signature[i]);
      assert bootSector[..512] == signature;
      disk.WriteBootSector(bootSector);
    }

    /** The reserved cells of the map, then the map to the disk. */
    method WriteHeader()
      requires Valid()
      modifies fat, disk.image, disk`log
      ensures fat[..] == Header(old(fat[..]))
      ensures View() == PutFat(old(View()), fat[..]) && disk.log == old(disk.log) + [View()]
    {
      ghost var img, f0 := View(), fat[..];
      fat[0] := CLUSTER_0_VALUE;
      fat[1] := CLUSTER_1_VALUE;
      fat[2] := END_OF_FILE;
      ghost var f := fat[..];
      assert View() == img && f == Header(f0);
      StoreFat();
      assert fat[..] == f;
    }

    method WriteRootTable()
      requires Valid()
      modifies disk.image, disk`log
      ensures View() == PutTable(old(View()), ROOT, NewTable(RootEntry())) && disk.log == old(disk.log) + [View()]
    {
      var rootTable := new Entry[64](_ => ZERO_ENTRY);
      InitDirectoryTable(rootTable, ROOT_NAME, ROOT);
      StoreTable(rootTable, ROOT);
    }

    /** Writes the signature, the map and the root table. */
    method CreateFat32()
      requires Valid()
      modifies fat, disk.image, disk`log
      ensures View() == Formatted(old(View()), old(fat[..]))
      ensures fat[..] == Header(old(fat[..]))
      ensures disk.log == old(disk.log) + [BootWritten(old(View())), MapWritten(old(View()), old(fat[..])), View()]
    {
      WriteSignature();
      WriteHeader();
      WriteRootTable();
    }

    /** Formats a disk without the signature; otherwise loads its map. */
    method Initialize()
      requires Valid()
      modifies fat, disk.image, disk`log
      ensures View() == Initialized(old(View()), old(fat[..]))
      ensures fat[..] == FatOf(View())
    {
      var empty := IsEmptyStorage();
      if empty {
        ghost var img, f := View(), fat[..];
        CreateFat32();
        FormattedFat(img, f);
      } else {
        LoadFat();
      }
    }
  }

  lemma FormattedFat(img: Image, cache: Fat)
    ensures FatOf(Formatted(img, cache)) == Header(cache)
  {
    PutFatMeta(ReplaceBootSector(img, Signature()), Header(cache));
  }

  /** Bytes recorded after `i` rounds. */
  function Done(size: nat, i: nat): nat {
    if 2048 * i <= size then 2048 * i else size
  }

  /** The tables agree in every slot but one. */
  ghost predicate OnlySlot(slot: nat, t: seq<Entry>, t': seq<Entry>) {
    |t| == |t'| && forall k :: 0 <= k < |t| && k != slot ==> t'[k] == t[k]
  }

  lemma GrownStart(e: Entry, size: nat)
    ensures Grown(e, Done(size, 0)) == e
  {
  }

  lemma FileEntryIsGrown(e: Entry, r: Request, head: u16)
    ensures FileEntry(e, r, head)
         == Grown(e.(name := r.name, ext := r.ext, attribute := 0, user := UATTR_NOT_EMPTY, low := head), r.size)
  {
  }

  lemma GrownAgain(e: Entry, size: nat, i: nat)
    requires i < ClusterCount(size)
    ensures Grown(Grown(e, Done(size, i)), ChunkSize(size, i)) == Grown(e, Done(size, i + 1))
  {
    assert Done(size, i + 1) == Done(size, i) + ChunkSize(size, i);
    WrapTwice(e.size + Done(size, i), ChunkSize(size, i));
  }

  lemma WrapTwice(a: nat, b: nat)
    ensures (a % 0x1_0000_0000 + b) % 0x1_0000_0000 == (a + b) % 0x1_0000_0000
  {
  }

  function ChunkSize(size: nat, i: nat): nat
    requires i < ClusterCount(size)
  {
    if i < ClusterCount(size) - 1 then 2048 else size - 2048 * i
  }

  function Grown(e: Entry, n: nat): Entry {
    e.(size := (e.size + n) % 0x1_0000_0000)
  }

  /** A buffer filled up to cluster `j` of the chain, after the next cluster is read into place. */
  lemma GatherNext(img: Image, ch: seq<nat>, j: nat, was: seq<byte>, before: seq<byte>, after: seq<byte>)
    requires j < |ch| && 2048 * j + 2048 <= |was| && forall i :: 0 <= i < |ch| ==> ch[i] < 512
    requires before == GatherTo(img, ch, j) + was[2048 * j..]
    requires after == before[..2048 * j] + img[ch[j]] + before[2048 * j + 2048..]
    ensures after == GatherTo(img, ch, j + 1) + was[2048 * (j + 1)..]
  {
  }
}
