/** The block device: 4 MiB of bytes, read and written in 512-byte blocks, four to a cluster. */
module Disk {
  import opened Format

  class Disk {
    const image: array<byte>
    /** Every image the storage has had after a cluster write, oldest first. */
    ghost var log: seq<Image>

    ghost predicate Valid()
      reads this
    {
      image.Length == 0x40_0000
    }

    ghost function View(): (img: Image)
      reads this, image
      requires Valid()
    {
      Clusters(image[..])
    }

    constructor ()
      ensures Valid() && fresh(this) && fresh(image) && log == []
    {
      image := new byte[0x40_0000];
      log := [];
    }

    method ReadBlocks(buf: array<byte>, off: nat, lba: nat, count: nat)
      requires Valid() && buf != image
      requires off + 512 * count <= buf.Length && 512 * (lba + count) <= image.Length
      modifies buf
      ensures buf[..] == old(buf[..off]) + image[512 * lba..512 * (lba + count)] + old(buf[off + 512 * count..])
    {
      for i := 0 to count
        invariant buf[..] == old(buf[..off]) + image[512 * lba..512 * (lba + i)] + old(buf[off + 512 * i..])
      {
        forall j | 0 <= j < 512 {
          buf[off + 512 * i + j] := image[512 * (lba + i) + j];
        }
      }
    }

    method WriteBlocks(buf: array<byte>, off: nat, lba: nat, count: nat)
      requires Valid() && buf != image
      requires off + 512 * count <= buf.Length && 512 * (lba + count) <= image.Length
      modifies image
      ensures image[..] == old(image[..512 * lba]) + buf[off..off + 512 * count] + old(image[512 * (lba + count)..])
    {
      ghost var was := image[..];
      for i := 0 to count
        invariant image[..] == was[..512 * lba] + buf[off..off + 512 * i] + was[512 * (lba + i)..]
      {
        assert buf[off..off + 512 * (i + 1)] == buf[off..off + 512 * i] + buf[off + 512 * i..off + 512 * (i + 1)];
        forall j | 0 <= j < 512 {
          image[512 * (lba + i) + j] := buf[off + 512 * i + j];
        }
      }
    }

    method ReadCluster(buf: array<byte>, off: nat, c: nat)
      requires Valid() && buf != image && off + 2048 <= buf.Length && c < 2048
      modifies buf
      ensures buf[..] == old(buf[..off]) + View()[c] + old(buf[off + 2048..])
    {
      ClusterAt(image[..], c);
      ReadBlocks(buf, off, 4 * c, 4);
    }

    method WriteCluster(buf: array<byte>, off: nat, c: nat)
      requires Valid() && buf != image && off + 2048 <= buf.Length && c < 2048
      modifies image, `log
      ensures View() == old(View())[c := buf[off..off + 2048]]
      ensures log == old(log) + [View()]
    {
      WriteBlocks(buf, off, 4 * c, 4);
      ViewOfBytes(old(image[..]), image[..], buf[off..off + 2048], c);
      log := log + [View()];
    }

    /** One block to address 0: the boot sector is the first quarter of cluster 0. */
    method WriteBootSector(buf: array<byte>)
      requires Valid() && buf != image && buf.Length == 512
      modifies image, `log
      ensures View() == old(View())[0 := buf[..512] + old(View())[0][512..]]
      ensures log == old(log) + [View()]
    {
      ghost var was := image[..];
      WriteBlocks(buf, 0, 0, 1);
      assert image[..] == buf[..512] + was[512..];
      ViewOfBytes(was, image[..], buf[..512] + was[512..2048], 0);
      ClusterAt(was, 0);
      assert was[0..2048][512..] == was[512..2048];
      log := log + [View()];
    }
  }

  /** Consecutive clusters of a byte string. */
  ghost function Clusters(bytes: seq<byte>): (r: seq<Cluster>)
    requires |bytes| % 2048 == 0
    ensures |bytes| == 2048 * |r|
  {
    if bytes == [] then [] else [bytes[..2048]] + Clusters(bytes[2048..])
  }

  lemma {:induction false} ClusterAt(bytes: seq<byte>, k: nat)
    requires |bytes| % 2048 == 0 && 2048 * k < |bytes|
    ensures Clusters(bytes)[k] == bytes[2048 * k..2048 * k + 2048]
  {
    if k > 0 {
      ClusterAt(bytes[2048..], k - 1);
    }
  }

  lemma ViewOfBytes(old_: seq<byte>, new_: seq<byte>, data: Cluster, c: nat)
    requires |old_| == |new_| == 0x40_0000 && c < 2048
    requires new_ == old_[..2048 * c] + data + old_[2048 * c + 2048..]
    ensures Clusters(new_) == Clusters(old_)[c := data]
  {
    forall k | 0 <= k < 2048
      ensures Clusters(new_)[k] == Clusters(old_)[c := data][k]
    {
      ClusterAt(new_, k);
      ClusterAt(old_, k);
      SliceAfterSplice(old_, new_, data, c, k);
    }
  }

  lemma SliceAfterSplice(old_: seq<byte>, new_: seq<byte>, data: Cluster, c: nat, k: nat)
    requires |old_| == |new_| == 0x40_0000 && c < 2048 && k < 2048
    requires new_ == old_[..2048 * c] + data + old_[2048 * c + 2048..]
    ensures new_[2048 * k..2048 * k + 2048] == if k == c then data else old_[2048 * k..2048 * k + 2048]
  {
    var lo := 2048 * k;
    if k == c {
      assert new_[lo..lo + 2048] == data;
    } else {
      assert k < c ==> lo + 2048 <= 2048 * c;
      assert k > c ==> lo >= 2048 * c + 2048;
      assert forall i :: lo <= i < lo + 2048 ==> new_[i] == old_[i];
    }
  }
}
