/** Unfinished writes: images that differ from an old one only where nothing was in use. */
module Crash {
  import opened Format
  import opened Allocation
  import opened Storage
  import opened DriverSpec

  /** `img` keeps every taken cell of the old map and every cluster the old map did not call free. */
  ghost predicate OnlyFreeTouched(img0: Image, img: Image) {
    && (forall c :: 0 <= c < 512 && FatOf(img0)[c] != 0 ==> FatOf(img)[c] == FatOf(img0)[c])
    && (forall c :: 0 <= c < 2048 && c != 1 && (c < 512 ==> FatOf(img0)[c] != 0) ==> img[c] == img0[c])
  }

  ghost predicate FreshCells(img0: Image, ch: seq<nat>) {
    Cells(ch) && forall i :: 0 <= i < |ch| ==> FatOf(img0)[ch[i]] == 0
  }

  lemma PartFileTouchesOnlyFree(img0: Image, ch: seq<nat>, bytes: seq<byte>, i: nat, j: nat)
    requires FreshCells(img0, ch) && i <= |ch| && j <= |ch| && 2048 * i <= |bytes|
    ensures OnlyFreeTouched(img0, PartFile(img0, ch, bytes, i, j))
  {
    var img := PartFile(img0, ch, bytes, i, j);
    LinkCells(FatOf(img0), ch, j);
    ScatterCells(img0, ch, bytes, i);
    PutFatMeta(Scatter(img0, ch, bytes, i), Link(FatOf(img0), ch, j));
    forall c | 0 <= c < 512 && FatOf(img0)[c] != 0
      ensures c !in ch
    {
    }
    forall c | 0 <= c < 2048 && c != 1 && (c < 512 ==> FatOf(img0)[c] != 0)
      ensures img[c] == img0[c]
    {
      assert c !in ch;
    }
  }

  lemma NewDirectoryTouchesOnlyFree(img0: Image, e: Entry)
    requires 3 <= e.low < 512 && FatOf(img0)[e.low] == 0
    ensures OnlyFreeTouched(img0, PutFat(img0, WithCell(FatOf(img0), e.low, END_OF_FILE)))
    ensures OnlyFreeTouched(img0, NewDirectory(img0, e))
    ensures FatOf(NewDirectory(img0, e)) == WithCell(FatOf(img0), e.low, END_OF_FILE)
  {
    var f := WithCell(FatOf(img0), e.low, END_OF_FILE);
    PutFatMeta(img0, f);
  }

  lemma PartFileFat(img0: Image, ch: seq<nat>, bytes: seq<byte>, i: nat, j: nat)
    requires i <= |ch| && j <= |ch| && 2048 * i <= |bytes| && forall k :: 0 <= k < |ch| ==> ch[k] < 512
    ensures FatOf(PartFile(img0, ch, bytes, i, j)) == Link(FatOf(img0), ch, j)
  {
    PutFatMeta(Scatter(img0, ch, bytes, i), Link(FatOf(img0), ch, j));
  }

  /** Writing the next chunk of data, then the next link. */
  lemma PartFileData(img0: Image, ch: seq<nat>, bytes: seq<byte>, i: nat)
    requires i < |ch| && 2048 * (i + 1) <= |bytes| && forall k :: 0 <= k < |ch| ==> ch[k] < 512
    requires ch[i] != 1
    ensures PartFile(img0, ch, bytes, i, i)[ch[i] := Chunk(bytes, i)] == PartFile(img0, ch, bytes, i + 1, i)
  {
  }

  lemma PartFileLink(img0: Image, ch: seq<nat>, bytes: seq<byte>, i: nat)
    requires i < |ch| && 2048 * (i + 1) <= |bytes| && forall k :: 0 <= k < |ch| ==> ch[k] < 512
    ensures PutFat(PartFile(img0, ch, bytes, i + 1, i), Link(FatOf(img0), ch, i + 1))
         == PartFile(img0, ch, bytes, i + 1, i + 1)
  {
  }

  lemma PartFileStart(img0: Image, ch: seq<nat>, bytes: seq<byte>)
    requires forall k :: 0 <= k < |ch| ==> ch[k] < 512
    ensures PartFile(img0, ch, bytes, 0, 0) == img0
  {
    WriteBackIsNoOp(img0, 0);
  }

  /** The log grew, and every image it gained so far differs from `img0` only where nothing was in use. */
  ghost predicate HarmlessSince(img0: Image, before: seq<Image>, log: seq<Image>) {
    before <= log && forall k :: |before| <= k < |log| ==> OnlyFreeTouched(img0, log[k])
  }

  lemma RoundIsHarmless(img0: Image, ch: seq<nat>, bytes: seq<byte>, i: nat, before: seq<Image>, log: seq<Image>)
    requires FreshCells(img0, ch) && i < |ch| && 2048 * (i + 1) <= |bytes| && HarmlessSince(img0, before, log)
    ensures HarmlessSince(img0, before,
              log + [PartFile(img0, ch, bytes, i + 1, i), PartFile(img0, ch, bytes, i + 1, i + 1)])
  {
    PartFileTouchesOnlyFree(img0, ch, bytes, i + 1, i);
    PartFileTouchesOnlyFree(img0, ch, bytes, i + 1, i + 1);
  }

  /** ... and every image but the last, which is `img`. */
  ghost predicate HarmlessBut(img0: Image, before: seq<Image>, log: seq<Image>, img: Image) {
    |log| > |before| && log[|log| - 1] == img && HarmlessSince(img0, before, log[..|log| - 1])
  }

  lemma NewDirectoryIsHarmless(img0: Image, e: Entry, before: seq<Image>, img1: Image, img2: Image)
    requires 3 <= e.low < 512 && FatOf(img0)[e.low] == 0
    requires img1 == PutFat(img0, WithCell(FatOf(img0), e.low, END_OF_FILE)) && img2 == NewDirectory(img0, e)
    ensures HarmlessSince(img0, before, before + [img1] + [img2])
  {
    NewDirectoryTouchesOnlyFree(img0, e);
  }
}
