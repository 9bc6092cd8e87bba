/** What an accepted extent list means for the file: src/storage.rs, `validate_file_extents`. */
module Extents {
  import opened Base
  import opened Storage

  function TotalLength(extents: seq<BlockExtent>): nat {
    if extents == [] then 0 else TotalLength(extents[..|extents| - 1]) + extents[|extents| - 1].length
  }

  /** The integers of [lo, hi). */
  function Interval(lo: int, hi: int): (r: set<int>)
    requires lo <= hi
    ensures forall x :: x in r <==> lo <= x < hi
    ensures |r| == hi - lo
    decreases hi - lo
  {
    if lo == hi then {} else Interval(lo, hi - 1) + {hi - 1}
  }

  function OffsetsOf(extent: BlockExtent): set<int> {
    Interval(extent.fileOffset, extent.fileOffset + extent.length)
  }

  /** The file offsets that some extent supplies; the rest of the file reads as zeros. */
  function StoredOffsets(extents: seq<BlockExtent>): set<int> {
    if extents == [] then {} else StoredOffsets(extents[..|extents| - 1]) + OffsetsOf(extents[|extents| - 1])
  }

  lemma {:induction false} StoredOffsetsMeaning(extents: seq<BlockExtent>, offset: int)
    ensures offset in StoredOffsets(extents) <==> exists i :: 0 <= i < |extents| && Covers(extents[i], offset)
    decreases |extents|
  {
    if extents != [] {
      var init, last := extents[..|extents| - 1], |extents| - 1;
      StoredOffsetsMeaning(init, offset);
      if i :| 0 <= i < |extents| && Covers(extents[i], offset) {
        assert i < last ==> Covers(init[i], offset);
      }
      if i :| 0 <= i < |init| && Covers(init[i], offset) {
        assert Covers(extents[i], offset);
      }
      if offset in OffsetsOf(extents[last]) {
        assert Covers(extents[last], offset);
      }
    }
  }

  /** Each stored offset is supplied by exactly one extent, from a named block and a position
      in it that a u64 can hold. */
  lemma SuppliedByOne(extents: seq<BlockExtent>, fileSize: u64, offset: int) returns (i: nat)
    requires ExtentsValid(extents, fileSize) && offset in StoredOffsets(extents)
    ensures i < |extents| && Covers(extents[i], offset)
    ensures forall j | 0 <= j < |extents| && j != i :: !Covers(extents[j], offset)
    ensures extents[i].block != "" && extents[i].blockOffset + (offset - extents[i].fileOffset) < U64_MAX
  {
    StoredOffsetsMeaning(extents, offset);
    i :| 0 <= i < |extents| && Covers(extents[i], offset);
  }

  /** Everything stored by the earlier extents lies before the last one. */
  lemma StoredBeforeLast(extents: seq<BlockExtent>, fileSize: u64, offset: int)
    requires ExtentsValid(extents, fileSize) && extents != []
    requires offset in StoredOffsets(extents[..|extents| - 1])
    ensures 0 <= offset < extents[|extents| - 1].fileOffset
  {
    var init := extents[..|extents| - 1];
    StoredOffsetsMeaning(init, offset);
    var i :| 0 <= i < |init| && Covers(init[i], offset);
    assert extents[i] == init[i];
  }

  /** Nothing is counted twice: the stored offsets number exactly the sum of the lengths,
      all of them inside the file. */
  lemma {:induction false} LengthsAddUp(extents: seq<BlockExtent>, fileSize: u64)
    requires ExtentsValid(extents, fileSize)
    ensures |StoredOffsets(extents)| == TotalLength(extents)
    ensures forall offset | offset in StoredOffsets(extents) :: 0 <= offset < fileSize
    decreases |extents|
  {
    hide Interval, Covers;
    if extents != [] {
      var init, last := extents[..|extents| - 1], extents[|extents| - 1];
      LengthsAddUp(init, fileSize);
      forall offset | offset in StoredOffsets(init) ensures offset !in OffsetsOf(last) {
        StoredBeforeLast(extents, fileSize, offset);
      }
      assert StoredOffsets(init) !! OffsetsOf(last);
    }
  }

  lemma {:induction false} LengthsPositive(extents: seq<BlockExtent>, fileSize: u64)
    requires ExtentsValid(extents, fileSize)
    ensures |extents| <= TotalLength(extents)
    decreases |extents|
  {
    if extents != [] { LengthsPositive(extents[..|extents| - 1], fileSize); }
  }

  /** There are at most as many extents as stored bytes, and at most as many of those as the
      file has. */
  lemma StoredWithinFile(extents: seq<BlockExtent>, fileSize: u64)
    requires ExtentsValid(extents, fileSize)
    ensures |extents| <= TotalLength(extents) <= fileSize
  {
    LengthsPositive(extents, fileSize);
    LengthsAddUp(extents, fileSize);
    var file, stored := Interval(0, fileSize), StoredOffsets(extents);
    assert file == stored + (file - stored);
  }
}
