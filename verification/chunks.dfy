/** Chunk index arithmetic of a region file (Application.iter_chunks): slot i
    of the 1024-entry offset table holds chunk (i % 32 + rx*32, i / 32 + rz*32). */
module Chunks {
  import opened Geometry

  /** Chunks along one side of a region. */
  const RegionWidth := 32

  /** Entries in a region's offset table (32 x 32). */
  const SlotCount := 1024

  /** The chunk stored in slot i of region (rx, rz); the index is non-negative,
      so Python 2's floor division agrees with Dafny's. A slot of the
      1024-entry table lands in the region's own 32 x 32 block. */
  function ChunkOfSlot(rx: int, rz: int, i: nat): (c: Coord)
    ensures i < SlotCount ==>
      rx * RegionWidth <= c.x < rx * RegionWidth + RegionWidth &&
      rz * RegionWidth <= c.z < rz * RegionWidth + RegionWidth
  {
    Coord(i % RegionWidth + rx * RegionWidth, i / RegionWidth + rz * RegionWidth)
  }

  /** The inverse view the region format uses: the region holding a chunk
      (floor division) and the chunk's slot within it. */
  function RegionOfChunk(c: Coord): Coord
  {
    Coord(c.x / RegionWidth, c.z / RegionWidth)
  }

  function SlotOfChunk(c: Coord): nat
  {
    (c.z % RegionWidth) * RegionWidth + c.x % RegionWidth
  }

  /** Slot i < 1024 of region (rx, rz) yields a chunk of that region, and
      the slot can be recovered from the chunk. */
  lemma SlotRoundTrip(rx: int, rz: int, i: nat)
    requires i < SlotCount
    ensures RegionOfChunk(ChunkOfSlot(rx, rz, i)) == Coord(rx, rz)
    ensures SlotOfChunk(ChunkOfSlot(rx, rz, i)) == i
  {

  }

  /** Distinct slots of one region yield distinct chunks. */
  lemma ChunkOfSlotInjective(rx: int, rz: int, i: nat, j: nat)
    ensures ChunkOfSlot(rx, rz, i) == ChunkOfSlot(rx, rz, j) ==> i == j
  {

  }

  /** The chunks iter_chunks yields, in slot order: one per non-zero offset,
      so never more chunks than slots. */
  function IterChunks(rx: int, rz: int, offsets: seq<int>): (cs: seq<Coord>)
    ensures |cs| <= |offsets|
  {
    if offsets == [] then []
    else
      var n := |offsets| - 1;
      IterChunks(rx, rz, offsets[..n]) + (if offsets[n] != 0 then [ChunkOfSlot(rx, rz, n)] else [])
  }

  /** Every yielded chunk comes from a slot with a non-zero offset, and every
      such slot is yielded. */
  lemma {:induction false} ChunksSlots(rx: int, rz: int, offsets: seq<int>)
    ensures forall k :: 0 <= k < |IterChunks(rx, rz, offsets)| ==>
      exists i :: 0 <= i < |offsets| && offsets[i] != 0 && IterChunks(rx, rz, offsets)[k] == ChunkOfSlot(rx, rz, i)
    ensures forall i :: 0 <= i < |offsets| && offsets[i] != 0 ==> ChunkOfSlot(rx, rz, i) in IterChunks(rx, rz, offsets)
  {
    if offsets != [] {
      var n := |offsets| - 1;
      var front := offsets[..n];
      ChunksSlots(rx, rz, front);
      var cs := IterChunks(rx, rz, offsets);
      var fs := IterChunks(rx, rz, front);
      forall k | 0 <= k < |cs|
        ensures exists i :: 0 <= i < |offsets| && offsets[i] != 0 && cs[k] == ChunkOfSlot(rx, rz, i)
      {
        if k < |fs| {
          assert cs[k] == fs[k];
          var i :| 0 <= i < |front| && front[i] != 0 && fs[k] == ChunkOfSlot(rx, rz, i);
          assert offsets[i] == front[i];
        } else {
          assert cs[k] == ChunkOfSlot(rx, rz, n);
        }
      }
      forall i | 0 <= i < |offsets| && offsets[i] != 0
        ensures ChunkOfSlot(rx, rz, i) in cs
      {
        if i < n {
          assert front[i] == offsets[i];
          assert ChunkOfSlot(rx, rz, i) in fs;
        } else {
          assert cs[|cs| - 1] == ChunkOfSlot(rx, rz, i);
        }
      }
    } else {
      assert IterChunks(rx, rz, offsets) == [];
    }
  }

  /** No chunk is yielded twice. */
  lemma {:induction false} ChunksDistinct(rx: int, rz: int, offsets: seq<int>)
    ensures forall k, l :: 0 <= k < l < |IterChunks(rx, rz, offsets)| ==>
      IterChunks(rx, rz, offsets)[k] != IterChunks(rx, rz, offsets)[l]
  {
    if offsets != [] {
      var n := |offsets| - 1;
      var front := offsets[..n];
      ChunksDistinct(rx, rz, front);
      ChunksSlots(rx, rz, front);
      var cs := IterChunks(rx, rz, offsets);
      var fs := IterChunks(rx, rz, front);
      if offsets[n] != 0 {
        forall k | 0 <= k < |fs|
          ensures fs[k] != ChunkOfSlot(rx, rz, n)
        {
          var i :| 0 <= i < |front| && front[i] != 0 && fs[k] == ChunkOfSlot(rx, rz, i);
          ChunkOfSlotInjective(rx, rz, i, n);
        }
      }
    }
  }

  /** For an offset table of at most 1024 entries, every yielded chunk lies
      in the region's own 32 x 32 block. */
  lemma ChunksInRegion(rx: int, rz: int, offsets: seq<int>)
    requires |offsets| <= SlotCount
    ensures forall c :: c in IterChunks(rx, rz, offsets) ==>
      rx * RegionWidth <= c.x < rx * RegionWidth + RegionWidth &&
      rz * RegionWidth <= c.z < rz * RegionWidth + RegionWidth
  {
    ChunksSlots(rx, rz, offsets);
  }
}
