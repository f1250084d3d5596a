/**
 The caches in front of the block device: one that collects what is to be programmed, and one that keeps what was
 read. Together they behave as the device would without them.
 */
module BlockCache {
  import opened Words
  import opened Device

  const NULL_BLOCK: nat := 0xffff_ffff_ffff_ffff

  /** lfs_cache_t */
  class Cache {
    const buffer: array<byte>
    var block: nat
    var offset: nat
    var size: nat

    constructor (cacheSize: nat)
      ensures fresh(buffer) && buffer.Length == cacheSize && block == NULL_BLOCK && offset == 0 && size == 0
    {
      buffer, block, offset, size := new byte[cacheSize](_ => 0), NULL_BLOCK, 0, 0;
    }

    /** The part of the buffer that is in use. */
    function Held(): seq<byte>
      reads this, buffer
      requires size <= buffer.Length
    {
      buffer[..size]
    }

    /** lfs_cache_drop */
    method Discard()
      modifies this`block
      ensures block == NULL_BLOCK
    {
      block := NULL_BLOCK;
    }

    /** lfs_cache_zero */
    method Zero()
      modifies this
      ensures block == NULL_BLOCK && offset == 0 && size == 0
    {
      block, offset, size := NULL_BLOCK, 0, 0;
    }

    /** memcpy into the buffer */
    method Put(at: nat, data: seq<byte>)
      requires at + |data| <= buffer.Length
      modifies buffer
      ensures buffer[..] == Overlay(old(buffer[..]), at, data)
    {
      forall i | 0 <= i < |data| {
        buffer[at + i] := data[i];
      }
    }
  }

  /** A cache holds a copy of part of a block. */
  predicate Copies(blocks: seq<seq<byte>>, block: nat, offset: nat, held: seq<byte>) {
    block != NULL_BLOCK ==>
      block < |blocks| && offset + |held| <= |blocks[block]| && blocks[block][offset..offset + |held|] == held
  }

  /** A cache holds bytes for part of a block. */
  predicate Covers(blocks: seq<seq<byte>>, block: nat, offset: nat, held: seq<byte>) {
    block != NULL_BLOCK ==> block < |blocks| && offset + |held| <= |blocks[block]|
  }

  /** The blocks as they will be once what is held was programmed. */
  function Overlaid(blocks: seq<seq<byte>>, block: nat, offset: nat, held: seq<byte>): (r: seq<seq<byte>>)
    requires Covers(blocks, block, offset, held)
    ensures |r| == |blocks|
  {
    if block == NULL_BLOCK then blocks else blocks[block := Overlay(blocks[block], offset, held)]
  }

  // ---------- reading ----------

  /**
   Where a piece of the blocks as they will be comes from: from the write cache within its range, from the device
   before and after.
   */
  lemma OverlaidPiece(blocks: seq<seq<byte>>, wblock: nat, woffset: nat, held: seq<byte>, block: nat, a: nat, b: nat)
    requires Covers(blocks, wblock, woffset, held) && block < |blocks| && a <= b <= |blocks[block]|
    requires block != NULL_BLOCK
    ensures |Overlaid(blocks, wblock, woffset, held)[block]| == |blocks[block]|
    ensures block == wblock && woffset <= a && b <= woffset + |held| ==>
              Overlaid(blocks, wblock, woffset, held)[block][a..b] == held[a - woffset..b - woffset]
    ensures block != wblock || b <= woffset || woffset + |held| <= a ==>
              Overlaid(blocks, wblock, woffset, held)[block][a..b] == blocks[block][a..b]
  {
    if block == wblock {
      var r := Overlay(blocks[block], woffset, held);
      if woffset <= a && b <= woffset + |held| {
        assert forall i :: a <= i < b ==> r[i] == held[i - woffset];
      } else if b <= woffset || woffset + |held| <= a {
        assert forall i :: a <= i < b ==> r[i] == blocks[block][i];
      }
    }
  }

  lemma CopiedPiece(blocks: seq<seq<byte>>, block: nat, offset: nat, held: seq<byte>, a: nat, b: nat)
    requires Copies(blocks, block, offset, held) && block != NULL_BLOCK && offset <= a <= b <= offset + |held|
    ensures held[a - offset..b - offset] == blocks[block][a..b]
  {
    assert forall i :: a <= i < b ==> blocks[block][i] == blocks[block][offset..offset + |held|][i - offset];
  }

  /** The two caches and the device, with the sizes they were configured with; the read cache may be stale. */
  ghost predicate Waiting(dev: BlockDevice, w: Cache, r: Cache)
    reads dev, w, r, w.buffer, r.buffer
  {
    && dev.Valid() && w != r && w.buffer != r.buffer && 0 < r.buffer.Length
    && |dev.blocks| <= NULL_BLOCK
    && w.size <= w.buffer.Length && r.size <= r.buffer.Length
    && Covers(dev.blocks, w.block, w.offset, w.Held())
  }

  /** What the read cache holds is what the device holds. */
  ghost predicate Ready(dev: BlockDevice, w: Cache, r: Cache)
    reads dev, w, r, w.buffer, r.buffer
  {
    Waiting(dev, w, r) && Copies(dev.blocks, r.block, r.offset, r.Held())
  }

  /** The blocks as a reader is to see them: with the write cache, if it is passed. */
  ghost function View(dev: BlockDevice, w: Cache, useWrite: bool): (v: seq<seq<byte>>)
    reads dev, w, w.buffer
    requires w.size <= w.buffer.Length && Covers(dev.blocks, w.block, w.offset, w.Held())
    ensures |v| == |dev.blocks|
  {
    if useWrite then Overlaid(dev.blocks, w.block, w.offset, w.Held()) else dev.blocks
  }

  lemma ViewPiece(dev: BlockDevice, w: Cache, useWrite: bool, block: nat, a: nat, b: nat)
    requires dev.Valid() && w.size <= w.buffer.Length && Covers(dev.blocks, w.block, w.offset, w.Held())
    requires block < |dev.blocks| <= NULL_BLOCK && a <= b <= dev.blockSize
    ensures |View(dev, w, useWrite)[block]| == dev.blockSize
    ensures useWrite && block == w.block && w.offset <= a && b <= w.offset + w.size ==>
              View(dev, w, useWrite)[block][a..b] == w.Held()[a - w.offset..b - w.offset]
    ensures !useWrite || block != w.block || b <= w.offset || w.offset + w.size <= a ==>
              View(dev, w, useWrite)[block][a..b] == dev.blocks[block][a..b]
  {
    hide Overlaid;
    OverlaidPiece(dev.blocks, w.block, w.offset, w.Held(), block, a, b);
  }

  /** The read cache has the byte at the offset. */
  predicate InCache(c: Cache, block: nat, offset: nat)
    reads c
  {
    block == c.block && c.offset <= offset < c.offset + c.size
  }

  /** The range is not touched by what is waiting to be programmed, as far as the reader is to see that. */
  predicate Clear(w: Cache, useWrite: bool, block: nat, a: nat, b: nat)
    reads w
  {
    !useWrite || block != w.block || b <= w.offset || w.offset + w.size <= a
  }

  lemma SlicePiece(s: seq<byte>, n: nat, a: nat, b: nat)
    requires a <= b <= n <= |s|
    ensures s[..n][a..b] == s[a..b]
  {
  }

  lemma FromWriteCache(dev: BlockDevice, w: Cache, r: Cache, block: nat, a: nat, b: nat)
    requires Ready(dev, w, r) && block < |dev.blocks| && block == w.block && w.offset <= a <= b <= w.offset + w.size
    requires b <= dev.blockSize
    ensures b - w.offset <= w.buffer.Length && |View(dev, w, true)[block]| == dev.blockSize
    ensures w.buffer[a - w.offset..b - w.offset] == View(dev, w, true)[block][a..b]
  {
    hide View, Copies, Covers;
    ViewPiece(dev, w, true, block, a, b);
    SlicePiece(w.buffer[..], w.size, a - w.offset, b - w.offset);
  }

  lemma FromReadCache(dev: BlockDevice, w: Cache, useWrite: bool, r: Cache, block: nat, a: nat, b: nat)
    requires Ready(dev, w, r) && block < |dev.blocks| && block == r.block && r.offset <= a <= b <= r.offset + r.size
    requires b <= dev.blockSize
    requires Clear(w, useWrite, block, a, b)
    ensures b - r.offset <= r.buffer.Length && |View(dev, w, useWrite)[block]| == dev.blockSize
    ensures r.buffer[a - r.offset..b - r.offset] == View(dev, w, useWrite)[block][a..b]
  {
    hide View, Copies, Covers;
    ViewPiece(dev, w, useWrite, block, a, b);
    CopiedPiece(dev.blocks, r.block, r.offset, r.Held(), a, b);
    SlicePiece(r.buffer[..], r.size, a - r.offset, b - r.offset);
  }

  lemma FromDevice(dev: BlockDevice, w: Cache, useWrite: bool, r: Cache, block: nat, a: nat, b: nat)
    requires Ready(dev, w, r) && block < |dev.blocks| && a <= b <= dev.blockSize && Clear(w, useWrite, block, a, b)
    ensures |dev.blocks[block]| == |View(dev, w, useWrite)[block]| == dev.blockSize
    ensures dev.blocks[block][a..b] == View(dev, w, useWrite)[block][a..b]
  {
    hide View, Copies, Covers;
    ViewPiece(dev, w, useWrite, block, a, b);
  }

  /**
   One round of lfs_bd_read: some bytes from a cache or from the device, or none because the read cache was loaded
   first.
   */
  method ReadRound(dev: BlockDevice, w: Cache, useWrite: bool, r: Cache, hint: nat, block: nat, offset: nat, size: nat)
    returns (piece: seq<byte>)
    requires Ready(dev, w, r) && block < |dev.blocks| && 0 < size && offset + size <= dev.blockSize
    modifies r, r.buffer
    ensures Ready(dev, w, r) && |piece| <= size && |View(dev, w, useWrite)[block]| == dev.blockSize
    ensures piece == View(dev, w, useWrite)[block][offset..offset + |piece|]
    ensures piece == [] ==> InCache(r, block, offset) && !old(InCache(r, block, offset))
  {
    hide View, Copies, Covers;
    var diff := size;
    if useWrite && block == w.block && offset < w.offset + w.size {
      if offset >= w.offset {
        // is already in write_cache?
        diff := Min(diff, w.size - (offset - w.offset));
        FromWriteCache(dev, w, r, block, offset, offset + diff);
        piece := w.buffer[offset - w.offset..offset - w.offset + diff];
        return;
      }
      // write_cache takes priority
      diff := Min(diff, w.offset - offset);
    }
    if block == r.block && offset < r.offset + r.size {
      if offset >= r.offset {
        // is already in read_cache?
        diff := Min(diff, r.size - (offset - r.offset));
        FromReadCache(dev, w, useWrite, r, block, offset, offset + diff);
        piece := r.buffer[offset - r.offset..offset - r.offset + diff];
        return;
      }
      // read_cache takes priority
      diff := Min(diff, r.offset - offset);
    }
    if size >= hint {
      // bypass cache?
      FromDevice(dev, w, useWrite, r, block, offset, offset + diff);
      piece := dev.Read(block, offset, diff);
    } else {
      // load to cache, first condition can no longer fail
      Load(dev, w, r, hint, block, offset);
      ViewPiece(dev, w, useWrite, block, offset, offset);
      piece := [];
    }
  }

  /** Fills the read cache from a place on, with as much as is likely to be wanted. */
  method Load(dev: BlockDevice, w: Cache, r: Cache, hint: nat, block: nat, offset: nat)
    requires Ready(dev, w, r) && block < |dev.blocks| && offset < dev.blockSize && 0 < hint
    modifies r, r.buffer
    ensures Ready(dev, w, r) && InCache(r, block, offset)
  {
    hide Covers;
    var count := Min(Min(offset + hint, dev.blockSize) - offset, r.buffer.Length);
    var data := dev.Read(block, offset, count);
    r.Put(0, data);
    r.block, r.offset, r.size := block, offset, count;
    LoadedCopies(dev.blocks, block, offset, r.buffer[..], data);
    assert r.Held() == r.buffer[..][..count];
  }

  /**
   lfs_bd_read: the device with the write cache on it, wherever the caches lie; the hint is how much may be wanted
   soon.
   */
  method Read(dev: BlockDevice, w: Cache, useWrite: bool, r: Cache, hint: nat, block: nat, offset: nat, size: nat)
    returns (ok: bool, data: seq<byte>)
    requires Ready(dev, w, r)
    modifies r, r.buffer
    ensures Ready(dev, w, r)
    ensures ok <==> block < |dev.blocks| && offset + size <= dev.blockSize
    ensures ok ==>
              |View(dev, w, useWrite)[block]| == dev.blockSize
              && data == View(dev, w, useWrite)[block][offset..offset + size]
  {
    hide View, Copies, Covers;
    data := [];
    if block >= |dev.blocks| || offset + size > dev.blockSize {
      return false, [];
    }
    ViewPiece(dev, w, useWrite, block, offset, offset);
    ghost var view := View(dev, w, useWrite);
    var at := offset;
    while at < offset + size
      invariant offset <= at <= offset + size && Ready(dev, w, r)
      invariant View(dev, w, useWrite) == view && |view[block]| == dev.blockSize && data == view[block][offset..at]
      decreases offset + size - at, if InCache(r, block, at) then 0 else 1
    {
      var piece := ReadRound(dev, w, useWrite, r, hint, block, at, offset + size - at);
      ghost var v := view[block];
      assert v[offset..at] + v[at..at + |piece|] == v[offset..at + |piece|];
      data := data + piece;
      at := at + |piece|;
    }
    ok := true;
  }

  lemma LoadedCopies(blocks: seq<seq<byte>>, block: nat, offset: nat, buffer: seq<byte>, data: seq<byte>)
    requires block < |blocks| && offset + |data| <= |blocks[block]| && data == blocks[block][offset..offset + |data|]
    requires |data| <= |buffer| && buffer[..|data|] == data
    ensures Copies(blocks, block, offset, buffer[..|data|])
  {
  }

  // ---------- comparing ----------

  /** lfs_bd_cmp without a write cache: the device against a buffer, up to 256 bytes at a time */
  method Compare(dev: BlockDevice, w: Cache, r: Cache, hint: nat, block: nat, offset: nat, data: seq<byte>)
    returns (same: bool)
    requires Ready(dev, w, r) && block < |dev.blocks| && offset + |data| <= dev.blockSize && |data| <= hint
    modifies r, r.buffer
    ensures Ready(dev, w, r)
    ensures same <==> dev.blocks[block][offset..offset + |data|] == data
  {
    hide Copies, Covers;
    var idx := 0;
    while idx < |data|
      invariant idx <= |data| && Ready(dev, w, r)
      invariant dev.blocks[block][offset..offset + idx] == data[..idx]
    {
      var diff := Min(|data| - idx, 256);
      var ok, dat := Read(dev, w, false, r, hint - idx, block, offset + idx, diff);
      ChunkSame(dev.blocks[block], offset, data, idx, diff);
      if dat != data[idx..idx + diff] {
        return false;
      }
      idx := idx + diff;
    }
    assert data[..idx] == data;
    return true;
  }

  lemma ChunkSame(block: seq<byte>, offset: nat, data: seq<byte>, idx: nat, diff: nat)
    requires offset + |data| <= |block| && idx + diff <= |data| && block[offset..offset + idx] == data[..idx]
    ensures block[offset + idx..offset + idx + diff] == data[idx..idx + diff] ==>
              block[offset..offset + (idx + diff)] == data[..idx + diff]
    ensures block[offset + idx..offset + idx + diff] != data[idx..idx + diff] ==> block[offset..offset + |data|] != data
  {
    assert block[offset..offset + idx] + block[offset + idx..offset + idx + diff]
           == block[offset..offset + (idx + diff)];
    assert data[..idx] + data[idx..idx + diff] == data[..idx + diff];
    if block[offset..offset + |data|] == data {
      var x, y := block[offset + idx..offset + idx + diff], data[idx..idx + diff];
      forall q | 0 <= q < |x|
        ensures x[q] == y[q]
      {
        assert block[offset..offset + |data|][idx + q] == data[idx + q];
      }
    }
  }

  // ---------- writing ----------

  /** The write cache is not full: it is flushed as soon as it is. */
  predicate Open(w: Cache)
    reads w
  {
    w.block != NULL_BLOCK ==> w.size < w.buffer.Length
  }

  /**
   Programming without the check leaves the read cache good exactly if it lies in another block, or agrees with what was
   programmed where the two overlap.
   */
  lemma UncheckedKeepsCopies(blocks: seq<seq<byte>>, block: nat, offset: nat, held: seq<byte>, rblock: nat,
                             roffset: nat, rheld: seq<byte>)
    requires Covers(blocks, block, offset, held) && Copies(blocks, rblock, roffset, rheld) && block != NULL_BLOCK
    ensures Copies(Overlaid(blocks, block, offset, held), rblock, roffset, rheld) <==>
              rblock != block
              || forall k :: 0 <= k < |held| && roffset <= offset + k < roffset + |rheld| ==>
                   held[k] == rheld[offset + k - roffset]
  {
    if rblock == block {
      var r, copy := Overlay(blocks[block], offset, held), blocks[block][roffset..roffset + |rheld|];
      assert copy == rheld;
      if Copies(Overlaid(blocks, block, offset, held), rblock, roffset, rheld) {
        forall k | 0 <= k < |held| && roffset <= offset + k < roffset + |rheld|
          ensures held[k] == rheld[offset + k - roffset]
        {
          assert r[offset + k] == r[roffset..roffset + |rheld|][offset + k - roffset];
        }
      }
      if forall k :: 0 <= k < |held| && roffset <= offset + k < roffset + |rheld| ==>
        held[k] == rheld[offset + k - roffset] {
        forall i | 0 <= i < |rheld|
          ensures r[roffset..roffset + |rheld|][i] == rheld[i]
        {
          if offset <= roffset + i < offset + |held| {
            assert held[roffset + i - offset] == rheld[i];
          } else {
            assert copy[i] == blocks[block][roffset + i];
          }
        }
        assert r[roffset..roffset + |rheld|] == rheld;
      }
    }
  }

  /** The read cache stays good when what waits is programmed without the check. */
  ghost predicate Agrees(w: Cache, r: Cache)
    reads w, r, w.buffer, r.buffer
    requires w.size <= w.buffer.Length && r.size <= r.buffer.Length
  {
    || w.block == NULL_BLOCK || r.block != w.block
    || forall k :: 0 <= k < w.size && r.offset <= w.offset + k < r.offset + r.size ==>
         w.Held()[k] == r.Held()[w.offset + k - r.offset]
  }

  /**
   lfs_bd_flush of a block on the device: what was waiting is programmed. With the check the read cache is good
   afterwards, because it is emptied; without it, it stays good exactly if it agrees with what was programmed.
   */
  method Flush(dev: BlockDevice, w: Cache, r: Cache, validate: bool) returns (ok: bool)
    requires Waiting(dev, w, r)
    modifies dev`blocks, w, r, r.buffer
    ensures ok && Waiting(dev, w, r) && w.block == NULL_BLOCK && |dev.blocks| == |old(dev.blocks)|
    ensures dev.blocks == old(View(dev, w, true))
    ensures !validate ==> r.block == old(r.block)
    ensures validate && old(Ready(dev, w, r) || w.block != NULL_BLOCK) ==> Ready(dev, w, r)
    ensures !validate && old(Ready(dev, w, r)) ==> (Ready(dev, w, r) <==> old(Agrees(w, r)))
  {
    hide Copies, Covers;
    ok := true;
    if w.block != NULL_BLOCK {
      ghost var blocks := dev.blocks;
      HeldFits(dev.blocks, w.block, w.offset, w.Held());
      var held := w.buffer[..w.size];
      dev.Write(w.block, w.offset, held);
      ProgrammedCovers(blocks, w.block, w.offset, held);
      if validate {
        // check data on disk
        r.Discard();
        NullCopies(dev.blocks, r.offset, r.Held());
        ok := Compare(dev, w, r, w.size, w.block, w.offset, held);
      } else if old(Ready(dev, w, r)) {
        UncheckedKeepsCopies(blocks, w.block, w.offset, held, r.block, r.offset, r.Held());
      }
      w.Zero();
      NullCovers(dev.blocks, w.Held());
    }
  }

  lemma HeldFits(blocks: seq<seq<byte>>, block: nat, offset: nat, held: seq<byte>)
    requires Covers(blocks, block, offset, held) && block != NULL_BLOCK
    ensures block < |blocks| && offset + |held| <= |blocks[block]|
  {
  }

  lemma NullCopies(blocks: seq<seq<byte>>, offset: nat, held: seq<byte>)
    ensures Copies(blocks, NULL_BLOCK, offset, held)
  {
  }

  lemma NullCovers(blocks: seq<seq<byte>>, held: seq<byte>)
    ensures Covers(blocks, NULL_BLOCK, 0, held)
  {
  }

  lemma ProgrammedCovers(blocks: seq<seq<byte>>, block: nat, offset: nat, held: seq<byte>)
    requires Covers(blocks, block, offset, held) && block < |blocks| && block != NULL_BLOCK
    ensures Covers(Overlaid(blocks, block, offset, held), block, offset, held)
    ensures Overlaid(blocks, block, offset, held)[block][offset..offset + |held|] == held
  {
    OverlaySlices(blocks[block], offset, held);
  }

  /** lfs_bd_sync: afterwards the device holds everything, and the read cache is good even if it was stale */
  method Sync(dev: BlockDevice, w: Cache, r: Cache, validate: bool) returns (ok: bool)
    requires Waiting(dev, w, r)
    modifies dev`blocks, w, r, r.buffer
    ensures ok && Ready(dev, w, r) && w.block == NULL_BLOCK && dev.blocks == old(View(dev, w, true))
  {
    hide Copies, Covers, View;
    r.Discard();
    NullCopies(dev.blocks, r.offset, r.Held());
    ok := Flush(dev, w, r, validate);
  }

  /** What is held after more bytes were put into the cache. */
  function PutHeld(held: seq<byte>, at: nat, piece: seq<byte>): (r: seq<byte>)
    requires at <= |held|
    ensures |r| == Max(|held|, at + |piece|)
  {
    held[..at] + piece + if at + |piece| < |held| then held[at + |piece|..] else []
  }

  /** Bytes put into the cache are bytes written to the block. */
  lemma PutIsWrite(blocks: seq<seq<byte>>, block: nat, woffset: nat, held: seq<byte>, offset: nat, piece: seq<byte>)
    requires Covers(blocks, block, woffset, held) && block != NULL_BLOCK
    requires woffset <= offset <= woffset + |held| && block < |blocks| && offset + |piece| <= |blocks[block]|
    ensures Covers(blocks, block, woffset, PutHeld(held, offset - woffset, piece))
    ensures |Overlaid(blocks, block, woffset, held)[block]| == |blocks[block]|
    ensures Overlaid(blocks, block, woffset, PutHeld(held, offset - woffset, piece))
         == Overlaid(blocks, block, woffset, held)
            [block := Overlay(Overlaid(blocks, block, woffset, held)[block], offset, piece)]
  {
    var before := Overlay(blocks[block], woffset, held);
    var a, b := Overlay(blocks[block], woffset, PutHeld(held, offset - woffset, piece)), Overlay(before, offset, piece);
    assert forall i :: 0 <= i < |blocks[block]| ==> a[i] == b[i];
    assert a == b;
  }

  lemma BufferPut(buffer: seq<byte>, size: nat, at: nat, piece: seq<byte>)
    requires at <= size <= |buffer| && at + |piece| <= |buffer|
    ensures Overlay(buffer, at, piece)[..Max(size, at + |piece|)] == PutHeld(buffer[..size], at, piece)
  {
  }

  lemma NothingHeld(blocks: seq<seq<byte>>, block: nat, offset: nat)
    requires block < |blocks| && offset <= |blocks[block]|
    ensures Covers(blocks, block, offset, []) && Overlaid(blocks, block, offset, []) == blocks
  {
    assert Overlay(blocks[block], offset, []) == blocks[block];
  }

  /** The write goes on where the write cache ends, or into what it holds, or to an empty cache. */
  predicate Continues(w: Cache, block: nat, offset: nat)
    reads w
  {
    w.block == NULL_BLOCK || (block == w.block && w.offset <= offset <= w.offset + w.size)
  }

  /**
   One round of lfs_bd_write: as much as the cache has room for, after the cache was pointed to the place if it was
   empty.
   */
  method WriteRound(dev: BlockDevice, w: Cache, r: Cache, validate: bool, block: nat, offset: nat, data: seq<byte>)
    returns (diff: nat)
    requires Waiting(dev, w, r) && Open(w) && 0 < w.buffer.Length && Continues(w, block, offset)
    requires block < |dev.blocks| && offset + |data| <= dev.blockSize && 0 < |data|
    modifies dev`blocks, w, w.buffer, r, r.buffer
    ensures Waiting(dev, w, r) && Open(w) && 0 < diff <= |data| && Continues(w, block, offset + diff)
    ensures |dev.blocks| == |old(dev.blocks)|
    ensures old(Ready(dev, w, r)) && (validate || old(r.block) != block) ==>
              Ready(dev, w, r) && (validate || r.block != block)
    ensures |old(View(dev, w, true)[block])| == dev.blockSize
    ensures View(dev, w, true)
            == old(View(dev, w, true)[block := Overlay(View(dev, w, true)[block], offset, data[..diff])])
  {
    hide Copies, Covers, Overlaid;
    ghost var view := View(dev, w, true);
    BlockSizeOf(dev, block);
    if w.block == NULL_BLOCK {
      // prepare write_cache
      NothingHeld(dev.blocks, block, offset);
      NullView(dev.blocks, w.offset, w.Held());
      w.block, w.offset, w.size := block, offset, 0;
    }
    ghost var held, buffer := w.Held(), w.buffer[..];
    var at := offset - w.offset;
    diff := Min(|data|, w.buffer.Length - at);
    PutIsWrite(dev.blocks, block, w.offset, held, offset, data[..diff]);
    BufferPut(buffer, w.size, at, data[..diff]);
    w.Put(at, data[..diff]);
    w.size := Max(w.size, offset + diff - w.offset);
    assert w.Held() == w.buffer[..][..w.size];
    if w.size == w.buffer.Length {
      // eagerly flush out write_cache if we fill up
      var ok := Flush(dev, w, r, validate);
      NullView(dev.blocks, w.offset, w.Held());
    }
  }

  lemma NullView(blocks: seq<seq<byte>>, offset: nat, held: seq<byte>)
    ensures Covers(blocks, NULL_BLOCK, offset, held) && Overlaid(blocks, NULL_BLOCK, offset, held) == blocks
  {
  }

  lemma BlockSizeOf(dev: BlockDevice, block: nat)
    requires dev.Valid() && block < |dev.blocks|
    ensures |dev.blocks[block]| == dev.blockSize
  {
  }

  /**
   lfs_bd_write of bytes that continue what is in the cache: whatever is flushed on the way, the device and the cache
   together hold them at once. Without the check the read cache may become stale, but only if it lies in that block.
   */
  method Write(dev: BlockDevice, w: Cache, r: Cache, validate: bool, block: nat, offset: nat, data: seq<byte>)
    requires Waiting(dev, w, r) && Open(w) && 0 < w.buffer.Length && Continues(w, block, offset)
    requires block < |dev.blocks| && offset + |data| <= dev.blockSize
    modifies dev`blocks, w, w.buffer, r, r.buffer
    ensures Waiting(dev, w, r) && Open(w) && Continues(w, block, offset + |data|) && |dev.blocks| == |old(dev.blocks)|
    ensures old(Ready(dev, w, r)) && (validate || old(r.block) != block) ==> Ready(dev, w, r)
    ensures |old(View(dev, w, true)[block])| == dev.blockSize
    ensures View(dev, w, true) == old(View(dev, w, true)[block := Overlay(View(dev, w, true)[block], offset, data)])
  {
    hide Copies, Covers, View;
    ghost var view := View(dev, w, true);
    ViewPiece(dev, w, true, block, offset, offset);
    var at := 0;
    NothingWritten(view, block, offset, data);
    while at < |data|
      invariant at <= |data| && Waiting(dev, w, r) && Open(w) && Continues(w, block, offset + at)
      invariant |dev.blocks| == |old(dev.blocks)|
      invariant old(Ready(dev, w, r)) && (validate || old(r.block) != block) ==>
                  Ready(dev, w, r) && (validate || r.block != block)
      invariant View(dev, w, true) == view[block := Overlay(view[block], offset, data[..at])]
    {
      var diff := WriteRound(dev, w, r, validate, block, offset + at, data[at..]);
      MoreWritten(view, block, offset, data, at, diff);
      at := at + diff;
    }
    assert data[..at] == data;
  }

  lemma NothingWritten(view: seq<seq<byte>>, block: nat, offset: nat, data: seq<byte>)
    requires block < |view| && offset <= |view[block]|
    ensures view[block := Overlay(view[block], offset, data[..0])] == view
  {
    assert Overlay(view[block], offset, data[..0]) == view[block];
  }

  lemma MoreWritten(view: seq<seq<byte>>, block: nat, offset: nat, data: seq<byte>, at: nat, diff: nat)
    requires block < |view| && offset + |data| <= |view[block]| && at + diff <= |data|
    ensures Overlay(Overlay(view[block], offset, data[..at]), offset + at, data[at..][..diff])
            == Overlay(view[block], offset, data[..at + diff])
  {
    OverlayTwice(view[block], offset, data[..at], data[at..][..diff]);
    assert data[..at] + data[at..][..diff] == data[..at + diff];
  }
}
