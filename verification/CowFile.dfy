/**
 Files that are written copy-on-write: a write goes to blocks that were just allocated, and the chain that the directory
 refers to is not touched. A flush copies what follows the last write, and only then does the file get its new chain.
 */
module CowFile {
  import opened Words
  import opened Device
  import opened CtzIndex
  import opened CtzList

  // ---------- bytes in one block ----------

  /** The bytes that follow one in its block. */
  lemma SameBlock(blockSize: nat, pos: nat, j: nat)
    requires MIN_BLOCK_SIZE <= blockSize && pos + j < MAX_SIZE && OffsetOf(blockSize, pos) + j < blockSize
    ensures BlockOf(blockSize, pos + j) == BlockOf(blockSize, pos)
            && OffsetOf(blockSize, pos + j) == OffsetOf(blockSize, pos) + j
  {
    hide BlockOf, Start;
    var n, offset := BlockOf(blockSize, pos), OffsetOf(blockSize, pos);
    StartStep(blockSize, n);
    LiesOnce(blockSize, pos + j, n, offset + j, BlockOf(blockSize, pos + j), OffsetOf(blockSize, pos + j));
  }

  /** What a file holds from `pos` on, as far as its block goes, lies in one piece. */
  lemma PieceOfContent(blockSize: nat, blocks: seq<seq<byte>>, chain: seq<nat>, size: nat, pos: nat, diff: nat)
    requires Covers(blockSize, blocks, chain, size) && 0 < diff && pos + diff <= size
    requires OffsetOf(blockSize, pos) + diff <= blockSize
    ensures BlockOf(blockSize, pos) < |chain| && chain[BlockOf(blockSize, pos)] < |blocks|
    ensures |blocks[chain[BlockOf(blockSize, pos)]]| == blockSize
    ensures Content(blockSize, blocks, chain, size)[pos..pos + diff]
         == blocks[chain[BlockOf(blockSize, pos)]][OffsetOf(blockSize, pos)..OffsetOf(blockSize, pos) + diff]
  {
    hide BlockOf, IsChain;
    var n, offset := BlockOf(blockSize, pos), OffsetOf(blockSize, pos);
    BlockOfGrows(blockSize, pos, size - 1);
    ChainBlock(blockSize, blocks, chain, n);
    var content, piece :=
          Content(blockSize, blocks, chain, size)[pos..pos + diff], blocks[chain[n]][offset..offset + diff];
    forall j | 0 <= j < diff
      ensures content[j] == piece[j]
    {
      SameBlock(blockSize, pos, j);
      ContentAt(blockSize, blocks, chain, size, pos + j);
    }
  }

  lemma ContentAt(blockSize: nat, blocks: seq<seq<byte>>, chain: seq<nat>, size: nat, pos: nat)
    requires Covers(blockSize, blocks, chain, size) && pos < size
    ensures BlockOf(blockSize, pos) < |chain| && chain[BlockOf(blockSize, pos)] < |blocks|
    ensures |blocks[chain[BlockOf(blockSize, pos)]]| == blockSize
    ensures Content(blockSize, blocks, chain, size)[pos]
            == blocks[chain[BlockOf(blockSize, pos)]][OffsetOf(blockSize, pos)]
  {
    hide BlockOf;
    BlockOfGrows(blockSize, pos, size - 1);
  }

  // ---------- reading ----------

  /** The block and the offset at hand are where the next byte is, or the block has been read to its end. */
  ghost predicate Reading(blockSize: nat, chain: seq<nat>, size: nat, pos: nat, block: nat, offset: nat) {
    && MIN_BLOCK_SIZE <= blockSize && size < MAX_SIZE
    && (offset == blockSize || pos >= size ||
        (BlockOf(blockSize, pos) < |chain| && block == chain[BlockOf(blockSize, pos)]
         && offset == OffsetOf(blockSize, pos)))
  }

  /** One round of lfs_file_flushedread: as much as possible from the current block. */
  method ReadRound(dev: BlockDevice, head: nat, size: nat, pos: nat, nsize: nat, reading: bool, block: nat, offset: nat,
                   ghost chain: seq<nat>)
    returns (data: seq<byte>, block': nat, offset': nat)
    requires dev.Valid() && Covers(dev.blockSize, dev.blocks, chain, size)
    requires 0 < nsize && pos + nsize <= size && head == chain[BlockOf(dev.blockSize, size - 1)]
    requires reading ==> Reading(dev.blockSize, chain, size, pos, block, offset)
    ensures 0 < |data| <= nsize
    ensures data == Content(dev.blockSize, dev.blocks, chain, size)[pos..pos + |data|]
    ensures Reading(dev.blockSize, chain, size, pos + |data|, block', offset')
  {
    hide BlockOf, Content, Covers;
    BoundsOf(dev.blockSize, dev.blocks, chain, size);
    block', offset' := block, offset;
    // check if we need a new block
    if !reading || offset == dev.blockSize {
      ghost var hops;
      block', offset', hops := Find(dev, head, size, pos, chain);
    }
    // read as much as we can in current block
    var diff := Min(nsize, dev.blockSize - offset');
    PieceOfContent(dev.blockSize, dev.blocks, chain, size, pos, diff);
    data := dev.Read(block', offset', diff);
    NextPlace(dev.blockSize, chain, size, pos, diff, block', offset');
    offset' := offset' + diff;
  }

  lemma BoundsOf(blockSize: nat, blocks: seq<seq<byte>>, chain: seq<nat>, size: nat)
    requires Covers(blockSize, blocks, chain, size)
    ensures MIN_BLOCK_SIZE <= blockSize && size < MAX_SIZE && |chain| < MAX_BLOCKS
  {
  }

  lemma NextPlace(blockSize: nat, chain: seq<nat>, size: nat, pos: nat, diff: nat, block: nat, offset: nat)
    requires MIN_BLOCK_SIZE <= blockSize && pos < size < MAX_SIZE && pos + diff <= size
    requires BlockOf(blockSize, pos) < |chain| && block == chain[BlockOf(blockSize, pos)]
    requires offset == OffsetOf(blockSize, pos)
    requires offset + diff <= blockSize
    ensures Reading(blockSize, chain, size, pos + diff, block, offset + diff)
  {
    hide BlockOf;
    if pos + diff < size && offset + diff < blockSize {
      SameBlock(blockSize, pos, diff);
    }
  }

  /** lfs_file_flushedread */
  method FlushedRead(dev: BlockDevice, head: nat, size: nat, pos: nat, nsize: nat, ghost chain: seq<nat>)
    returns (data: seq<byte>)
    requires dev.Valid() && Covers(dev.blockSize, dev.blocks, chain, size)
    requires size > 0 ==> head == chain[BlockOf(dev.blockSize, size - 1)]
    ensures data == if pos >= size then []
              else Content(dev.blockSize, dev.blocks, chain, size)[pos..Min(pos + nsize, size)]
  {
    hide BlockOf, Content, Covers, Reading;
    data := [];
    if pos >= size {
      // eof if past end
      return;
    }
    var left: nat := Min(nsize, size - pos);
    var at: nat, reading, block: nat, offset: nat := pos, false, 0, 0;
    ghost var content := Content(dev.blockSize, dev.blocks, chain, size);
    while left > 0
      invariant pos <= at && at + left == Min(pos + nsize, size)
      invariant data == content[pos..at]
      invariant reading ==> Reading(dev.blockSize, chain, size, at, block, offset)
      decreases left
    {
      var piece;
      piece, block, offset := ReadRound(dev, head, size, at, left, reading, block, offset, chain);
      reading := true;
      assert content[pos..at] + content[at..at + |piece|] == content[pos..at + |piece|];
      data := data + piece;
      at, left := at + |piece|, left - |piece|;
    }
  }

  // ---------- writing ----------

  /** A chain ends in a block that is nowhere else in it. */
  predicate EndsIn(chain: seq<nat>, block: nat) {
    chain != [] && block == chain[|chain| - 1] && block !in chain[..|chain| - 1]
  }

  /** The chain holds the data, and the next byte goes to its last block, at the offset. */
  ghost predicate Room(blockSize: nat, blocks: seq<seq<byte>>, chain: seq<nat>, data: seq<byte>, block: nat,
                       offset: nat) {
    && Covers(blockSize, blocks, chain, |data|) && Content(blockSize, blocks, chain, |data|) == data
    && |chain| == BlockOf(blockSize, |data|) + 1 && EndsIn(chain, block)
    && offset == OffsetOf(blockSize, |data|)
  }

  /** The chain holds the data, the last byte of which is right before the offset in its last block. */
  ghost predicate Branch(blockSize: nat, blocks: seq<seq<byte>>, chain: seq<nat>, data: seq<byte>, block: nat,
                         offset: nat) {
    && 0 < |data|
    && Covers(blockSize, blocks, chain, |data|) && Content(blockSize, blocks, chain, |data|) == data
    && |chain| == BlockOf(blockSize, |data| - 1) + 1 && EndsIn(chain, block)
    && offset == OffsetOf(blockSize, |data| - 1) + 1
  }

  lemma BranchHasRoom(blockSize: nat, blocks: seq<seq<byte>>, chain: seq<nat>, data: seq<byte>, block: nat, offset: nat)
    requires Branch(blockSize, blocks, chain, data, block, offset) && offset != blockSize && |data| + 1 < MAX_SIZE
    ensures Room(blockSize, blocks, chain, data, block, offset)
  {
    hide BlockOf, Covers, Content;
    BoundsOf(blockSize, blocks, chain, |data|);
    NextByte(blockSize, |data|);
  }

  lemma ContentFront(blockSize: nat, blocks: seq<seq<byte>>, chain: seq<nat>, size: nat, size': nat)
    requires Covers(blockSize, blocks, chain, size) && size' <= size
    ensures Covers(blockSize, blocks, chain, size')
    ensures Content(blockSize, blocks, chain, size') == Content(blockSize, blocks, chain, size)[..size']
  {
    hide BlockOf, IsChain;
    if size' > 0 {
      BlockOfGrows(blockSize, size' - 1, size - 1);
    }
    var a, b := Content(blockSize, blocks, chain, size'), Content(blockSize, blocks, chain, size)[..size'];
    forall pos | 0 <= pos < size'
      ensures a[pos] == b[pos]
    {
      ContentAt(blockSize, blocks, chain, size, pos);
      ContentAt(blockSize, blocks, chain, size', pos);
    }
  }

  /** After a block was added for the next byte there is room for it. */
  lemma ExtendHasRoom(blockSize: nat, blocks: seq<seq<byte>>, chain: seq<nat>, data: seq<byte>, nblock: nat)
    requires MIN_BLOCK_SIZE <= blockSize && |data| + 1 < MAX_SIZE && BlockOf(blockSize, |data|) <= |chain|
    requires nblock !in chain
    requires var chain' := Extended(chain, BlockOf(blockSize, |data|), nblock);
             Covers(blockSize, blocks, chain', |data| + 1)
             && Content(blockSize, blocks, chain', |data| + 1)[..|data|] == data
    ensures Room(blockSize, blocks, Extended(chain, BlockOf(blockSize, |data|), nblock), data, nblock,
                 OffsetOf(blockSize, |data|))
  {
    hide BlockOf, Covers, Content;
    ContentFront(blockSize, blocks, Extended(chain, BlockOf(blockSize, |data|), nblock), |data| + 1, |data|);
    var n := BlockOf(blockSize, |data|);
    var chain' := Extended(chain, n, nblock);
    assert chain'[..|chain'| - 1] == chain[..n];
  }

  /** Bytes programmed after the pointers of the last block leave the chain a chain. */
  lemma WriteKeepsChain(blockSize: nat, blocks: seq<seq<byte>>, chain: seq<nat>, block: nat, offset: nat, d: seq<byte>)
    requires IsChain(blockSize, blocks, chain) && EndsIn(chain, block)
    requires HeadSize(|chain| - 1) <= offset && offset + |d| <= blockSize
    ensures block < |blocks| && |blocks[block]| == blockSize
    ensures IsChain(blockSize, blocks[block := Overlay(blocks[block], offset, d)], chain)
  {
    var last := |chain| - 1;
    assert chain[last] < |blocks|;
    var blocks' := blocks[block := Overlay(blocks[block], offset, d)];
    OverlaySlices(blocks[block], offset, d);
    forall n | 0 <= n < |chain|
      ensures chain[n] < |blocks'| && |blocks'[chain[n]]| == blockSize
      ensures n > 0 ==> PointsBack(blockSize, blocks', chain, n)
    {
      if n < last {
        assert chain[n] == chain[..last][n];
      }
      if n > 0 {
        assert PointsBack(blockSize, blocks, chain, n);
        forall k | 0 <= k <= Ctz(n)
          ensures Linked(blocks'[chain[n]], chain, n, k)
        {
          assert Linked(blocks[chain[n]], chain, n, k);
          if n == last {
            PointerStays(blocks[block], offset, d, n, k);
          }
        }
      }
    }
  }

  lemma PointerStays(block: seq<byte>, offset: nat, d: seq<byte>, n: nat, k: nat)
    requires 0 < n && k <= Ctz(n) && HeadSize(n) <= offset && offset + |d| <= |block|
    ensures PTR_SIZE * k + PTR_SIZE <= offset && PointerAt(Overlay(block, offset, d), k) == PointerAt(block, k)
  {
    var a, b := PTR_SIZE * k, PTR_SIZE * k + PTR_SIZE;
    OverlaySlices(block, offset, d);
    assert Overlay(block, offset, d)[a..b] == Overlay(block, offset, d)[..offset][a..b] == block[..offset][a..b]
           == block[a..b];
  }

  /** A byte after the write: it was there before, or it was written. */
  lemma ByteAfterWrite(blockSize: nat, blocks: seq<seq<byte>>, chain: seq<nat>, data: seq<byte>, block: nat,
                       offset: nat, d: seq<byte>, pos: nat)
    requires Room(blockSize, blocks, chain, data, block, offset) && offset + |d| <= blockSize
    requires pos < |data| + |d| < MAX_SIZE
    ensures block < |blocks| && |blocks[block]| == blockSize && BlockOf(blockSize, pos) < |chain|
    ensures var blocks' := blocks[block := Overlay(blocks[block], offset, d)];
            var c := chain[BlockOf(blockSize, pos)];
            c < |blocks'| && |blocks'[c]| == blockSize && blocks'[c][OffsetOf(blockSize, pos)] == (data + d)[pos]
  {
    hide BlockOf, Content;
    var n := |chain| - 1;
    ChainBlock(blockSize, blocks, chain, n);
    if pos < |data| {
      BlockOfGrows(blockSize, pos, |data|);
      ContentAt(blockSize, blocks, chain, |data|, pos);
      var m := BlockOf(blockSize, pos);
      if m < n {
        assert chain[m] == chain[..n][m];
      } else {
        assert OffsetOf(blockSize, pos) < offset;
      }
    } else {
      SameBlock(blockSize, |data|, pos - |data|);
    }
  }

  /** Programming the next bytes appends them to what the chain holds. */
  lemma WriteAppends(blockSize: nat, blocks: seq<seq<byte>>, chain: seq<nat>, data: seq<byte>, block: nat, offset: nat,
                     d: seq<byte>)
    requires Room(blockSize, blocks, chain, data, block, offset) && 0 < |d| && offset + |d| <= blockSize
    requires |data| + |d| < MAX_SIZE
    ensures block < |blocks| && |blocks[block]| == blockSize
    ensures Branch(blockSize, blocks[block := Overlay(blocks[block], offset, d)], chain, data + d, block, offset + |d|)
  {
    hide BlockOf, IsChain, Content;
    WriteKeepsChain(blockSize, blocks, chain, block, offset, d);
    var blocks' := blocks[block := Overlay(blocks[block], offset, d)];
    SameBlock(blockSize, |data|, |d| - 1);
    var content := Content(blockSize, blocks', chain, |data + d|);
    forall pos | 0 <= pos < |data + d|
      ensures content[pos] == (data + d)[pos]
    {
      ByteAfterWrite(blockSize, blocks, chain, data, block, offset, d, pos);
      ContentAt(blockSize, blocks', chain, |data + d|, pos);
    }
  }

  // ---------- one round of a write ----------

  /** The blocks of a file, from its first to the one that its directory entry refers to. */
  ghost predicate IsFile(blockSize: nat, blocks: seq<seq<byte>>, chain: seq<nat>, head: nat, size: nat) {
    && Covers(blockSize, blocks, chain, size)
    && (size > 0 ==> head == chain[BlockOf(blockSize, size - 1)])
  }

  /** A block that the allocator is going to hand out, and what an erase will leave in it. */
  datatype Spare = Spare(block: nat, left: seq<byte>)

  lemma ChainPrefix(blockSize: nat, blocks: seq<seq<byte>>, chain: seq<nat>, n: nat)
    requires IsChain(blockSize, blocks, chain) && n <= |chain|
    ensures IsChain(blockSize, blocks, chain[..n])
  {
    forall m | 0 < m < n
      ensures PointsBack(blockSize, blocks, chain[..n], m)
    {
      assert PointsBack(blockSize, blocks, chain, m);
      forall k | 0 <= k <= Ctz(m)
        ensures Linked(blocks[chain[..n][m]], chain[..n], m, k)
      {
        assert Linked(blocks[chain[m]], chain, m, k);
      }
    }
  }

  /** How much of a chain holds the first `pos` bytes. */
  ghost function Front(blockSize: nat, chain: seq<nat>, pos: nat): seq<nat>
    requires MIN_BLOCK_SIZE <= blockSize && pos < MAX_SIZE
    requires pos > 0 ==> BlockOf(blockSize, pos - 1) < |chain|
  {
    if pos == 0 then [] else chain[..BlockOf(blockSize, pos - 1) + 1]
  }

  lemma FrontHolds(blockSize: nat, blocks: seq<seq<byte>>, chain: seq<nat>, size: nat, pos: nat)
    requires Covers(blockSize, blocks, chain, size) && pos <= size
    ensures pos > 0 ==> BlockOf(blockSize, pos - 1) < |chain|
    ensures Covers(blockSize, blocks, Front(blockSize, chain, pos), pos)
    ensures Content(blockSize, blocks, Front(blockSize, chain, pos), pos)
            == Content(blockSize, blocks, chain, size)[..pos]
  {
    hide BlockOf, IsChain;
    if pos > 0 {
      BlockOfGrows(blockSize, pos - 1, size - 1);
    }
    var front := Front(blockSize, chain, pos);
    ChainPrefix(blockSize, blocks, chain, |front|);
    assert front == chain[..|front|];
    var a, b := Content(blockSize, blocks, front, pos), Content(blockSize, blocks, chain, size)[..pos];
    forall i | 0 <= i < pos
      ensures a[i] == b[i]
    {
      ContentAt(blockSize, blocks, chain, size, i);
      ContentAt(blockSize, blocks, front, pos, i);
      BlockOfGrows(blockSize, i, pos - 1);
    }
  }

  /** What a write starts from: the chain being written, or the front of the file's own chain. */
  ghost predicate Starting(blockSize: nat, blocks: seq<seq<byte>>, chain: seq<nat>, head: nat, size: nat, writing: bool,
                           branch: seq<nat>, data: seq<byte>, pos: nat, block: nat, offset: nat)
  {
    && IsFile(blockSize, blocks, chain, head, size) && pos == |data|
    && if writing then Branch(blockSize, blocks, branch, data, block, offset)
       else pos <= size && Content(blockSize, blocks, chain, size)[..pos] == data
  }

  /** The blocks of one chain are those of another and a new one. */
  predicate Grown(branch': seq<nat>, branch: seq<nat>, block: nat) {
    forall i :: 0 <= i < |branch'| ==> branch'[i] == block || branch'[i] in branch
  }

  /** Room for the file to go on after `pos`, in a new block. */
  method ExtendRound(dev: BlockDevice, head: nat, size: nat, pos: nat, block: nat, writing: bool, spare: Spare,
                     ghost chain: seq<nat>, ghost branch: seq<nat>, ghost data: seq<byte>, ghost offset: nat)
    returns (block': nat, offset': nat, ghost branch': seq<nat>)
    requires dev.Valid() && |dev.blocks| <= MAX_SIZE
    requires Starting(dev.blockSize, dev.blocks, chain, head, size, writing, branch, data, pos, block, offset)
    requires pos + 1 < MAX_SIZE && BlockOf(dev.blockSize, pos) + 2 < MAX_BLOCKS
    requires spare.block < |dev.blocks| && |spare.left| == dev.blockSize && spare.block !in chain
             && (writing ==> spare.block !in branch)
    modifies dev`blocks
    ensures dev.Valid() && |dev.blocks| == |old(dev.blocks)| && block' == spare.block
    ensures forall b :: 0 <= b < |dev.blocks| && b != block' ==> dev.blocks[b] == old(dev.blocks)[b]
    ensures Room(dev.blockSize, dev.blocks, branch', data, block', offset')
    ensures Grown(branch', if writing then branch else chain, block')
  {
    hide BlockOf, Covers, Content, OffsetOf, EndsIn;
    var from := block;
    StartParts(dev.blockSize, dev.blocks, chain, head, size, writing, branch, data, pos, block, offset);
    if !writing && pos > 0 {
      // find out which block we're extending from
      var unused;
      ghost var hops;
      from, unused, hops := Find(dev, head, size, pos - 1, chain);
    }
    ghost var front := if writing then branch else Front(dev.blockSize, chain, pos);
    // extend file with new blocks
    block', offset' := Extend(dev, from, pos, spare.block, spare.left, front);
    branch' := Extended(front, BlockOf(dev.blockSize, pos), spare.block);
    ExtendHasRoom(dev.blockSize, dev.blocks, front, data, spare.block);
  }

  /** What it takes to extend the chain that a write starts from. */
  lemma StartParts(blockSize: nat, blocks: seq<seq<byte>>, chain: seq<nat>, head: nat, size: nat, writing: bool,
                   branch: seq<nat>, data: seq<byte>, pos: nat, block: nat, offset: nat)
    requires Starting(blockSize, blocks, chain, head, size, writing, branch, data, pos, block, offset)
    requires pos + 1 < MAX_SIZE && BlockOf(blockSize, pos) + 2 < MAX_BLOCKS
    ensures MIN_BLOCK_SIZE <= blockSize && pos == |data|
    ensures !writing && pos > 0 ==> size > 0 && pos - 1 < size && BlockOf(blockSize, pos - 1) < |chain|
    ensures var front := if writing then branch else Front(blockSize, chain, pos);
            && Covers(blockSize, blocks, front, pos) && Content(blockSize, blocks, front, pos) == data
            && |front| == (if pos == 0 then 0 else BlockOf(blockSize, pos - 1) + 1) && |front| + 1 < MAX_BLOCKS
            && (writing ==> pos > 0 && block == front[|front| - 1])
            && (!writing && pos > 0 ==> front[|front| - 1] == chain[BlockOf(blockSize, pos - 1)])
            && (forall i :: 0 <= i < |front| ==> front[i] in if writing then branch else chain)
    ensures size > 0 ==> head == chain[BlockOf(blockSize, size - 1)]
    ensures Covers(blockSize, blocks, chain, size)
  {
    hide BlockOf, Content, IsChain;
    BoundsOf(blockSize, blocks, chain, size);
    if !writing {
      FrontHolds(blockSize, blocks, chain, size, pos);
    }
    if pos > 0 {
      BlockOfGrows(blockSize, pos - 1, pos);
    }
  }

  /**
   How many new blocks it takes to write `n` bytes from `pos` on: those that the bytes lie in, except the last one of
   the chain that is being written, if it is, since only a new chain has to begin with a new block.
   */
  function NewBlocks(blockSize: nat, pos: nat, n: nat, writing: bool): int
    requires MIN_BLOCK_SIZE <= blockSize && pos + n < MAX_SIZE
  {
    if n == 0 then 0
    else BlockOf(blockSize, pos + n - 1) + 1
         - if writing && pos > 0 then BlockOf(blockSize, pos - 1) + 1 else BlockOf(blockSize, pos)
  }

  lemma NewBlocksAdd(blockSize: nat, pos: nat, a: nat, b: nat, writing: bool)
    requires MIN_BLOCK_SIZE <= blockSize && pos + a + b < MAX_SIZE
    ensures NewBlocks(blockSize, pos, a + b, writing)
         == NewBlocks(blockSize, pos, a, writing) + NewBlocks(blockSize, pos + a, b, writing || a > 0)
  {
    hide BlockOf;
  }

  lemma NothingNew(blockSize: nat, pos: nat, writing: bool)
    requires MIN_BLOCK_SIZE <= blockSize && pos < MAX_SIZE
    ensures NewBlocks(blockSize, pos, 0, writing) == 0
  {
  }

  lemma NewBlocksGrow(blockSize: nat, pos: nat, a: nat, b: nat, writing: bool)
    requires MIN_BLOCK_SIZE <= blockSize && pos + b < MAX_SIZE && a <= b
    ensures 0 <= NewBlocks(blockSize, pos, a, writing) <= NewBlocks(blockSize, pos, b, writing)
  {
    hide BlockOf;
    if 0 < a {
      BlockOfGrows(blockSize, pos + a - 1, pos + b - 1);
      BlockOfGrows(blockSize, pos, pos + a - 1);
    }
    if 0 < b {
      BlockOfGrows(blockSize, pos, pos + b - 1);
    }
    if 0 < pos {
      BlockOfGrows(blockSize, pos - 1, pos);
    }
  }

  /** Bytes that go to one block take a new one if there is none to go on with. */
  lemma RoundTakes(blockSize: nat, pos: nat, writing: bool, offset: nat, diff: nat)
    requires MIN_BLOCK_SIZE <= blockSize && pos + diff + 1 < MAX_SIZE && 0 < diff
    requires writing ==> 0 < pos && offset == OffsetOf(blockSize, pos - 1) + 1
    requires OffsetOf(blockSize, pos) + diff <= blockSize
    ensures NewBlocks(blockSize, pos, diff, writing) == if !writing || offset == blockSize then 1 else 0
  {
    hide BlockOf, OffsetOf;
    SameBlock(blockSize, pos, diff - 1);
    if writing {
      NextByte(blockSize, pos);
    }
  }

  lemma OffsetFits(blockSize: nat, pos: nat)
    requires MIN_BLOCK_SIZE <= blockSize && pos < MAX_SIZE
    ensures OffsetOf(blockSize, pos) + 1 <= blockSize
  {
    hide BlockOf;
    StartStep(blockSize, BlockOf(blockSize, pos));
  }

  lemma StartingAt(blockSize: nat, blocks: seq<seq<byte>>, chain: seq<nat>, head: nat, size: nat, writing: bool,
                   branch: seq<nat>, data: seq<byte>, pos: nat, block: nat, offset: nat)
    requires Starting(blockSize, blocks, chain, head, size, writing, branch, data, pos, block, offset)
    ensures MIN_BLOCK_SIZE <= blockSize && pos == |data| < MAX_SIZE
    ensures writing ==> 0 < pos && offset == OffsetOf(blockSize, pos - 1) + 1
  {
    hide BlockOf, Content;
  }

  lemma StartingWrites(blockSize: nat, blocks: seq<seq<byte>>, chain: seq<nat>, head: nat, size: nat, writing: bool,
                       branch: seq<nat>, data: seq<byte>, pos: nat, block: nat, offset: nat)
    requires Starting(blockSize, blocks, chain, head, size, writing, branch, data, pos, block, offset) && writing
    ensures Branch(blockSize, blocks, branch, data, block, offset)
  {
  }

  lemma RoomAt(blockSize: nat, blocks: seq<seq<byte>>, chain: seq<nat>, data: seq<byte>, block: nat, offset: nat)
    requires Room(blockSize, blocks, chain, data, block, offset)
    ensures MIN_BLOCK_SIZE <= blockSize && |data| < MAX_SIZE && offset == OffsetOf(blockSize, |data|)
  {
    hide BlockOf, Content;
  }

  /** One round of the loop of lfs_file_flushedwrite: as many bytes as the current block, or a new one, has room for. */
  method WriteRound(dev: BlockDevice, head: nat, size: nat, pos: nat, block: nat, offset: nat, writing: bool,
                    d: seq<byte>, spares: seq<Spare>, ghost chain: seq<nat>, ghost branch: seq<nat>,
                    ghost data: seq<byte>)
    returns (ok: bool, diff: nat, used: bool, block': nat, offset': nat, ghost branch': seq<nat>)
    requires dev.Valid() && |dev.blocks| <= MAX_SIZE
    requires Starting(dev.blockSize, dev.blocks, chain, head, size, writing, branch, data, pos, block, offset)
    requires 0 < |d| && pos + |d| + 1 < MAX_SIZE && BlockOf(dev.blockSize, pos) + 2 < MAX_BLOCKS
    requires spares != [] ==>
               spares[0].block < |dev.blocks| && |spares[0].left| == dev.blockSize && spares[0].block !in chain
                              && (writing ==> spares[0].block !in branch)
    modifies dev`blocks
    ensures dev.Valid() && |dev.blocks| == |old(dev.blocks)|
    ensures ok <==> NewBlocks(dev.blockSize, pos, 1, writing) <= |spares|
    ensures ok ==> 0 < diff <= |d| && NewBlocks(dev.blockSize, pos, diff, writing) == if used then 1 else 0
    ensures !ok ==> spares == [] && dev.blocks == old(dev.blocks)
    ensures ok ==> 0 < diff <= |d| && Branch(dev.blockSize, dev.blocks, branch', data + d[..diff], block', offset')
    ensures ok ==> forall b :: 0 <= b < |dev.blocks| && b != block' ==> dev.blocks[b] == old(dev.blocks)[b]
    ensures ok ==>
              if used then spares != [] && block' == spares[0].block
              && Grown(branch', if writing then branch else chain, block')
                   else writing && block' == block && branch' == branch
  {
    hide BlockOf, Covers, Content, OffsetOf, EndsIn, IsFile, Grown, Starting, Branch, Room, NewBlocks;
    StartingAt(dev.blockSize, dev.blocks, chain, head, size, writing, branch, data, pos, block, offset);
    OffsetFits(dev.blockSize, pos);
    RoundTakes(dev.blockSize, pos, writing, offset, 1);
    ok, diff, used, block', offset', branch' := true, 0, false, block, offset, branch;
    // check if we need a new block
    if !writing || offset == dev.blockSize {
      if spares == [] {
        return false, 0, false, block, offset, branch;
      }
      used := true;
      block', offset', branch' :=
        ExtendRound(dev, head, size, pos, block, writing, spares[0], chain, branch, data, offset);
    } else {
      StartingWrites(dev.blockSize, dev.blocks, chain, head, size, writing, branch, data, pos, block, offset);
      BranchHasRoom(dev.blockSize, dev.blocks, branch, data, block, offset);
    }
    // program as much as we can in current block
    RoomIn(dev.blockSize, dev.blocks, branch', data, block', offset');
    RoomAt(dev.blockSize, dev.blocks, branch', data, block', offset');
    diff := Min(|d|, dev.blockSize - offset');
    RoundTakes(dev.blockSize, pos, writing, offset, diff);
    WriteAppends(dev.blockSize, dev.blocks, branch', data, block', offset', d[..diff]);
    dev.Write(block', offset', d[..diff]);
    offset' := offset' + diff;
  }

  lemma RoomIn(blockSize: nat, blocks: seq<seq<byte>>, chain: seq<nat>, data: seq<byte>, block: nat, offset: nat)
    requires Room(blockSize, blocks, chain, data, block, offset)
    ensures offset < blockSize && block < |blocks|
  {
    hide BlockOf, Content;
    ChainBlock(blockSize, blocks, chain, |chain| - 1);
  }

  // ---------- the file ----------

  /** The fields of a file, what it has been promised, and what it promises. */
  datatype State = State(pos: nat, head: nat, size: nat, block: nat, offset: nat, dirty: bool,
                         writing: bool, spares: seq<Spare>, chain: seq<nat>, branch: seq<nat>, data: seq<byte>,
                         base: seq<seq<byte>>, kept: set<nat>, taken: set<nat>)

  /** Blocks that nobody uses, each once. */
  predicate AreSpare(spares: seq<Spare>, count: nat, blockSize: nat, chain: seq<nat>, branch: seq<nat>,
                     kept: set<nat>) {
    && (forall i :: 0 <= i < |spares| ==>
         && spares[i].block < count && |spares[i].left| == blockSize
         && spares[i].block !in chain && spares[i].block !in branch && spares[i].block !in kept)
    && (forall i, j :: 0 <= i < j < |spares| ==> spares[i].block != spares[j].block)
  }

  /**
   The file is whole, and so is what has been written since. Of the blocks only those that were handed out have changed,
   and none that the directory refers to was. Unless the file is dirty its directory entry refers to it as it is.
   */
  ghost predicate Sound(blockSize: nat, blocks: seq<seq<byte>>, s: State) {
    && |blocks| <= MAX_SIZE && |blocks| == |s.base|
    && IsFile(blockSize, blocks, s.chain, s.head, s.size)
    && (s.writing ==> Branch(blockSize, blocks, s.branch, s.data, s.block, s.offset) && s.pos == |s.data|)
    && (s.writing ==> s.block !in s.chain && s.block in s.taken)
    && s.taken !! s.kept
    && (!s.dirty ==> forall i :: 0 <= i < |s.chain| ==> s.chain[i] in s.kept)
    && (forall b :: 0 <= b < |blocks| && b !in s.taken ==> blocks[b] == s.base[b])
    && AreSpare(s.spares, |blocks|, blockSize, s.chain, if s.writing then s.branch else [], s.kept)
  }

  /** A chain that is kept still reads as it did when the directory entry was written. */
  lemma KeptReads(blockSize: nat, blocks: seq<seq<byte>>, s: State, chain: seq<nat>, size: nat)
    requires Sound(blockSize, blocks, s) && Covers(blockSize, s.base, chain, size)
    requires forall i :: 0 <= i < |chain| ==> chain[i] in s.kept
    ensures Covers(blockSize, blocks, chain, size)
    ensures Content(blockSize, blocks, chain, size) == Content(blockSize, s.base, chain, size)
  {
    hide BlockOf, IsFile, Branch, AreSpare;
    SameBlocksRead(blockSize, s.base, blocks, chain, size);
  }

  lemma SameBlocksRead(blockSize: nat, blocks: seq<seq<byte>>, blocks': seq<seq<byte>>, chain: seq<nat>, size: nat)
    requires Covers(blockSize, blocks, chain, size) && |blocks'| == |blocks|
    requires forall i :: 0 <= i < |chain| && chain[i] < |blocks| ==> blocks'[chain[i]] == blocks[chain[i]]
    ensures Covers(blockSize, blocks', chain, size)
    ensures Content(blockSize, blocks', chain, size) == Content(blockSize, blocks, chain, size)
  {
    hide BlockOf;
    forall n | 0 < n < |chain|
      ensures PointsBack(blockSize, blocks', chain, n)
    {
      assert PointsBack(blockSize, blocks, chain, n);
      forall k | 0 <= k <= Ctz(n)
        ensures Linked(blocks'[chain[n]], chain, n, k)
      {
        assert Linked(blocks[chain[n]], chain, n, k);
      }
    }
    var a, b := Content(blockSize, blocks', chain, size), Content(blockSize, blocks, chain, size);
    forall pos | 0 <= pos < size
      ensures a[pos] == b[pos]
    {
      ContentAt(blockSize, blocks, chain, size, pos);
      ContentAt(blockSize, blocks', chain, size, pos);
    }
  }

  /** What the file holds once it is flushed: what was written, and what follows it. */
  ghost function Whole(blockSize: nat, blocks: seq<seq<byte>>, s: State): seq<byte>
    requires Sound(blockSize, blocks, s)
  {
    var content := Content(blockSize, blocks, s.chain, s.size);
    if !s.writing then content
    else if |s.data| < s.size then s.data + content[|s.data|..]
    else s.data
  }

  /** The content with other bytes from `pos` on, and zeros before them if it was shorter. */
  function Spliced(content: seq<byte>, pos: nat, bytes: seq<byte>): seq<byte> {
    (if pos <= |content| then content[..pos] else content + seq(pos - |content|, _ => 0))
    + bytes
    + (if pos + |bytes| < |content| then content[pos + |bytes|..] else [])
  }

  /** What the file holds as it is. */
  ghost function Held(blockSize: nat, blocks: seq<seq<byte>>, s: State): (held: seq<byte>)
    requires Sound(blockSize, blocks, s)
    ensures |held| == s.size
  {
    Content(blockSize, blocks, s.chain, s.size)
  }

  /** The data that a write goes on from. */
  ghost function Begun(blockSize: nat, blocks: seq<seq<byte>>, s: State): seq<byte>
    requires Sound(blockSize, blocks, s) && (!s.writing ==> s.pos <= s.size)
  {
    if s.writing then s.data else Content(blockSize, blocks, s.chain, s.size)[..s.pos]
  }

  lemma BegunStarts(blockSize: nat, blocks: seq<seq<byte>>, s: State)
    requires Sound(blockSize, blocks, s) && (!s.writing ==> s.pos <= s.size)
    ensures Starting(blockSize, blocks, s.chain, s.head, s.size, s.writing, s.branch, Begun(blockSize, blocks, s),
                     s.pos, s.block, s.offset)
    ensures s.spares != [] ==>
              s.spares[0].block < |blocks| && |s.spares[0].left| == blockSize && s.spares[0].block !in s.chain
                               && (s.writing ==> s.spares[0].block !in s.branch)
  {
    hide Branch, Content, IsFile;
  }

  /** The fields after a round of a write. */
  function AfterRound(s: State, begun: seq<byte>, d: seq<byte>, used: bool, block: nat, offset: nat,
                      branch: seq<nat>): State {
    s.(pos := s.pos + |d|, block := block, offset := offset, writing := true, branch := branch, data := begun + d,
       spares := if used && s.spares != [] then s.spares[1..] else s.spares,
       taken := s.taken + {block})
  }

  lemma AfterRoundIs(s: State, begun: seq<byte>, d: seq<byte>, used: bool, block: nat, offset: nat, branch: seq<nat>)
    ensures var s' := AfterRound(s, begun, d, used, block, offset, branch);
            && s'.pos == s.pos + |d| && s'.head == s.head && s'.size == s.size && s'.block == block
            && s'.offset == offset && s'.dirty == s.dirty && s'.writing
            && s'.spares == (if used && s.spares != [] then s.spares[1..] else s.spares)
            && s'.chain == s.chain && s'.base == s.base && s'.kept == s.kept
  {
  }

  lemma RoundIsSound(blockSize: nat, blocks: seq<seq<byte>>, s: State, blocks': seq<seq<byte>>, begun: seq<byte>,
                     d: seq<byte>, used: bool, block: nat, offset: nat, branch: seq<nat>)
    requires Sound(blockSize, blocks, s) && (!s.writing ==> s.pos <= s.size) && begun == Begun(blockSize, blocks, s)
    requires |blocks'| == |blocks| && Branch(blockSize, blocks', branch, begun + d, block, offset)
    requires forall b :: 0 <= b < |blocks| && b != block ==> blocks'[b] == blocks[b]
    requires if used then s.spares != [] && block == s.spares[0].block
             && Grown(branch, if s.writing then s.branch else s.chain, block)
             else s.writing && block == s.block && branch == s.branch
    ensures Sound(blockSize, blocks', AfterRound(s, begun, d, used, block, offset, branch))
    ensures Held(blockSize, blocks', AfterRound(s, begun, d, used, block, offset, branch)) == Held(blockSize, blocks, s)
  {
    hide Branch, BlockOf, Content, Covers;
    var s' := AfterRound(s, begun, d, used, block, offset, branch);
    BegunLength(blockSize, blocks, s);
    if used {
      assert s.spares[0].block !in s.chain;
    }
    SameBlocksRead(blockSize, blocks, blocks', s.chain, s.size);
    StillSpare(blockSize, |blocks|, s, used, block, branch);
  }

  lemma BegunLength(blockSize: nat, blocks: seq<seq<byte>>, s: State)
    requires Sound(blockSize, blocks, s) && (!s.writing ==> s.pos <= s.size)
    ensures |Begun(blockSize, blocks, s)| == s.pos
  {
    hide Branch, BlockOf, Covers;
  }

  lemma StillSpare(blockSize: nat, count: nat, s: State, used: bool, block: nat, branch: seq<nat>)
    requires AreSpare(s.spares, count, blockSize, s.chain, if s.writing then s.branch else [], s.kept)
    requires if used then s.spares != [] && block == s.spares[0].block
             && Grown(branch, if s.writing then s.branch else s.chain, block)
             else s.writing && block == s.block && branch == s.branch
    ensures AreSpare(if used then s.spares[1..] else s.spares, count, blockSize, s.chain, branch, s.kept)
  {
    if used {
      var rest := s.spares[1..];
      forall i | 0 <= i < |rest|
        ensures rest[i].block !in branch && rest[i].block != block
      {
        assert rest[i] == s.spares[i + 1];
      }
    }
  }

  /** Files end before what can be counted. */
  predicate InBounds(blockSize: nat, end: nat) {
    MIN_BLOCK_SIZE <= blockSize && end + 1 < MAX_SIZE && BlockOf(blockSize, end) + 2 < MAX_BLOCKS
  }

  lemma BoundsShrink(blockSize: nat, end: nat, end': nat)
    requires InBounds(blockSize, end) && end' <= end
    ensures InBounds(blockSize, end')
  {
    hide BlockOf;
    BlockOfGrows(blockSize, end', end);
  }

  /** How many new blocks it takes to flush a file: as many as to copy what follows what is being written. */
  function ToFlush(blockSize: nat, pos: nat, size: nat, writing: bool): int
    requires MIN_BLOCK_SIZE <= blockSize && pos < MAX_SIZE && size < MAX_SIZE
  {
    if writing && pos < size then NewBlocks(blockSize, pos, size - pos, true) else 0
  }

  lemma FlushesFree(blockSize: nat, pos: nat, size: nat, writing: bool)
    requires InBounds(blockSize, pos) && InBounds(blockSize, size)
    ensures MIN_BLOCK_SIZE <= blockSize && pos < MAX_SIZE && size < MAX_SIZE
    ensures !writing ==> ToFlush(blockSize, pos, size, writing) == 0
  {
  }

  /** Between the two, the file and what the directory refers to stay as they are. */
  predicate SameFile(s: State, s': State) {
    s'.chain == s.chain && s'.head == s.head && s'.size == s.size && s'.dirty == s.dirty && s'.base == s.base
    && s'.kept == s.kept
  }

  /** lfs_file_t of a file that is not inline */
  class File {
    const dev: BlockDevice
    var pos: nat
    var head: nat
    var size: nat
    var block: nat
    var offset: nat
    var dirty: bool
    var writing: bool

    // what the allocator is going to hand out
    var spares: seq<Spare>

    ghost var chain: seq<nat>
    ghost var branch: seq<nat>
    ghost var data: seq<byte>
    ghost var base: seq<seq<byte>>
    ghost var kept: set<nat>
    ghost var taken: set<nat>

    ghost function Now(): State
      reads this
    {
      State(pos, head, size, block, offset, dirty, writing, spares, chain, branch, data, base, kept, taken)
    }

    ghost predicate Valid()
      reads this, dev
    {
      dev.Valid() && Sound(dev.blockSize, dev.blocks, Now())
    }

    /** What a flush would make the file hold. */
    ghost function Contents(): seq<byte>
      reads this, dev
      requires Valid()
    {
      Whole(dev.blockSize, dev.blocks, Now())
    }

    constructor Open(dev: BlockDevice, head: nat, size: nat, spares: seq<Spare>, ghost chain: seq<nat>)
      requires dev.Valid() && |dev.blocks| <= MAX_SIZE && IsFile(dev.blockSize, dev.blocks, chain, head, size)
      requires AreSpare(spares, |dev.blocks|, dev.blockSize, chain, [], {})
      ensures Valid() && this.dev == dev && pos == 0 && !writing && !dirty && this.chain == chain && this.size == size
              && base == dev.blocks
      ensures kept == (set b | b in chain) && taken == {}
      ensures Contents() == Content(dev.blockSize, dev.blocks, chain, size)
    {
      this.dev, this.head, this.size, this.spares, this.chain := dev, head, size, spares, chain;
      pos, block, offset, dirty, writing := 0, 0, 0, false, false;
      branch, data, base, kept, taken := [], [], dev.blocks, set b | b in chain, {};
      new;
      hide IsFile, Branch;
    }

    method Place(diff: nat, used: bool, block': nat, offset': nat)
      modifies this`pos, this`block, this`offset, this`writing, this`spares
      ensures pos == old(pos) + diff && block == block' && offset == offset' && writing
      ensures spares == if used && old(spares) != [] then old(spares)[1..] else old(spares)
    {
      spares := if used && spares != [] then spares[1..] else spares;
      pos, block, offset, writing := pos + diff, block', offset', true;
    }

    /** Moves on after a round. */
    method Advance(diff: nat, used: bool, block': nat, offset': nat, ghost branch': seq<nat>, ghost begun: seq<byte>,
                   ghost d: seq<byte>)
      requires diff == |d|
      modifies this`pos, this`block, this`offset, this`writing, this`spares, this`branch, this`data, this`taken
      ensures Now() == AfterRound(old(Now()), begun, d, used, block', offset', branch')
    {
      hide *;
      ghost var s := Now();
      NowIs();
      AfterRoundIs(s, begun, d, used, block', offset', branch');
      ghost var next := AfterRound(s, begun, d, used, block', offset', branch');
      Place(diff, used, block', offset');
      branch, data, taken := next.branch, next.data, next.taken;
      NowIs();
    }

    lemma NowIs()
      ensures Now() == State(pos, head, size, block, offset, dirty, writing, spares, chain, branch, data, base, kept,
                             taken)
    {
    }

    /** One round of the loop of lfs_file_flushedwrite. */
    method Round(d: seq<byte>) returns (ok: bool, diff: nat)
      requires Valid() && d != [] && (!writing ==> pos <= size) && InBounds(dev.blockSize, pos + |d|)
      modifies this`pos, this`block, this`offset, this`writing, this`spares, this`branch, this`data, this`taken,
      dev`blocks
      ensures Valid() && SameFile(old(Now()), Now())
      ensures Held(dev.blockSize, dev.blocks, Now()) == old(Held(dev.blockSize, dev.blocks, Now()))
      ensures !ok ==> spares == [] && Now() == old(Now())
      ensures ok <==> NewBlocks(dev.blockSize, old(pos), 1, old(writing)) <= |old(spares)|
      ensures !ok ==> Begun(dev.blockSize, dev.blocks, Now()) == old(Begun(dev.blockSize, dev.blocks, Now()))
      ensures ok ==> 0 < diff <= |d| && pos == old(pos) + diff && writing
      ensures ok ==> |spares| == |old(spares)| - NewBlocks(dev.blockSize, old(pos), diff, old(writing))
      ensures ok ==> Begun(dev.blockSize, dev.blocks, Now()) == old(Begun(dev.blockSize, dev.blocks, Now())) + d[..diff]
    {
      hide Sound, Begun, BlockOf, Content, Branch, Grown, Starting, Held, AfterRound, NewBlocks;
      ghost var s, blocks, begun := Now(), dev.blocks, Begun(dev.blockSize, dev.blocks, Now());
      BegunStarts(dev.blockSize, dev.blocks, s);
      SoundBounds(dev.blockSize, dev.blocks, s);
      BoundsShrink(dev.blockSize, pos + |d|, pos);
      var used, block', offset';
      ghost var branch';
      ok, diff, used, block', offset', branch' :=
        WriteRound(dev, head, size, pos, block, offset, writing, d, spares, chain, branch, begun);
      if ok {
        RoundIsSound(dev.blockSize, blocks, s, dev.blocks, begun, d[..diff], used, block', offset', branch');
        AfterBegun(dev.blockSize, dev.blocks, s, begun, d[..diff], used, block', offset', branch');
        Advance(diff, used, block', offset', branch', begun, d[..diff]);
      }
    }

    /**
     lfs_file_flushedwrite: the bytes go to new blocks; if there are none left what was written so far is sound all the
     same
     */
    method FlushedWrite(buffer: seq<byte>) returns (ok: bool)
      requires Valid() && (!writing ==> pos <= size) && InBounds(dev.blockSize, pos + |buffer|)
      modifies this`pos, this`block, this`offset, this`writing, this`spares, this`branch, this`data, this`taken,
      dev`blocks
      ensures Valid() && SameFile(old(Now()), Now()) && (!writing ==> pos <= size)
      ensures Held(dev.blockSize, dev.blocks, Now()) == old(Held(dev.blockSize, dev.blocks, Now()))
      ensures old(pos) <= pos <= old(pos) + |buffer| && writing == (old(writing) || pos > old(pos))
      ensures Begun(dev.blockSize, dev.blocks, Now())
              == old(Begun(dev.blockSize, dev.blocks, Now())) + buffer[..pos - old(pos)]
      ensures ok <==> NewBlocks(dev.blockSize, old(pos), |buffer|, old(writing)) <= |old(spares)|
      ensures |spares| == |old(spares)| - NewBlocks(dev.blockSize, old(pos), pos - old(pos), old(writing))
      ensures ok ==> pos == old(pos) + |buffer|
      ensures !ok ==> spares == [] && pos < old(pos) + |buffer|
    {
      hide Sound, Begun, Held, BlockOf, NewBlocks;
      var at := 0;
      ghost var start := Begun(dev.blockSize, dev.blocks, Now());
      assert start == start + buffer[..0];
      NothingNew(dev.blockSize, pos, writing);
      while at < |buffer|
        invariant at <= |buffer| && Valid() && SameFile(old(Now()), Now()) && (!writing ==> pos <= size)
        invariant pos == old(pos) + at && writing == (old(writing) || at > 0)
        invariant |spares| == |old(spares)| - NewBlocks(dev.blockSize, old(pos), at, old(writing))
        invariant Held(dev.blockSize, dev.blocks, Now()) == old(Held(dev.blockSize, dev.blocks, Now()))
        invariant Begun(dev.blockSize, dev.blocks, Now()) == start + buffer[..at]
      {
        var diff;
        NewBlocksAdd(dev.blockSize, old(pos), at, 1, old(writing));
        NewBlocksGrow(dev.blockSize, old(pos), at + 1, |buffer|, old(writing));
        ok, diff := Round(buffer[at..]);
        if !ok {
          return;
        }
        NewBlocksAdd(dev.blockSize, old(pos), at, diff, old(writing));
        assert start + buffer[..at] + buffer[at..][..diff] == start + buffer[..at + diff];
        at := at + diff;
      }
      return true;
    }

    /** One byte that the file has after the current branch is copied over. */
    method CopyByte(reading: bool, oblock: nat, ooffset: nat) returns (ok: bool, oblock': nat, ooffset': nat)
      requires Valid() && writing && pos < size && InBounds(dev.blockSize, size)
      requires reading ==> Reading(dev.blockSize, chain, size, pos, oblock, ooffset)
      modifies this`pos, this`block, this`offset, this`writing, this`spares, this`branch, this`data, this`taken,
      dev`blocks
      ensures Valid() && SameFile(old(Now()), Now()) && writing && Contents() == old(Contents())
      ensures ok <==> NewBlocks(dev.blockSize, old(pos), 1, true) <= |old(spares)|
      ensures ok ==>
                && pos == old(pos) + 1 && |spares| == |old(spares)| - NewBlocks(dev.blockSize, old(pos), 1, true)
                && Reading(dev.blockSize, chain, size, pos, oblock', ooffset')
      ensures !ok ==> pos == old(pos) && spares == []
    {
      hide Sound, Begun, Held, BlockOf, Whole, Reading, Content, Covers, NewBlocks;
      var byte;
      ghost var s, blocks := Now(), dev.blocks;
      HeldIs(dev.blockSize, dev.blocks, s);
      byte, oblock', ooffset' := ReadRound(dev, head, size, pos, 1, reading, oblock, ooffset, chain);
      BoundsShrink(dev.blockSize, size, pos + 1);
      ok := FlushedWrite(byte);
      CopyKeepsWhole(dev.blockSize, blocks, s, dev.blocks, Now(), byte);
    }

    /** The loop of lfs_file_flush: copies over what the file has after the current branch, a byte at a time. */
    method CopyRest() returns (ok: bool)
      requires Valid() && writing && InBounds(dev.blockSize, pos) && InBounds(dev.blockSize, size)
      modifies this`pos, this`block, this`offset, this`writing, this`spares, this`branch, this`data, this`taken,
      dev`blocks
      ensures Valid() && SameFile(old(Now()), Now()) && writing && InBounds(dev.blockSize, pos)
      ensures Contents() == old(Contents())
      ensures ok <==> ToFlush(dev.blockSize, old(pos), old(size), true) <= |old(spares)|
      ensures ok ==> |spares| == |old(spares)| - ToFlush(dev.blockSize, old(pos), old(size), true)
      ensures if ok then size <= pos else spares == []
    {
      hide Sound, Begun, Held, BlockOf, Whole, Reading, Content, Covers, NewBlocks;
      var reading, oblock: nat, ooffset: nat := false, 0, 0;
      NothingNew(dev.blockSize, pos, true);
      while pos < size
        invariant old(pos) <= pos && (pos <= size || pos == old(pos))
        invariant Valid() && SameFile(old(Now()), Now()) && writing && InBounds(dev.blockSize, pos)
        invariant |spares| == |old(spares)| - NewBlocks(dev.blockSize, old(pos), pos - old(pos), true)
        invariant Contents() == old(Contents())
        invariant reading ==> Reading(dev.blockSize, chain, size, pos, oblock, ooffset)
        decreases size - pos
      {
        BoundsShrink(dev.blockSize, size, pos + 1);
        NewBlocksAdd(dev.blockSize, old(pos), pos - old(pos), 1, true);
        NewBlocksGrow(dev.blockSize, old(pos), pos + 1 - old(pos), size - old(pos), true);
        ok, oblock, ooffset := CopyByte(reading, oblock, ooffset);
        if !ok {
          return;
        }
        reading := true;
      }
      return true;
    }

    /** What was written becomes the file. */
    method Adopt(pos0: nat)
      requires Valid() && writing && size <= pos
      modifies this`head, this`size, this`chain, this`writing, this`dirty, this`pos
      ensures Valid() && Contents() == old(Contents())
      ensures size == old(pos) && pos == pos0 && dirty && !writing
    {
      hide Sound, Whole, BlockOf, Content, Covers, Branch, IsFile, AreSpare;
      // actual file updates
      FlushIsSound(dev.blockSize, dev.blocks, Now(), pos0);
      head, size, chain := block, pos, branch;
      writing, dirty, pos := false, true, pos0;
    }

    /**
     lfs_file_flush: copies over what follows the current branch, and only then takes the new chain for the file's. The
     content does not change, even if there are too few blocks left.
     */
    method Flush() returns (ok: bool)
      requires Valid() && InBounds(dev.blockSize, pos) && InBounds(dev.blockSize, size)
      modifies this, dev`blocks
      ensures Valid() && Contents() == old(Contents()) && base == old(base) && kept == old(kept)
      ensures ok <==> ToFlush(dev.blockSize, old(pos), old(size), old(writing)) <= |old(spares)|
      ensures ok ==> |spares| == |old(spares)| - ToFlush(dev.blockSize, old(pos), old(size), old(writing))
      ensures ok ==> !writing && pos == old(pos) && InBounds(dev.blockSize, size)
      ensures !old(writing) ==> Now() == old(Now())
      ensures dirty == (old(dirty) || (ok && old(writing)))
      ensures !ok ==> old(writing) && spares == [] && writing
    {
      hide Sound, Whole, InBounds, NewBlocks, ToFlush, BlockOf, Content, Covers, Branch, IsFile, AreSpare, Begun, Held;
      FlushesFree(dev.blockSize, pos, size, writing);
      if !writing {
        return true;
      }
      var pos0 := pos;
      ok := CopyRest();
      if ok {
        Adopt(pos0);
      }
    }

    /** lfs_file_rawread */
    method Read(nsize: nat) returns (ok: bool, bytes: seq<byte>)
      requires Valid() && InBounds(dev.blockSize, pos) && InBounds(dev.blockSize, size)
      modifies this, dev`blocks
      ensures Valid() && Contents() == old(Contents()) && base == old(base) && kept == old(kept)
      ensures ok <==> ToFlush(dev.blockSize, old(pos), old(size), old(writing)) <= |old(spares)|
      ensures !ok ==> old(writing) && spares == []
      ensures ok ==> |spares| == |old(spares)| - ToFlush(dev.blockSize, old(pos), old(size), old(writing))
      ensures ok ==> pos == old(pos) + |bytes|
      ensures ok ==>
                bytes == if old(pos) >= |Contents()| then []
                  else Contents()[old(pos)..Min(old(pos) + nsize, |Contents()|)]
    {
      hide Sound, BlockOf, Content, Covers;
      bytes := [];
      // flush out any writes
      ok := Flush();
      if ok {
        HeldIs(dev.blockSize, dev.blocks, Now());
        bytes := FlushedRead(dev, head, size, pos, nsize, chain);
        MovePos(dev.blockSize, dev.blocks, Now(), pos + |bytes|);
        pos := pos + |bytes|;
      }
    }

    /** lfs_file_rawseek to a position of its caller's */
    method Seek(npos: nat) returns (ok: bool)
      requires Valid() && InBounds(dev.blockSize, pos) && InBounds(dev.blockSize, size)
      modifies this, dev`blocks
      ensures Valid() && Contents() == old(Contents()) && base == old(base) && kept == old(kept)
      ensures ok <==> npos == old(pos) || ToFlush(dev.blockSize, old(pos), old(size), old(writing)) <= |old(spares)|
      ensures !ok ==> old(writing) && spares == []
      ensures ok ==> |spares| == |old(spares)| - if npos == old(pos) then 0
                                 else ToFlush(dev.blockSize, old(pos), old(size), old(writing))
      ensures ok ==> pos == npos
    {
      hide Sound, Whole;
      if pos == npos {
        // noop - position has not changed
        return true;
      }
      // write out everything beforehand
      ok := Flush();
      if ok {
        MovePos(dev.blockSize, dev.blocks, Now(), npos);
        pos := npos;
      }
    }

    /** The loop of lfs_file_rawwrite: the gap between the end of the file and the position is filled with zeros. */
    method FillGap(end: nat) returns (ok: bool)
      requires Valid() && !writing && size < end && InBounds(dev.blockSize, end)
      modifies this`pos, this`block, this`offset, this`writing, this`spares, this`branch, this`data, this`taken,
      dev`blocks
      ensures Valid() && base == old(base) && kept == old(kept) && size == old(size) <= pos <= end
      ensures writing == (size < pos) && Contents() == Spliced(old(Contents()), pos, [])
      ensures |spares| == |old(spares)| - NewBlocks(dev.blockSize, size, pos - size, false)
      ensures ok <==> NewBlocks(dev.blockSize, size, end - size, false) <= |old(spares)|
      ensures if ok then pos == end else spares == [] && pos < end
    {
      hide Sound, Begun, Held, BlockOf, Whole, Content, Covers, Spliced, NewBlocks;
      ghost var content := Contents();
      MovePos(dev.blockSize, dev.blocks, Now(), size);
      pos := size;
      FillStarts(dev.blockSize, dev.blocks, Now(), content);
      NothingNew(dev.blockSize, pos, false);
      ok := true;
      while ok && pos < end
        invariant Valid() && base == old(base) && kept == old(kept) && size == old(size) <= pos <= end
        invariant writing == (size < pos) && |content| == size
        invariant Begun(dev.blockSize, dev.blocks, Now()) == content + seq(pos - |content|, _ => 0)
        invariant |spares| == |old(spares)| - NewBlocks(dev.blockSize, size, pos - size, false)
        invariant !ok ==>
                    spares == [] && pos < end && NewBlocks(dev.blockSize, size, end - size, false) > |old(spares)|
        decreases ok, end - pos
      {
        BoundsShrink(dev.blockSize, end, pos + 1);
        ghost var at: nat := pos;
        FillsOne(dev.blockSize, size, pos, end, |spares|, |old(spares)|);
        ok := FlushedWrite([0]);
        NewBlocksAdd(dev.blockSize, size, at - size, pos - at, false);
        MoreZeros(content, at, pos);
      }
      FillEnds(dev.blockSize, dev.blocks, Now(), content);
      SplicedZeros(content, pos);
    }

    /** lfs_file_rawwrite: a write past the end fills the gap with zeros */
    method Write(buffer: seq<byte>) returns (ok: bool)
      requires Valid() && InBounds(dev.blockSize, pos + |buffer|) && InBounds(dev.blockSize, size)
      modifies this, dev`blocks
      ensures Valid() && base == old(base) && kept == old(kept)
      ensures ok ==> pos == old(pos) + |buffer|
      ensures ok ==> Contents() == Spliced(old(Contents()), old(pos), buffer)
      ensures var start := if !old(writing) && old(size) < old(pos) then old(size) else old(pos);
              var needed := NewBlocks(dev.blockSize, start, old(pos) + |buffer| - start, old(writing));
              (ok <==> needed <= |old(spares)|) && (ok ==> |spares| == |old(spares)| - needed)
      ensures !ok ==> spares == [] && pos < old(pos) + |buffer|
      ensures !ok ==> Contents() == if pos < old(pos) then Spliced(old(Contents()), pos, [])
                                    else Spliced(old(Contents()), old(pos), buffer[..pos - old(pos)])
    {
      hide Sound, Begun, Held, BlockOf, Whole, Content, Covers, Spliced, NewBlocks;
      ghost var content, pos0 := Contents(), pos;
      ghost var start := if !writing && size < pos then size else pos;
      BoundsShrink(dev.blockSize, pos + |buffer|, pos);
      NothingNew(dev.blockSize, pos, writing);
      if !writing && pos > size {
        // fill with zeros
        NewBlocksGrow(dev.blockSize, start, pos - start, pos + |buffer| - start, false);
        HeldIs(dev.blockSize, dev.blocks, Now());
        ok := FillGap(pos);
        if !ok {
          return;
        }
        SplicedZeros(content, pos);
      } else {
        WholeIs(dev.blockSize, dev.blocks, Now());
      }
      ghost var s, blocks := Now(), dev.blocks;
      NewBlocksAdd(dev.blockSize, start, pos - start, |buffer|, old(writing));
      ok := FlushedWrite(buffer);
      WriteSplices(dev.blockSize, blocks, s, dev.blocks, Now(), content, pos0, buffer[..pos - pos0]);
      assert buffer[..|buffer|] == buffer;
    }

    /** The end of lfs_file_rawsync: the directory entry refers to the file's chain from now on. */
    method Committed()
      requires Valid() && !writing
      modifies this`dirty, this`base, this`kept, this`taken
      ensures Valid() && !dirty && Contents() == old(Contents()) && base == dev.blocks && kept == (set b | b in chain)
              && taken == {}
    {
      hide Branch, IsFile, BlockOf, Content, Covers, NewBlocks;
      dirty, base, kept, taken := false, dev.blocks, set b | b in chain, {};
    }
  }

  /** What follows a position. */
  function Rest(held: seq<byte>, pos: nat): seq<byte> {
    if pos < |held| then held[pos..] else []
  }

  lemma WholeIs(blockSize: nat, blocks: seq<seq<byte>>, s: State)
    requires Sound(blockSize, blocks, s) && (!s.writing ==> s.pos <= s.size)
    ensures |Begun(blockSize, blocks, s)| == s.pos && |Held(blockSize, blocks, s)| == s.size
    ensures Whole(blockSize, blocks, s) == Begun(blockSize, blocks, s) + Rest(Held(blockSize, blocks, s), s.pos)
  {
    hide Branch, BlockOf, Content, Covers;
    BegunLength(blockSize, blocks, s);
    var held := Held(blockSize, blocks, s);
    if !s.writing {
      assert held == held[..s.pos] + held[s.pos..];
    }
  }

  lemma HeldIs(blockSize: nat, blocks: seq<seq<byte>>, s: State)
    requires Sound(blockSize, blocks, s)
    ensures Covers(blockSize, blocks, s.chain, s.size)
            && Held(blockSize, blocks, s) == Content(blockSize, blocks, s.chain, s.size)
    ensures s.size > 0 ==> s.head == s.chain[BlockOf(blockSize, s.size - 1)]
    ensures !s.writing ==> Whole(blockSize, blocks, s) == Content(blockSize, blocks, s.chain, s.size)
  {
    hide Branch, BlockOf, Content, Covers;
  }

  /** Copying the next byte does not change what the file will hold. */
  lemma CopyKeepsWhole(blockSize: nat, blocks: seq<seq<byte>>, s: State, blocks': seq<seq<byte>>, s': State,
                       bytes: seq<byte>)
    requires Sound(blockSize, blocks, s) && Sound(blockSize, blocks', s') && s.writing && s'.writing && s.pos < s.size
    requires Held(blockSize, blocks', s') == Held(blockSize, blocks, s) && |bytes| == 1
    requires bytes == Content(blockSize, blocks, s.chain, s.size)[s.pos..s.pos + 1]
    requires s.pos <= s'.pos <= s.pos + 1
    requires Begun(blockSize, blocks', s') == Begun(blockSize, blocks, s) + bytes[..s'.pos - s.pos]
    ensures Whole(blockSize, blocks', s') == Whole(blockSize, blocks, s)
  {
    hide *;
    WholeIs(blockSize, blocks, s);
    WholeIs(blockSize, blocks', s');
    HeldIs(blockSize, blocks, s);
    CopiesByte(Begun(blockSize, blocks, s), Held(blockSize, blocks, s), s.pos, s'.pos, bytes);
  }

  lemma CopiesByte(begun: seq<byte>, held: seq<byte>, pos: nat, pos': nat, bytes: seq<byte>)
    requires pos < |held| && bytes == held[pos..pos + 1] && pos <= pos' <= pos + 1
    ensures begun + bytes[..pos' - pos] + Rest(held, pos') == begun + Rest(held, pos)
  {
    if pos' == pos {
      assert bytes[..0] == [] && begun + [] == begun;
    } else {
      assert bytes[..1] == bytes;
      assert held[pos..] == held[pos..pos + 1] + Rest(held, pos + 1);
    }
  }

  /** The branch becomes the chain. */
  lemma FlushIsSound(blockSize: nat, blocks: seq<seq<byte>>, s: State, pos: nat)
    requires Sound(blockSize, blocks, s) && s.writing && s.size <= s.pos
    ensures var s' := s.(head := s.block, size := s.pos, chain := s.branch, writing := false, dirty := true,
                         pos := pos);
            Sound(blockSize, blocks, s') && Whole(blockSize, blocks, s') == Whole(blockSize, blocks, s)
  {
    hide BlockOf, Content, Covers;
  }

  lemma MovePos(blockSize: nat, blocks: seq<seq<byte>>, s: State, pos: nat)
    requires Sound(blockSize, blocks, s) && !s.writing
    ensures Sound(blockSize, blocks, s.(pos := pos))
            && Whole(blockSize, blocks, s.(pos := pos)) == Whole(blockSize, blocks, s)
  {
    hide BlockOf, Content, Covers, Branch;
  }

  lemma FillStarts(blockSize: nat, blocks: seq<seq<byte>>, s: State, content: seq<byte>)
    requires Sound(blockSize, blocks, s) && !s.writing && s.pos == s.size && content == Whole(blockSize, blocks, s)
    ensures Begun(blockSize, blocks, s) == content + seq(s.pos - |content|, _ => 0) && |content| == s.size
  {
    hide BlockOf, Covers, Branch;
    HeldIs(blockSize, blocks, s);
    assert content[..s.size] == content + [];
  }

  /** After the gap was filled the file holds the zeros as well. */
  lemma FillEnds(blockSize: nat, blocks: seq<seq<byte>>, s: State, content: seq<byte>)
    requires Sound(blockSize, blocks, s) && (!s.writing ==> s.pos <= s.size) && s.size <= |content| <= s.pos
    requires Begun(blockSize, blocks, s) == content + seq(s.pos - |content|, _ => 0)
    ensures Whole(blockSize, blocks, s) == content + seq(s.pos - |content|, _ => 0)
  {
    hide Sound, Begun, Held, Whole;
    WholeIs(blockSize, blocks, s);
  }

  /** The next byte of the gap takes a new block that is not there only if the whole gap takes too many. */
  lemma FillsOne(blockSize: nat, size: nat, pos: nat, end: nat, left: nat, count: nat)
    requires MIN_BLOCK_SIZE <= blockSize && size <= pos < end < MAX_SIZE
    requires left == count - NewBlocks(blockSize, size, pos - size, false)
    ensures left < NewBlocks(blockSize, pos, 1, size < pos) ==> count < NewBlocks(blockSize, size, end - size, false)
  {
    hide NewBlocks;
    NewBlocksAdd(blockSize, size, pos - size, 1, false);
    NewBlocksGrow(blockSize, size, pos + 1 - size, end - size, false);
  }

  lemma MoreZeros(content: seq<byte>, at: nat, pos: nat)
    requires |content| <= at <= pos <= at + 1
    ensures content + seq(at - |content|, _ => 0) + [0][..pos - at] == content + seq(pos - |content|, _ => 0)
  {
  }

  lemma SplicedZeros(content: seq<byte>, pos: nat)
    requires |content| <= pos
    ensures Spliced(content, pos, []) == content + seq(pos - |content|, _ => 0)
  {
    var zeros := seq(pos - |content|, _ => 0);
    assert content[..|content|] == content && content[|content|..] == [];
    assert content + [] == content && zeros + [] + [] == zeros;
    if pos == |content| {
      assert content[..pos] + [] + [] == content + zeros;
    }
  }

  lemma WriteSplices(blockSize: nat, blocks: seq<seq<byte>>, s: State, blocks': seq<seq<byte>>, s': State,
                     content: seq<byte>, pos: nat, buffer: seq<byte>)
    requires Sound(blockSize, blocks, s) && Sound(blockSize, blocks', s') && s.pos == pos
    requires (!s.writing ==> s.pos <= s.size) && (!s'.writing ==> s'.pos <= s'.size)
    requires Whole(blockSize, blocks, s)
             == (if pos <= |content| then content else content + seq(pos - |content|, _ => 0))
    requires Held(blockSize, blocks', s') == Held(blockSize, blocks, s) && s'.pos == pos + |buffer|
    requires Begun(blockSize, blocks', s') == Begun(blockSize, blocks, s) + buffer
    ensures Whole(blockSize, blocks', s') == Spliced(content, pos, buffer)
  {
    hide *;
    WholeIs(blockSize, blocks, s);
    WholeIs(blockSize, blocks', s');
    SplicesParts(content, Begun(blockSize, blocks, s), Held(blockSize, blocks, s), pos, buffer);
  }

  lemma SplicesParts(content: seq<byte>, begun: seq<byte>, held: seq<byte>, pos: nat, bytes: seq<byte>)
    requires |begun| == pos
    requires begun + Rest(held, pos) == if pos <= |content| then content else content + seq(pos - |content|, _ => 0)
    ensures begun + bytes + Rest(held, pos + |bytes|) == Spliced(content, pos, bytes)
  {
    if pos <= |content| {
      assert content[..pos] == begun && content[pos..] == Rest(held, pos);
      RestOfRest(held, pos, |bytes|);
      RestOfRest(content, pos, |bytes|);
    } else {
      assert |Rest(held, pos)| == 0;
      assert begun == content + seq(pos - |content|, _ => 0);
    }
  }

  lemma RestOfRest(held: seq<byte>, pos: nat, n: nat)
    ensures Rest(Rest(held, pos), n) == Rest(held, pos + n)
  {
  }

  lemma SoundBounds(blockSize: nat, blocks: seq<seq<byte>>, s: State)
    requires Sound(blockSize, blocks, s)
    ensures |blocks| <= MAX_SIZE
  {
  }

  lemma AfterBegun(blockSize: nat, blocks: seq<seq<byte>>, s: State, begun: seq<byte>, d: seq<byte>, used: bool,
                   block: nat, offset: nat, branch: seq<nat>)
    requires Sound(blockSize, blocks, AfterRound(s, begun, d, used, block, offset, branch))
    ensures Begun(blockSize, blocks, AfterRound(s, begun, d, used, block, offset, branch)) == begun + d
    ensures SameFile(s, AfterRound(s, begun, d, used, block, offset, branch))
    ensures AfterRound(s, begun, d, used, block, offset, branch).pos == s.pos + |d|
    ensures AfterRound(s, begun, d, used, block, offset, branch).writing
    ensures |AfterRound(s, begun, d, used, block, offset, branch).spares|
         == |s.spares| - if used && s.spares != [] then 1 else 0
  {
    hide Sound;
  }
}
