/**
 Files as skip-lists of blocks: block n points to the blocks n - 2^k for every k up to ctz(n).
 Finding a byte follows the longest pointers that do not overshoot; extending a file copies its last
 block if there is room in it, and otherwise writes a new block with all its pointers.
 */
module CtzList {
  import opened Bits
  import opened Words
  import opened TagLog
  import opened Device
  import opened CtzIndex

  const NULL_BLOCK: nat := 0xffff_ffff_ffff_ffff

  // The largest number of blocks whose index lfs_ctz_index can return.
  const MAX_BLOCKS: nat := 0x8000_0000

  /** The k-th pointer at the head of a block. */
  function PointerAt(block: seq<byte>, k: nat): nat
    requires PTR_SIZE * k + PTR_SIZE <= |block|
  {
    FromLE(block[PTR_SIZE * k..PTR_SIZE * k + PTR_SIZE])
  }

  // ---------- chains ----------

  lemma {:induction false} CtzDivides(n: nat, k: nat)
    requires n > 0 && k <= Ctz(n)
    ensures Pow2(k) <= n
    decreases k
  {
    if k > 0 {
      CtzDivides(Half(n), k - 1);
    }
  }

  lemma HalfOfSub(n: nat, p: nat)
    requires 2 * p <= n
    ensures Half(n - 2 * p) == Half(n) - p && Odd(n - 2 * p) == Odd(n)
  {
  }

  /**
   Following the longest pointer leads to a block with more pointers, any other one to a block with just that many.
   */
  lemma {:induction false} CtzAfterHop(n: nat, k: nat)
    requires n > 0 && k <= Ctz(n) && Pow2(k) < n
    ensures if k == Ctz(n) then Ctz(n - Pow2(k)) > k else Ctz(n - Pow2(k)) == k
    decreases k
  {
    if k == 0 {
      HalfOfPred(n);
    } else {
      HalfOfSub(n, Pow2(k - 1));
      CtzAfterHop(Half(n), k - 1);
    }
  }

  /** Pointer k of block n of the chain, for every one that the block holds. */
  ghost predicate PointsBack(blockSize: nat, blocks: seq<seq<byte>>, chain: seq<nat>, n: nat)
    requires 0 < n < |chain|
  {
    && HeadSize(n) <= blockSize
    && chain[n] < |blocks| && |blocks[chain[n]]| == blockSize
    && forall k :: 0 <= k <= Ctz(n) ==> Linked(blocks[chain[n]], chain, n, k)
  }

  ghost predicate Linked(block: seq<byte>, chain: seq<nat>, n: nat, k: nat)
    requires 0 < n
  {
    && PTR_SIZE * k + PTR_SIZE <= |block|
    && Pow2(k) <= n && n - Pow2(k) < |chain|
    && PointerAt(block, k) == chain[n - Pow2(k)]
  }

  /** The blocks of a file from the first to the last. */
  ghost predicate IsChain(blockSize: nat, blocks: seq<seq<byte>>, chain: seq<nat>) {
    && (forall n :: 0 <= n < |chain| ==> chain[n] < |blocks| && |blocks[chain[n]]| == blockSize)
    && (forall n :: 0 < n < |chain| ==> PointsBack(blockSize, blocks, chain, n))
  }

  /** A chain that is long enough for a file of the given size. */
  ghost predicate Covers(blockSize: nat, blocks: seq<seq<byte>>, chain: seq<nat>, size: nat) {
    && MIN_BLOCK_SIZE <= blockSize && size < MAX_SIZE
    && IsChain(blockSize, blocks, chain)
    && (size > 0 ==> BlockOf(blockSize, size - 1) < |chain|)
    && |chain| < MAX_BLOCKS
  }

  lemma BlockOfGrows(blockSize: nat, pos: nat, pos': nat)
    requires MIN_BLOCK_SIZE <= blockSize && pos <= pos' < MAX_SIZE
    ensures BlockOf(blockSize, pos) <= BlockOf(blockSize, pos')
  {
    var n, n' := BlockOf(blockSize, pos), BlockOf(blockSize, pos');
    if n' < n {
      InRange(blockSize, pos, n, HeadSize(n) + (pos - Start(blockSize, n)));
      StartGrowsTo(blockSize, n' + 1, n);
    }
  }

  /** A byte of a file. */
  function ByteAt(blockSize: nat, blocks: seq<seq<byte>>, chain: seq<nat>, pos: nat): byte
    requires MIN_BLOCK_SIZE <= blockSize && pos < MAX_SIZE && BlockOf(blockSize, pos) < |chain|
    requires forall n :: 0 <= n < |chain| ==> chain[n] < |blocks| && |blocks[chain[n]]| == blockSize
  {
    blocks[chain[BlockOf(blockSize, pos)]][OffsetOf(blockSize, pos)]
  }

  /** The content of a file. */
  ghost function Content(blockSize: nat, blocks: seq<seq<byte>>, chain: seq<nat>, size: nat): (s: seq<byte>)
    requires Covers(blockSize, blocks, chain, size)
    ensures |s| == size
  {
    seq(size, pos requires 0 <= pos < size =>
      BlockOfGrows(blockSize, pos, size - 1);
      ByteAt(blockSize, blocks, chain, pos))
  }

  // ---------- finding ----------

  /** The number of binary digits: what is left of 64 after counting the leading zeros. */
  function Digits(n: nat): nat {
    if n == 0 then 0 else 1 + Digits(Half(n))
  }

  /** lfs_npw2_64 */
  function Npw2(a: nat): nat
    requires a > 0
  {
    if a == 1 then 1 else Digits(a - 1)
  }

  lemma {:induction false} DigitsBound(n: nat)
    requires n > 0
    ensures Digits(n) > 0 && Pow2(Digits(n) - 1) <= n < Pow2(Digits(n))
    decreases n
  {
    if n > 1 {
      DigitsBound(Half(n));
    }
  }

  lemma {:induction false} DigitsFit(n: nat, k: nat)
    requires n < Pow2(k)
    ensures Digits(n) <= k
    decreases k
  {
    if n > 0 {
      DigitsFit(Half(n), k - 1);
    }
  }

  lemma {:induction false} Pow2Grows(j: nat, k: nat)
    requires j <= k
    ensures Pow2(j) <= Pow2(k)
    decreases k
  {
    if j < k {
      Pow2Grows(j, k - 1);
    }
  }

  function Log2(d: nat): nat
    requires d > 0
  {
    DigitsBound(d);
    Digits(d) - 1
  }

  /** The pointer to follow: as far as the block has pointers, but not past the target. */
  function Skip(current: nat, target: nat): nat
    requires target < current
  {
    if Log2(current - target) <= Ctz(current) then Log2(current - target) else Ctz(current)
  }

  /** How many more hops it can take: first to blocks with more and more pointers, then by shorter and shorter ones. */
  function HopsLeft(current: nat, target: nat): nat
    requires target <= current
  {
    if current == target then 0
    else
      var l, c := Log2(current - target), Ctz(current);
      if c >= l then l + 1 else l - c + l + 1
  }

  lemma HopLands(current: nat, target: nat)
    requires target < current
    ensures target <= current - Pow2(Skip(current, target))
  {
    DigitsBound(current - target);
    Pow2Grows(Skip(current, target), Log2(current - target));
  }

  lemma HopCounts(current: nat, target: nat)
    requires target < current
    ensures target <= current - Pow2(Skip(current, target))
    ensures HopsLeft(current - Pow2(Skip(current, target)), target) < HopsLeft(current, target)
  {
    hide Ctz, Digits;
    HopLands(current, target);
    var d, skip := current - target, Skip(current, target);
    var l, c := Log2(d), Ctz(current);
    var next := current - Pow2(skip);
    if next != target {
      CtzAfterHop(current, skip);
      DigitsBound(d);
      if skip == l {
        DigitsFit(next - target, l);
      } else {
        DigitsFit(next - target, l + 1);
      }
    }
  }

  lemma {:induction false} CtzSmall(n: nat, k: nat)
    requires 0 < n < Pow2(k)
    ensures Ctz(n) < k
    decreases k
  {
    CtzDivides(n, Ctz(n));
    if Ctz(n) >= k {
      Pow2Grows(k, Ctz(n));
    }
  }

  lemma SkipIs(current: nat, target: nat, npw2: nat, ctz: nat)
    requires target < current && npw2 == Npw2(current - target + 1) && ctz == Ctz(current)
    ensures npw2 > 0 && Skip(current, target) == if npw2 - 1 < ctz then npw2 - 1 else ctz
  {
    DigitsBound(current - target);
  }

  /** The pointer that is followed is there, and it leads to a block of the chain that is not past the target. */
  lemma PointerIsThere(blockSize: nat, blocks: seq<seq<byte>>, chain: seq<nat>, current: nat, target: nat)
    requires IsChain(blockSize, blocks, chain) && target < current < |chain|
    ensures var skip := Skip(current, target);
            && target <= current - Pow2(skip)
            && chain[current] < |blocks| && |blocks[chain[current]]| == blockSize
            && PTR_SIZE * skip + PTR_SIZE <= blockSize
            && PointerAt(blocks[chain[current]], skip) == chain[current - Pow2(skip)]
  {
    HopLands(current, target);
    assert PointsBack(blockSize, blocks, chain, current);
    assert Linked(blocks[chain[current]], chain, current, Skip(current, target));
  }

  /**
   lfs_ctz_find: it ends at the block that holds the position, reading only pointers that are there,
   after at most twice as many hops as the distance has binary digits.
   */
  method Find(dev: BlockDevice, head: nat, size: nat, pos: nat, ghost chain: seq<nat>)
    returns (block: nat, offset: nat, ghost hops: nat)
    requires dev.Valid() && Covers(dev.blockSize, dev.blocks, chain, size)
    requires size == 0 || (pos < size && head == chain[BlockOf(dev.blockSize, size - 1)])
    ensures size == 0 ==> block == NULL_BLOCK && offset == 0
    ensures size > 0 ==>
              && BlockOf(dev.blockSize, pos) <= BlockOf(dev.blockSize, size - 1) < |chain|
              && block == chain[BlockOf(dev.blockSize, pos)] && offset == OffsetOf(dev.blockSize, pos)
              && hops <= HopsLeft(BlockOf(dev.blockSize, size - 1), BlockOf(dev.blockSize, pos))
  {
    hide IsChain, HopsLeft, Skip, Ctz, Pow2, Digits, BlockOf, Lies, Npw2;
    hops := 0;
    if size == 0 {
      return NULL_BLOCK, 0, 0;
    }
    BlockOfGrows(dev.blockSize, pos, size - 1);
    var current, noff := Index(dev.blockSize, size - 1);
    var target, off := Index(dev.blockSize, pos);
    LiesOnce(dev.blockSize, pos, target, off, target, OffsetOf(dev.blockSize, pos));
    block, offset := head, off;
    ghost var last := current;
    while current > target
      invariant target <= current < |chain| && block == chain[current]
      invariant hops + HopsLeft(current, target) <= HopsLeft(last, target)
      decreases current
    {
      var npw2 := Npw2(current - target + 1);
      FitsCount(current);
      var ctz := Ctz64(current);
      SkipIs(current, target, npw2, ctz);
      var skip := if npw2 - 1 < ctz then npw2 - 1 else ctz;
      HopCounts(current, target);
      PointerIsThere(dev.blockSize, dev.blocks, chain, current, target);
      var bytes := dev.Read(block, PTR_SIZE * skip, PTR_SIZE);
      block := FromLE(bytes);
      current := current - Pow2(skip);
      hops := hops + 1;
    }
  }

  lemma FitsCount(n: nat)
    requires n < MAX_BLOCKS
    ensures n < MAX_SIZE
  {
  }

  /** The bound in plain terms: at most two hops for every binary digit of the distance. */
  lemma HopsBound(current: nat, target: nat)
    requires target < current
    ensures HopsLeft(current, target) <= 2 * (Log2(current - target) + 1)
  {
  }

  // ---------- extending ----------

  /** The chain after a block was put in place of an incomplete last one, or added after a full one. */
  ghost function Extended(chain: seq<nat>, n: nat, nblock: nat): seq<nat>
    requires n <= |chain|
  {
    chain[..n] + [nblock]
  }

  /** A new block that is not part of the chain, with pointers of its own, extends it. */
  lemma ExtendsChain(blockSize: nat, blocks: seq<seq<byte>>, chain: seq<nat>, n: nat, nblock: nat, block: seq<byte>)
    requires IsChain(blockSize, blocks, chain) && n <= |chain|
    requires nblock < |blocks| && |block| == blockSize && nblock !in chain
    requires n > 0 ==> PointsBack(blockSize, blocks[nblock := block], Extended(chain, n, nblock), n)
    ensures IsChain(blockSize, blocks[nblock := block], Extended(chain, n, nblock))
  {
    var blocks', chain' := blocks[nblock := block], Extended(chain, n, nblock);
    forall m | 0 < m < |chain'|
      ensures PointsBack(blockSize, blocks', chain', m)
    {
      if m < n {
        assert chain'[m] == chain[m] && chain[m] in chain;
        assert PointsBack(blockSize, blocks, chain, m);
        forall k | 0 <= k <= Ctz(m)
          ensures Linked(blocks'[chain'[m]], chain', m, k)
        {
          assert Linked(blocks[chain[m]], chain, m, k);
        }
      }
    }
    forall m | 0 <= m < |chain'|
      ensures chain'[m] < |blocks'| && |blocks'[chain'[m]]| == blockSize
    {
      if m < n {
        assert chain'[m] == chain[m];
      }
    }
  }

  /** A copy of the part of a block that holds pointers points where the block does. */
  lemma CopyPointsBack(blockSize: nat, blocks: seq<seq<byte>>, chain: seq<nat>, nblock: nat, block: seq<byte>,
                       noff: nat)
    requires IsChain(blockSize, blocks, chain) && |chain| > 1
    requires nblock < |blocks| && |block| == blockSize && nblock !in chain
    requires HeadSize(|chain| - 1) <= noff <= blockSize
    requires block[..noff] == blocks[chain[|chain| - 1]][..noff]
    ensures PointsBack(blockSize, blocks[nblock := block], Extended(chain, |chain| - 1, nblock), |chain| - 1)
  {
    var n, blocks', chain' := |chain| - 1, blocks[nblock := block], Extended(chain, |chain| - 1, nblock);
    var head := blocks[chain[n]];
    assert PointsBack(blockSize, blocks, chain, n);
    forall k | 0 <= k <= Ctz(n)
      ensures Linked(block, chain', n, k)
    {
      assert Linked(head, chain, n, k);
      var a := PTR_SIZE * k;
      assert block[a..a + PTR_SIZE] == block[..noff][a..a + PTR_SIZE] == head[..noff][a..a + PTR_SIZE]
             == head[a..a + PTR_SIZE];
    }
  }

  /** All the bytes the old chain held can be read from the new one. */
  lemma SameBytes(blockSize: nat, blocks: seq<seq<byte>>, chain: seq<nat>, size: nat, n: nat, nblock: nat,
                  block: seq<byte>)
    requires Covers(blockSize, blocks, chain, size) && n == BlockOf(blockSize, size) <= |chain|
    requires size + 1 < MAX_SIZE && n + 1 < MAX_BLOCKS
    requires nblock < |blocks| && |block| == blockSize && nblock !in chain
    requires IsChain(blockSize, blocks[nblock := block], Extended(chain, n, nblock))
    requires n < |chain| ==> block[..OffsetOf(blockSize, size)] == blocks[chain[n]][..OffsetOf(blockSize, size)]
    ensures Covers(blockSize, blocks[nblock := block], Extended(chain, n, nblock), size + 1)
    ensures Content(blockSize, blocks[nblock := block], Extended(chain, n, nblock), size + 1)[..size]
         == Content(blockSize, blocks, chain, size)
  {
    var blocks', chain' := blocks[nblock := block], Extended(chain, n, nblock);
    forall pos | 0 <= pos < size
      ensures BlockOf(blockSize, pos) < |chain| && BlockOf(blockSize, pos) < |chain'|
      ensures ByteAt(blockSize, blocks', chain', pos) == ByteAt(blockSize, blocks, chain, pos)
    {
      BlockOfGrows(blockSize, pos, size);
      BlockOfGrows(blockSize, pos, size - 1);
      var m, off := BlockOf(blockSize, pos), OffsetOf(blockSize, pos);
      if m < n {
        assert chain'[m] == chain[m] && chain[m] in chain;
      } else {
        assert off < OffsetOf(blockSize, size);
        var end := OffsetOf(blockSize, size);
        assert block[off] == block[..end][off] == blocks[chain[n]][..end][off];
      }
    }
  }

  /** Whether there is room in the last block: if not, the next byte begins a new one. */
  lemma NextByte(blockSize: nat, size: nat)
    requires MIN_BLOCK_SIZE <= blockSize && 0 < size && size + 1 < MAX_SIZE
    ensures var n, noff := BlockOf(blockSize, size - 1), OffsetOf(blockSize, size - 1) + 1;
            if noff == blockSize then BlockOf(blockSize, size) == n + 1 && OffsetOf(blockSize, size) == HeadSize(n + 1)
            else BlockOf(blockSize, size) == n && OffsetOf(blockSize, size) == noff
  {
    var n := BlockOf(blockSize, size - 1);
    var m := BlockOf(blockSize, size);
    InRange(blockSize, size, m, OffsetOf(blockSize, size));
    BlockOfGrows(blockSize, size - 1, size);
    StartStep(blockSize, n);
    if OffsetOf(blockSize, size - 1) + 1 == blockSize {
      assert size == Start(blockSize, n + 1);
      InRange(blockSize, size - 1, n, OffsetOf(blockSize, size - 1));
      if m > n + 1 {
        StartGrows(blockSize, n + 1);
        StartGrowsTo(blockSize, n + 2, m);
      }
    } else if m > n {
      StartGrowsTo(blockSize, n + 1, m);
    }
  }

  lemma StartStep(blockSize: nat, n: nat)
    ensures Start(blockSize, n + 1) == Start(blockSize, n) + blockSize - HeadSize(n)
  {
  }

  /** Copies the beginning of a block into an erased one. */
  method CopyBlock(dev: BlockDevice, head: nat, nblock: nat, noff: nat)
    requires dev.Valid() && head < |dev.blocks| && nblock < |dev.blocks| && head != nblock && noff <= dev.blockSize
    modifies dev`blocks
    ensures dev.Valid() && |dev.blocks| == |old(dev.blocks)|
    ensures dev.blocks == old(dev.blocks)[nblock := dev.blocks[nblock]]
    ensures dev.blocks[nblock][..noff] == old(dev.blocks)[head][..noff]
  {
    for idx := 0 to noff
      invariant dev.Valid() && |dev.blocks| == |old(dev.blocks)|
      invariant dev.blocks == old(dev.blocks)[nblock := dev.blocks[nblock]]
      invariant dev.blocks[nblock][..idx] == old(dev.blocks)[head][..idx]
    {
      var data := dev.Read(head, idx, 1);
      ghost var before := dev.blocks[nblock];
      dev.Write(nblock, idx, data);
      CopyOne(before, old(dev.blocks)[head], idx, data);
    }
  }

  lemma CopyOne(block: seq<byte>, from: seq<byte>, idx: nat, data: seq<byte>)
    requires |block| == |from| && idx < |block| && block[..idx] == from[..idx] && data == from[idx..idx + 1]
    ensures Overlay(block, idx, data)[..idx + 1] == from[..idx + 1]
  {
    var r := Overlay(block, idx, data);
    assert r[..idx + 1] == r[..idx] + [r[idx]];
    assert from[..idx + 1] == from[..idx] + [from[idx]];
    OverlaySlices(block, idx, data);
    assert r[idx] == data[0];
  }

  lemma PointerWritten(block: seq<byte>, k: nat, to: nat, j: nat)
    requires j <= k && PTR_SIZE * k + PTR_SIZE <= |block| && to < MAX_SIZE
    ensures var r := Overlay(block, PTR_SIZE * k, ToLE(to, PTR_SIZE));
            PointerAt(r, j) == if j == k then to else PointerAt(block, j)
  {
    var r := Overlay(block, PTR_SIZE * k, ToLE(to, PTR_SIZE));
    OverlaySlices(block, PTR_SIZE * k, ToLE(to, PTR_SIZE));
    if j == k {
      LERoundTrip(to, PTR_SIZE);
    } else {
      var a, b := PTR_SIZE * j, PTR_SIZE * k;
      assert r[a..a + PTR_SIZE] == r[..b][a..a + PTR_SIZE] == block[..b][a..a + PTR_SIZE] == block[a..a + PTR_SIZE];
    }
  }

  /** The pointers of the block after the last one of the chain. */
  method WritePointers(dev: BlockDevice, head: nat, nblock: nat, index: nat, ghost chain: seq<nat>)
    requires dev.Valid() && IsChain(dev.blockSize, dev.blocks, chain) && |dev.blocks| <= MAX_SIZE
    requires 0 < index == |chain| < MAX_BLOCKS && head == chain[index - 1] && HeadSize(index) <= dev.blockSize
    requires nblock < |dev.blocks| && nblock !in chain
    modifies dev`blocks
    ensures dev.Valid() && |dev.blocks| == |old(dev.blocks)|
    ensures dev.blocks == old(dev.blocks)[nblock := dev.blocks[nblock]]
    ensures PointsBack(dev.blockSize, dev.blocks, chain + [nblock], index)
  {
    var ctz := Ctz64(index);
    var skips := ctz + 1;
    var nhead := head;
    ghost var chain' := chain + [nblock];
    for idx := 0 to skips
      invariant dev.Valid() && |dev.blocks| == |old(dev.blocks)|
      invariant dev.blocks == old(dev.blocks)[nblock := dev.blocks[nblock]]
      invariant idx < skips ==> Pow2(idx) <= index && nhead == chain[index - Pow2(idx)]
      invariant forall k :: 0 <= k < idx ==> Linked(dev.blocks[nblock], chain', index, k)
    {
      ghost var before := dev.blocks[nblock];
      dev.Write(nblock, PTR_SIZE * idx, ToLE(nhead, PTR_SIZE));
      forall k | 0 <= k <= idx
        ensures Linked(dev.blocks[nblock], chain', index, k)
      {
        if k < idx {
          assert Linked(before, chain', index, k);
        }
        PointerWritten(before, idx, nhead, k);
      }
      if idx != skips - 1 {
        NextPointer(dev.blockSize, old(dev.blocks), chain, index, idx);
        var bytes := dev.Read(nhead, PTR_SIZE * idx, PTR_SIZE);
        nhead := FromLE(bytes);
      }
    }
  }

  /** The pointers of a new block are found by following ever longer pointers back from it. */
  lemma NextPointer(blockSize: nat, blocks: seq<seq<byte>>, chain: seq<nat>, index: nat, k: nat)
    requires IsChain(blockSize, blocks, chain) && 0 < index == |chain| && k < Ctz(index)
    ensures Pow2(k + 1) <= index && Pow2(k) <= index
    ensures var m := chain[index - Pow2(k)];
            && m < |blocks| && PTR_SIZE * k + PTR_SIZE <= |blocks[m]|
            && PointerAt(blocks[m], k) == chain[index - Pow2(k + 1)]
  {
    CtzDivides(index, k + 1);
    CtzAfterHop(index, k);
    var n := index - Pow2(k);
    assert PointsBack(blockSize, blocks, chain, n);
    assert Linked(blocks[chain[n]], chain, n, k);
  }

  /** The new block holds what it takes to extend the chain where the next byte goes. */
  ghost predicate Ready(blockSize: nat, blocks: seq<seq<byte>>, chain: seq<nat>, size: nat, nblock: nat,
                        block: seq<byte>) {
    && MIN_BLOCK_SIZE <= blockSize && size < MAX_SIZE && nblock < |blocks| && |block| == blockSize
    && var n := BlockOf(blockSize, size);
    && n <= |chain|
    && (n > 0 ==> PointsBack(blockSize, blocks[nblock := block], Extended(chain, n, nblock), n))
    && (n < |chain| ==> chain[n] < |blocks| && |blocks[chain[n]]| == blockSize &&
                        block[..OffsetOf(blockSize, size)] == blocks[chain[n]][..OffsetOf(blockSize, size)])
  }

  lemma ReadyExtends(blockSize: nat, blocks: seq<seq<byte>>, chain: seq<nat>, size: nat, nblock: nat, block: seq<byte>)
    requires Covers(blockSize, blocks, chain, size) && nblock !in chain
    requires size + 1 < MAX_SIZE && |chain| + 1 < MAX_BLOCKS
    requires Ready(blockSize, blocks, chain, size, nblock, block)
    ensures var chain' := Extended(chain, BlockOf(blockSize, size), nblock);
            && Covers(blockSize, blocks[nblock := block], chain', size + 1)
            && Content(blockSize, blocks[nblock := block], chain', size + 1)[..size]
               == Content(blockSize, blocks, chain, size)
  {
    hide PointsBack, IsChain, BlockOf, Content, OffsetOf;
    var n := BlockOf(blockSize, size);
    ExtendsChain(blockSize, blocks, chain, n, nblock, block);
    SameBytes(blockSize, blocks, chain, size, n, nblock, block);
  }

  lemma CopyIsReady(blockSize: nat, blocks: seq<seq<byte>>, chain: seq<nat>, size: nat, nblock: nat, block: seq<byte>)
    requires Covers(blockSize, blocks, chain, size) && 0 < size && size + 1 < MAX_SIZE
    requires |chain| == BlockOf(blockSize, size - 1) + 1
    requires nblock < |blocks| && |block| == blockSize && nblock !in chain
    requires OffsetOf(blockSize, size - 1) + 1 != blockSize
    requires block[..OffsetOf(blockSize, size - 1) + 1]
             == blocks[chain[|chain| - 1]][..OffsetOf(blockSize, size - 1) + 1]
    ensures Ready(blockSize, blocks, chain, size, nblock, block)
    ensures OffsetOf(blockSize, size) == OffsetOf(blockSize, size - 1) + 1
  {
    hide PointsBack, IsChain, BlockOf;
    NextByte(blockSize, size);
    assert Lies(blockSize, size - 1, |chain| - 1, OffsetOf(blockSize, size - 1));
    if |chain| > 1 {
      CopyPointsBack(blockSize, blocks, chain, nblock, block, OffsetOf(blockSize, size - 1) + 1);
    }
    ChainBlock(blockSize, blocks, chain, |chain| - 1);
  }

  lemma ChainBlock(blockSize: nat, blocks: seq<seq<byte>>, chain: seq<nat>, n: nat)
    requires IsChain(blockSize, blocks, chain) && n < |chain|
    ensures chain[n] < |blocks| && |blocks[chain[n]]| == blockSize
  {
  }

  lemma AppendIsReady(blockSize: nat, blocks: seq<seq<byte>>, chain: seq<nat>, size: nat, nblock: nat, block: seq<byte>)
    requires Covers(blockSize, blocks, chain, size) && 0 < size && size + 1 < MAX_SIZE
    requires |chain| == BlockOf(blockSize, size - 1) + 1
    requires nblock < |blocks| && |block| == blockSize
    requires OffsetOf(blockSize, size - 1) + 1 == blockSize
    requires PointsBack(blockSize, blocks[nblock := block], chain + [nblock], |chain|)
    ensures Ready(blockSize, blocks, chain, size, nblock, block)
    ensures OffsetOf(blockSize, size) == HeadSize(|chain|)
  {
    hide PointsBack, IsChain, BlockOf;
    NextByte(blockSize, size);
    assert Extended(chain, |chain|, nblock) == chain + [nblock];
  }

  lemma FirstIsReady(blockSize: nat, blocks: seq<seq<byte>>, nblock: nat, block: seq<byte>)
    requires MIN_BLOCK_SIZE <= blockSize && nblock < |blocks| && |block| == blockSize
    ensures Ready(blockSize, blocks, [], 0, nblock, block) && OffsetOf(blockSize, 0) == 0
  {
    assert Start(blockSize, 1) == blockSize;
    LiesOnce(blockSize, 0, 0, 0, BlockOf(blockSize, 0), OffsetOf(blockSize, 0));
  }

  /**
   lfs_ctz_extend, given a freshly allocated block: afterwards the file reads as before, the next byte
   goes to the returned place, and only the new block was touched.
   */
  method Extend(dev: BlockDevice, head: nat, size: nat, nblock: nat, left: seq<byte>, ghost chain: seq<nat>)
    returns (block: nat, offset: nat)
    requires dev.Valid() && |dev.blocks| <= MAX_SIZE && Covers(dev.blockSize, dev.blocks, chain, size)
    requires |chain| == if size == 0 then 0 else BlockOf(dev.blockSize, size - 1) + 1
    requires size > 0 ==> head == chain[|chain| - 1]
    requires size + 1 < MAX_SIZE && |chain| + 1 < MAX_BLOCKS
    requires nblock < |dev.blocks| && nblock !in chain && |left| == dev.blockSize
    modifies dev`blocks
    ensures dev.Valid() && |dev.blocks| == |old(dev.blocks)|
    ensures dev.blocks == old(dev.blocks)[nblock := dev.blocks[nblock]]
    ensures block == nblock && offset == OffsetOf(dev.blockSize, size) && BlockOf(dev.blockSize, size) <= |chain|
    ensures var chain' := Extended(chain, BlockOf(dev.blockSize, size), nblock);
            && Covers(dev.blockSize, dev.blocks, chain', size + 1)
            && Content(dev.blockSize, dev.blocks, chain', size + 1)[..size]
               == old(Content(dev.blockSize, dev.blocks, chain, size))
  {
    hide PointsBack, IsChain, BlockOf, Content, OffsetOf, HeadSize;
    ghost var blocks := dev.blocks;
    offset := WriteExtension(dev, head, size, nblock, left, chain);
    block := nblock;
    ReadyExtends(dev.blockSize, blocks, chain, size, nblock, dev.blocks[nblock]);
  }

  /** What is written to the new block: a copy of the last one, or pointers to the others. */
  method WriteExtension(dev: BlockDevice, head: nat, size: nat, nblock: nat, left: seq<byte>, ghost chain: seq<nat>)
    returns (offset: nat)
    requires dev.Valid() && |dev.blocks| <= MAX_SIZE && Covers(dev.blockSize, dev.blocks, chain, size)
    requires |chain| == if size == 0 then 0 else BlockOf(dev.blockSize, size - 1) + 1
    requires size > 0 ==> head == chain[|chain| - 1]
    requires size + 1 < MAX_SIZE && |chain| + 1 < MAX_BLOCKS
    requires nblock < |dev.blocks| && nblock !in chain && |left| == dev.blockSize
    modifies dev`blocks
    ensures dev.Valid() && |dev.blocks| == |old(dev.blocks)|
    ensures dev.blocks == old(dev.blocks)[nblock := dev.blocks[nblock]]
    ensures offset == OffsetOf(dev.blockSize, size)
    ensures Ready(dev.blockSize, old(dev.blocks), chain, size, nblock, dev.blocks[nblock])
  {
    hide PointsBack, IsChain, BlockOf, Ready, Lies, Start;
    ghost var blocks := dev.blocks;
    dev.Erase(nblock, left);
    if size == 0 {
      FirstIsReady(dev.blockSize, blocks, nblock, left);
      return 0;
    }
    ErasedKeepsChain(dev.blockSize, blocks, chain, nblock, left);
    ChainBlock(dev.blockSize, blocks, chain, |chain| - 1);
    var index, noff := Index(dev.blockSize, size - 1);
    LiesOnce(dev.blockSize, size - 1, index, noff, index, OffsetOf(dev.blockSize, size - 1));
    noff := noff + 1;
    if noff != dev.blockSize {
      // just copy out the last block if it is incomplete
      CopyBlock(dev, head, nblock, noff);
      offset := noff;
      CopyIsReady(dev.blockSize, blocks, chain, size, nblock, dev.blocks[nblock]);
    } else {
      // append block
      index := index + 1;
      HeadsFit(dev.blockSize, index);
      WritePointers(dev, head, nblock, index, chain);
      offset := PTR_SIZE * (Ctz(index) + 1);
      assert dev.blocks == blocks[nblock := dev.blocks[nblock]];
      AppendIsReady(dev.blockSize, blocks, chain, size, nblock, dev.blocks[nblock]);
    }
  }

  lemma ErasedKeepsChain(blockSize: nat, blocks: seq<seq<byte>>, chain: seq<nat>, nblock: nat, left: seq<byte>)
    requires IsChain(blockSize, blocks, chain) && nblock < |blocks| && nblock !in chain && |left| == blockSize
    ensures IsChain(blockSize, blocks[nblock := left], chain)
  {
    var blocks' := blocks[nblock := left];
    forall n | 0 < n < |chain|
      ensures PointsBack(blockSize, blocks', chain, n)
    {
      assert chain[n] in chain;
      assert PointsBack(blockSize, blocks, chain, n);
      forall k | 0 <= k <= Ctz(n)
        ensures Linked(blocks'[chain[n]], chain, n, k)
      {
        assert Linked(blocks[chain[n]], chain, n, k);
      }
    }
    forall n | 0 <= n < |chain|
      ensures chain[n] < |blocks'| && |blocks'[chain[n]]| == blockSize
    {
      assert chain[n] in chain;
    }
  }

  lemma HeadsFit(blockSize: nat, n: nat)
    requires MIN_BLOCK_SIZE <= blockSize && n < MAX_BLOCKS
    ensures HeadSize(n) < blockSize
  {
    if n > 0 {
      SixtyFour();
      CtzSmall(n, 64);
    }
  }

  // ---------- visiting ----------

  /** The block numbers in the order in which a file's blocks are visited. */
  function VisitOrder(index: nat): seq<nat>
    decreases index
  {
    if index == 0 then [0]
    else if index % 2 == 1 then [index, index - 1] + VisitOrder(index - 1)
    else [index, index - 1] + VisitOrder(index - 2)
  }

  /** The pointers that a traversal reads from a block. */
  lemma FirstPointers(blockSize: nat, blocks: seq<seq<byte>>, chain: seq<nat>, index: nat)
    requires IsChain(blockSize, blocks, chain) && 0 < index < |chain|
    ensures chain[index] < |blocks| && |blocks[chain[index]]| == blockSize && PTR_SIZE <= blockSize
    ensures PointerAt(blocks[chain[index]], 0) == chain[index - 1]
    ensures index % 2 == 0 ==>
              index >= 2 && 2 * PTR_SIZE <= blockSize && PointerAt(blocks[chain[index]], 1) == chain[index - 2]
  {
    assert PointsBack(blockSize, blocks, chain, index);
    OddHasOne(index);
    assert Linked(blocks[chain[index]], chain, index, 0);
    if index % 2 == 0 {
      assert Linked(blocks[chain[index]], chain, index, 1);
    }
  }

  lemma InOrderAppend(chain: seq<nat>, order: seq<nat>, visited: seq<nat>, n: nat, m: nat)
    requires InOrder(chain, order, visited) && n < |chain| && m < |chain|
    ensures InOrder(chain, order + [n, m], visited + [chain[n], chain[m]])
    ensures InOrder(chain, order + [n], visited + [chain[n]])
  {
  }

  /** lfs_ctz_traverse: what its callback is called with */
  method Traverse(dev: BlockDevice, head: nat, size: nat, ghost chain: seq<nat>)
    returns (visited: seq<nat>)
    requires dev.Valid() && Covers(dev.blockSize, dev.blocks, chain, size)
    requires size > 0 ==> head == chain[BlockOf(dev.blockSize, size - 1)]
    ensures size == 0 ==> visited == []
    ensures size > 0 ==> InOrder(chain, VisitOrder(BlockOf(dev.blockSize, size - 1)), visited)
  {
    hide IsChain, BlockOf, InOrder, PointerAt, VisitOrder, FromLE;
    visited := [];
    if size == 0 {
      return;
    }
    var index, noff := Index(dev.blockSize, size - 1);
    var block := head;
    ghost var seen: seq<nat>, last: nat := [], index;
    NoneVisited(chain);
    while index != 0
      invariant 0 <= index <= last < |chain| && block == chain[index]
      invariant VisitOrder(last) == seen + VisitOrder(index)
      invariant InOrder(chain, seen, visited)
      decreases index
    {
      FirstPointers(dev.blockSize, dev.blocks, chain, index);
      VisitStep(index);
      var count := 2 - index % 2;
      var heads := dev.Read(block, 0, count * PTR_SIZE);
      var heads0 := FromLE(heads[..PTR_SIZE]);
      PointersRead(dev.blocks[block], heads, count);
      InOrderAppend(chain, seen, visited, index, index - 1);
      visited := visited + [block, heads0];
      seen := seen + [index, index - 1];
      block := if count == 2 then FromLE(heads[PTR_SIZE..2 * PTR_SIZE]) else heads0;
      index := index - count;
    }
    InOrderAppend(chain, seen, visited, 0, 0);
    VisitStep(0);
    visited := visited + [block];
  }

  lemma NoneVisited(chain: seq<nat>)
    ensures InOrder(chain, [], [])
  {
  }

  lemma PointersRead(block: seq<byte>, heads: seq<byte>, count: nat)
    requires 1 <= count <= 2 && count * PTR_SIZE <= |block| && heads == block[0..count * PTR_SIZE]
    ensures FromLE(heads[..PTR_SIZE]) == PointerAt(block, 0)
    ensures count == 2 ==> FromLE(heads[PTR_SIZE..2 * PTR_SIZE]) == PointerAt(block, 1)
  {
    assert heads[..PTR_SIZE] == block[0..PTR_SIZE];
    if count == 2 {
      assert heads[PTR_SIZE..2 * PTR_SIZE] == block[PTR_SIZE..2 * PTR_SIZE];
    }
  }

  lemma OddHasOne(n: nat)
    requires n > 0
    ensures n % 2 == 0 ==> Ctz(n) >= 1 && n >= 2
    ensures Pow2(0) == 1 && Pow2(1) == 2
  {
  }

  /** The blocks visited are those with the given numbers, in that order. */
  predicate InOrder(chain: seq<nat>, order: seq<nat>, visited: seq<nat>) {
    && |visited| == |order|
    && forall i :: 0 <= i < |order| ==> order[i] < |chain| && visited[i] == chain[order[i]]
  }

  /** How often each block number is visited. */
  function Visits(index: nat, n: nat): nat {
    if n > index then 0 else if index % 2 == 1 && n == index - 1 then 2 else 1
  }

  lemma TwoMore(index: nat, n: nat, rest: seq<nat>)
    requires index > 0
    ensures multiset([index, index - 1] + rest)[n] == multiset(rest)[n] + if n == index || n == index - 1 then 1 else 0
  {
    var front: seq<nat> := [index, index - 1];
    assert multiset(front + rest) == multiset(front) + multiset(rest);
    assert multiset(front) == multiset{index, index - 1};
  }

  /** Where a traversal goes on. */
  function Before(index: nat): nat
    requires index > 0
  {
    if index % 2 == 1 then index - 1 else index - 2
  }

  lemma VisitStep(index: nat)
    ensures VisitOrder(index) == if index == 0 then [0] else [index, index - 1] + VisitOrder(Before(index))
  {
  }

  /** Every block is visited once, except that the block below a last block with an odd number is visited twice. */
  lemma {:induction false} VisitsEach(index: nat, n: nat)
    ensures multiset(VisitOrder(index))[n] == Visits(index, n)
    decreases index
  {
    hide VisitOrder;
    VisitStep(index);
    if index == 0 {
      assert multiset([0 as nat])[n] == if n == 0 then 1 else 0;
    } else {
      VisitsEach(Before(index), n);
      TwoMore(index, n, VisitOrder(Before(index)));
    }
  }
}
