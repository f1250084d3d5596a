/**
 The block allocator: it looks for free blocks through a window over the disk, filled by traversing the
 file system, and never goes over more blocks than there are since its blocks were last acknowledged.
 */
module Allocator {
  import opened Options
  import Words

  /** What a request for a block ends with; Failed is an error of the traversal. */
  datatype Outcome = Found(block: nat) | NoSpace | Failed

  const MAX_COUNT: nat := 0x8000_0000_0000_0000

  // ---------- going around the disk ----------

  /** How far block b lies after block a, on a disk of n blocks. */
  function Distance(n: nat, a: nat, b: nat): nat
    requires a < n && b < n
  {
    if a <= b then b - a else b + n - a
  }

  /** ((block - offset) + count) % count on 64-bit unsigned numbers */
  function WindowOffset(count: nat, offset: nat, block: nat): nat
    requires 0 < count
  {
    ((block + 0x1_0000_0000_0000_0000 - offset) % 0x1_0000_0000_0000_0000 + count) % 0x1_0000_0000_0000_0000 % count
  }

  /** The block that lies k blocks after `offset`. */
  function Around(n: nat, offset: nat, k: nat): nat
    requires 0 < n
  {
    (offset + k) % n
  }

  lemma ModOnce(x: nat, n: nat)
    requires x < 2 * n
    ensures x % n == if x < n then x else x - n
  {
    if x >= n {
      assert x == n + (x - n);
    }
  }

  lemma WrapOnce(x: nat)
    requires x < 0x2_0000_0000_0000_0000
    ensures x % 0x1_0000_0000_0000_0000 == if x < 0x1_0000_0000_0000_0000 then x else x - 0x1_0000_0000_0000_0000
  {
  }

  lemma AroundOnce(n: nat, offset: nat, k: nat)
    requires offset < n && k <= n
    ensures Around(n, offset, k) == if offset + k < n then offset + k else offset + k - n
  {
    ModOnce(offset + k, n);
  }

  /** The subtraction may wrap around, the result is right all the same. */
  lemma WindowOffsetIsDistance(count: nat, offset: nat, block: nat)
    requires offset < count <= MAX_COUNT && block < count
    ensures WindowOffset(count, offset, block) == Distance(count, offset, block)
  {
    var x := block + 0x1_0000_0000_0000_0000 - offset;
    WrapOnce(x);
    WrapOnce(x % 0x1_0000_0000_0000_0000 + count);
    ModOnce((x % 0x1_0000_0000_0000_0000 + count) % 0x1_0000_0000_0000_0000, count);
  }

  // ---------- what was looked at ----------

  /** The blocks that were looked at: the first `looked` ones from `first` on. */
  predicate Seen(n: nat, first: nat, looked: nat, b: nat) {
    b < n && first < n && Distance(n, first, b) < looked
  }

  /** The search stands at `at`, and every block it looked at was either handed out or found in use. */
  ghost predicate Tracked(n: nat, first: nat, at: nat, ack: nat, handed: set<nat>, passed: set<nat>) {
    && first < n && at < n && ack <= n
    && (if ack > 0 then Distance(n, first, at) == n - ack else at == first)
    && handed !! passed
    && (forall b :: b in handed || b in passed <==> Seen(n, first, n - ack, b))
    && |handed + passed| == n - ack
  }

  lemma Advance(n: nat, first: nat, at: nat, at': nat, ack: nat, handed: set<nat>, passed: set<nat>)
    requires Tracked(n, first, at, ack, handed, passed) && ack > 0
    requires at' == if at + 1 < n then at + 1 else 0
    ensures at !in handed && at !in passed
    ensures Tracked(n, first, at', ack - 1, handed + {at}, passed)
    ensures Tracked(n, first, at', ack - 1, handed, passed + {at})
  {
    assert !Seen(n, first, n - ack, at);
    assert handed + {at} + passed == handed + passed + {at} == handed + (passed + {at});
    forall b
      ensures b in handed || b in passed || b == at <==> Seen(n, first, n - (ack - 1), b)
    {
      if Seen(n, first, n - (ack - 1), b) && b != at {
        assert Distance(n, first, b) != Distance(n, first, at);
      }
    }
  }

  lemma Restart(n: nat, at: nat)
    requires at < n
    ensures Tracked(n, at, at, n, {}, {})
  {
  }

  /** When nothing is left to acknowledge, every block of the disk was looked at. */
  lemma NothingLeft(n: nat, first: nat, at: nat, handed: set<nat>, passed: set<nat>)
    requires Tracked(n, first, at, 0, handed, passed)
    ensures forall b :: 0 <= b < n ==> b in handed || b in passed
  {
    forall b: nat | b < n
      ensures b in handed || b in passed
    {
      assert Seen(n, first, n, b);
    }
  }

  // ---------- the window ----------

  /** Bit o of the window says whether the block at that distance was reported to be in use. */
  ghost predicate Marks(n: nat, offset: nat, size: nat, bits: seq<bool>, reported: set<nat>) {
    && offset < n && size <= |bits|
    && forall b :: 0 <= b < n && Distance(n, offset, b) < size ==> (bits[Distance(n, offset, b)] <==> b in reported)
  }

  lemma MarkOne(n: nat, offset: nat, size: nat, bits: seq<bool>, reported: set<nat>, block: nat)
    requires Marks(n, offset, size, bits, reported) && block < n
    ensures var o := Distance(n, offset, block);
            Marks(n, offset, size, if o < size then bits[o := true] else bits, reported + {block})
  {
    var o := Distance(n, offset, block);
    var bits' := if o < size then bits[o := true] else bits;
    forall b | 0 <= b < n && Distance(n, offset, b) < size
      ensures bits'[Distance(n, offset, b)] <==> b in reported + {block}
    {
      if b != block {
        assert Distance(n, offset, b) != o;
      }
    }
  }

  /** The block that bit o of the window stands for. */
  lemma MarkRead(n: nat, offset: nat, size: nat, bits: seq<bool>, reported: set<nat>, o: nat)
    requires Marks(n, offset, size, bits, reported) && o < size <= n
    ensures Around(n, offset, o) < n && (bits[o] <==> Around(n, offset, o) in reported)
    ensures Around(n, offset, o) == if offset + o < n then offset + o else offset + o - n
  {
    ModOnce(offset + o, n);
    assert Distance(n, offset, Around(n, offset, o)) == o;
  }

  /** Looking at the next block of the window: it was not looked at before. */
  lemma Look(n: nat, offset: nat, size: nat, i: nat, bits: seq<bool>, reported: set<nat>,
             first: nat, ack: nat, handed: set<nat>, passed: set<nat>)
    requires Marks(n, offset, size, bits, reported) && i < size <= n && size - i <= ack
    requires Tracked(n, first, Around(n, offset, i), ack, handed, passed)
    ensures var b := Around(n, offset, i);
            && b < n && (bits[i] <==> b in reported) && b !in handed && b !in passed
            && Tracked(n, first, Around(n, offset, i + 1), ack - 1, handed + {b}, passed)
            && Tracked(n, first, Around(n, offset, i + 1), ack - 1, handed, passed + {b})
  {
    hide Marks, Tracked, Distance, Around;
    MarkRead(n, offset, size, bits, reported, i);
    OffsetIn(n, offset, size, bits, reported);
    AroundOnce(n, offset, i + 1);
    Advance(n, first, Around(n, offset, i), Around(n, offset, i + 1), ack, handed, passed);
  }

  /** What the window has to say about the blocks in a part of it: all of them are in use. */
  ghost predicate AllUsed(n: nat, offset: nat, from: nat, to: nat, reported: set<nat>)
    requires 0 < n
  {
    forall k: nat :: from <= k < to ==> Around(n, offset, k) in reported
  }

  lemma OffsetIn(n: nat, offset: nat, size: nat, bits: seq<bool>, reported: set<nat>)
    requires Marks(n, offset, size, bits, reported)
    ensures offset < n && size <= |bits|
  {
  }

  lemma NoMarks(n: nat, offset: nat, size: nat, bits: seq<bool>)
    requires offset < n && size <= |bits| && forall o :: 0 <= o < |bits| ==> !bits[o]
    ensures Marks(n, offset, size, bits, {})
  {
  }

  lemma NoWindow(n: nat, offset: nat, bits: seq<bool>, reported: set<nat>)
    requires offset < n
    ensures Marks(n, offset, 0, bits, reported)
  {
  }

  ghost function Blocks(used: seq<nat>): set<nat> { set b | b in used }

  class Lookahead {
    const blockCount: nat
    const lookaheadSize: nat
    const buffer: array<bool>
    var offset: nat
    var size: nat
    var i: nat
    var ack: nat

    // Where the search stood at the last acknowledgement, what it has handed out and what it has found
    // in use since, and what the traversal that filled the window reported.
    ghost var first: nat
    ghost var handed: set<nat>
    ghost var passed: set<nat>
    ghost var reported: set<nat>

    ghost predicate Valid()
      reads this, buffer
    {
      && 0 < lookaheadSize && 0 < blockCount <= MAX_COUNT && blockCount <= 8 * lookaheadSize == buffer.Length
      && i <= size <= blockCount && size - i <= ack
      && Marks(blockCount, offset, size, buffer[..], reported)
      && Tracked(blockCount, first, Around(blockCount, offset, i), ack, handed, passed)
    }

    constructor (blockCount: nat, lookaheadSize: nat)
      requires 0 < lookaheadSize && 0 < blockCount <= MAX_COUNT && blockCount <= 8 * lookaheadSize
      ensures Valid() && fresh(buffer) && this.blockCount == blockCount && handed == {} && passed == {}
    {
      this.blockCount, this.lookaheadSize, buffer := blockCount, lookaheadSize, new bool[8 * lookaheadSize];
      offset, size, i, ack := 0, 0, 0, blockCount;
      first, handed, passed, reported := 0, {}, {}, {};
      new;
      ModOnce(0, blockCount);
      Restart(blockCount, 0);
    }

    /** lfs_alloc_ack: the blocks handed out so far are part of the file system now */
    method Ack()
      requires Valid()
      modifies this`ack, this`first, this`handed, this`passed
      ensures Valid() && ack == blockCount && handed == {} && passed == {}
    {
      hide Marks, Tracked, Around;
      TrackedParts(blockCount, first, Around(blockCount, offset, i), ack, handed, passed);
      Restart(blockCount, Around(blockCount, offset, i));
      ack := blockCount;
      first, handed, passed := Around(blockCount, offset, i), {}, {};
    }

    /** lfs_alloc_drop */
    method Drop()
      requires Valid()
      modifies this`size, this`i, this`ack, this`first, this`handed, this`passed
      ensures Valid() && size == 0 && ack == blockCount && handed == {} && passed == {}
    {
      hide Marks, Tracked, Around;
      OffsetIn(blockCount, offset, size, buffer[..], reported);
      NoWindow(blockCount, offset, buffer[..], reported);
      size := 0;
      i := 0;
      Restart(blockCount, offset);
      AroundOnce(blockCount, offset, 0);
      ack := blockCount;
      first, handed, passed := offset, {}, {};
    }

    /** lfs_alloc_lookahead: a block that the traversal reports to be in use */
    method Mark(block: nat)
      requires blockCount <= buffer.Length && blockCount <= MAX_COUNT && block < blockCount
      requires Marks(blockCount, offset, size, buffer[..], reported)
      modifies buffer, this`reported
      ensures Marks(blockCount, offset, size, buffer[..], reported) && reported == old(reported) + {block}
    {
      WindowOffsetIsDistance(blockCount, offset, block);
      MarkOne(blockCount, offset, size, buffer[..], reported, block);
      var o := WindowOffset(blockCount, offset, block);
      ghost var bits := buffer[..];
      if o < size {
        buffer[o] := true;
      }
      assert buffer[..] == if o < size then bits[o := true] else bits;
      reported := reported + {block};
    }

    /** Marks every block that the traversal reports. */
    method MarkAll(used: seq<nat>)
      requires blockCount <= buffer.Length && blockCount <= MAX_COUNT && offset < blockCount && size <= buffer.Length
      requires forall k :: 0 <= k < |used| ==> used[k] < blockCount
      modifies buffer, this`reported
      ensures Marks(blockCount, offset, size, buffer[..], reported) && reported == Blocks(used)
    {
      hide Marks;
      forall k | 0 <= k < buffer.Length {
        buffer[k] := false;
      }
      reported := {};
      NoMarks(blockCount, offset, size, buffer[..]);
      for k := 0 to |used|
        invariant Marks(blockCount, offset, size, buffer[..], reported)
        invariant reported == Blocks(used[..k])
      {
        Mark(used[k]);
        assert used[..k + 1] == used[..k] + [used[k]];
      }
      assert used[..|used|] == used;
    }

    /** Moves the window on and fills it. */
    method Refill(used: seq<nat>)
      requires Valid() && i == size && ack > 0
      requires forall k :: 0 <= k < |used| ==> used[k] < blockCount
      modifies this`offset, this`size, this`i, this`reported, buffer
      ensures Valid() && i == 0 < size && reported == Blocks(used)
    {
      hide Tracked;
      OffsetIn(blockCount, offset, size, buffer[..], reported);
      ModOnce(offset + size, blockCount);
      AckBounded(blockCount, first, Around(blockCount, offset, i), ack, handed, passed);
      offset := (offset + size) % blockCount;
      size := Words.Min(16 * lookaheadSize, ack);
      i := 0;
      ModOnce(offset, blockCount);
      // find mask of free blocks from tree
      MarkAll(used);
    }

    /** Skips blocks in use, from the next one on. */
    method Skip()
      requires Valid()
      modifies this`i, this`ack, this`passed
      ensures Valid() && size - i <= ack <= old(ack) && Passing(old(passed), passed, reported)
    {
      hide Marks, Tracked, Distance, Around;
      while i != size && buffer[i]
        invariant Valid() && ack <= old(ack) && Passing(old(passed), passed, reported)
        decreases size - i
      {
        Look(blockCount, offset, size, i, buffer[..], reported, first, ack, handed, passed);
        passed := passed + {Around(blockCount, offset, i)};
        i := i + 1;
        ack := ack - 1;
      }
    }

    /** Hands out the next block of the window, which is free. */
    method HandOut() returns (block: nat)
      requires Valid() && i < size && !buffer[i]
      modifies this`i, this`ack, this`handed, this`passed
      ensures Valid() && Passing(old(passed), passed, reported) && ack < old(ack)
      ensures block < blockCount && block !in old(handed) && block !in passed && block !in reported
      ensures handed == old(handed) + {block}
    {
      hide Marks, Tracked, Distance, Around;
      Look(blockCount, offset, size, i, buffer[..], reported, first, ack, handed, passed);
      block := Around(blockCount, offset, i);
      handed := handed + {block};
      i := i + 1;
      ack := ack - 1;
      // eagerly find next offset so an alloc ack can discredit old lookahead blocks
      Skip();
      TrackedParts(blockCount, first, Around(blockCount, offset, i), ack, handed, passed);
    }

    /** Looks for a free block in what is left of the window. */
    method Scan() returns (r: Option<nat>)
      requires Valid()
      modifies this`i, this`ack, this`handed, this`passed
      ensures Valid() && Passing(old(passed), passed, reported)
      ensures ack <= old(ack) && (old(i) != old(size) ==> ack < old(ack))
      ensures r.Some? ==> r.value < blockCount && r.value !in old(handed) && r.value !in passed
      ensures r.Some? ==> r.value !in reported && handed == old(handed) + {r.value}
      ensures r.None? ==> handed == old(handed) && i == size && AllUsed(blockCount, offset, old(i), size, reported)
    {
      hide Marks, Tracked, Distance, Around;
      while i != size
        invariant Valid() && handed == old(handed) && Passing(old(passed), passed, reported)
        invariant ack <= old(ack) && (i != old(i) ==> ack < old(ack))
        invariant old(i) <= i && AllUsed(blockCount, offset, old(i), i, reported)
        decreases size - i
      {
        if !buffer[i] {
          // found a free block
          var block := HandOut();
          return Some(block);
        }
        Look(blockCount, offset, size, i, buffer[..], reported, first, ack, handed, passed);
        passed := passed + {Around(blockCount, offset, i)};
        i := i + 1;
        ack := ack - 1;
      }
      return None;
    }

    /**
     lfs_alloc, given what a traversal reports (nothing if it fails) and a disk that cannot grow: a block is
     handed out once, and only if it was not reported; there is no space only after all blocks were looked at.
     */
    method Alloc(used: Option<seq<nat>>) returns (r: Outcome)
      requires Valid()
      requires used.Some? ==> forall k :: 0 <= k < |used.value| ==> used.value[k] < blockCount
      modifies this, buffer
      ensures Valid()
      ensures reported == old(reported) || (used.Some? && reported == Blocks(used.value))
      ensures r.Failed? ==> used.None? && size == 0 && handed == {} && passed == {}
      ensures r.Failed? ==> AllUsed(blockCount, old(offset), old(i), old(size), old(reported))
      ensures !r.Failed? ==> Passing(old(passed), passed, InUse(old(reported), used))
      ensures r.Found? ==> r.block < blockCount && r.block !in old(handed) && r.block !in passed
      ensures r.Found? ==> r.block !in reported && handed == old(handed) + {r.block}
      ensures r.NoSpace? ==> handed == old(handed) && handed !! passed
      ensures r.NoSpace? ==> forall b :: 0 <= b < blockCount ==> b in handed || b in passed
      ensures !r.Failed? ==> |handed + passed| + ack == blockCount
    {
      hide Marks, Tracked, Distance, Around, AllUsed;
      while true
        invariant Valid() && handed == old(handed)
        invariant reported == old(reported) || (used.Some? && reported == Blocks(used.value))
        invariant used.None? ==> i == old(i) && size == old(size) && offset == old(offset) && reported == old(reported)
        invariant Passing(old(passed), passed, InUse(old(reported), used))
        decreases ack, if i == size then 1 else 0
      {
        var free := Scan();
        TrackedParts(blockCount, first, Around(blockCount, offset, i), ack, handed, passed);
        if free.Some? {
          return Found(free.value);
        }
        // check if we have looked at all blocks since last ack
        if ack == 0 {
          NothingLeft(blockCount, first, Around(blockCount, offset, i), handed, passed);
          return NoSpace;
        }
        if used.None? {
          Drop();
          return Failed;
        }
        Refill(used.value);
      }
    }
  }

  /** What was passed by since was in use. */
  ghost predicate Passing(passed: set<nat>, passed': set<nat>, used: set<nat>) {
    passed <= passed' && passed' - passed <= used
  }

  ghost function InUse(reported: set<nat>, used: Option<seq<nat>>): set<nat> {
    reported + if used.Some? then Blocks(used.value) else {}
  }

  lemma AckBounded(n: nat, first: nat, at: nat, ack: nat, handed: set<nat>, passed: set<nat>)
    requires Tracked(n, first, at, ack, handed, passed)
    ensures ack <= n
  {
  }

  lemma TrackedParts(n: nat, first: nat, at: nat, ack: nat, handed: set<nat>, passed: set<nat>)
    requires Tracked(n, first, at, ack, handed, passed)
    ensures handed !! passed && |handed + passed| + ack == n && at < n && first < n
  {
  }
}
