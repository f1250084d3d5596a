/**
 Comparing names and keeping track of the best match while a log is scanned: lfs_dir_find_match and what
 lfs_dir_fetchmatch makes of it, tag by tag.
 */
module Match {
  import opened Options
  import opened Words
  import opened Tags
  import opened RawLog
  import opened Lookup

  datatype Order = Less | Equal | Greater

  // ---------- comparing names ----------

  /** memcmp of two stretches of the same length */
  function MemCmp(a: seq<byte>, b: seq<byte>): Order
    requires |a| == |b|
  {
    if a == [] then Equal
    else if a[0] < b[0] then Less
    else if a[0] > b[0] then Greater
    else MemCmp(a[1..], b[1..])
  }

  /**
   lfs_dir_find_match: how a name on disk compares to the name that is looked for; a longer name comes before its own
   prefix
   */
  function FindMatch(disk: seq<byte>, name: seq<byte>): Order {
    var diff := Min(|name|, |disk|);
    var res := MemCmp(disk[..diff], name[..diff]);
    if res != Equal then res
    else if |name| != |disk| then (if |name| < |disk| then Less else Greater)
    else Equal
  }

  lemma {:induction false} MemCmpConcat(a: seq<byte>, b: seq<byte>, c: seq<byte>, d: seq<byte>)
    requires |a| == |b| && |c| == |d|
    ensures MemCmp(a + c, b + d) == if MemCmp(a, b) == Equal then MemCmp(c, d) else MemCmp(a, b)
    decreases |a|
  {
    if a == [] {
      assert a + c == c && b + d == d;
    } else {
      assert (a + c)[1..] == a[1..] + c && (b + d)[1..] == b[1..] + d;
      MemCmpConcat(a[1..], b[1..], c, d);
    }
  }

  /** lfs_bd_cmp: the block against a buffer, up to 256 bytes at a time */
  method BlockCmp(block: seq<byte>, offset: nat, data: seq<byte>) returns (res: Order)
    requires offset + |data| <= |block|
    ensures res == MemCmp(block[offset..offset + |data|], data)
  {
    var idx := 0;
    while idx < |data|
      invariant idx <= |data| && MemCmp(block[offset..offset + idx], data[..idx]) == Equal
    {
      var diff := Min(|data| - idx, 256);
      res := MemCmp(block[offset + idx..offset + idx + diff], data[idx..idx + diff]);
      ChunkCmp(block, offset, data, idx, diff);
      if res != Equal {
        return;
      }
      idx := idx + diff;
    }
    assert data[..idx] == data;
    res := Equal;
  }

  lemma ChunkCmp(block: seq<byte>, offset: nat, data: seq<byte>, idx: nat, diff: nat)
    requires offset + |data| <= |block| && idx + diff <= |data|
    requires MemCmp(block[offset..offset + idx], data[..idx]) == Equal
    ensures var res := MemCmp(block[offset + idx..offset + idx + diff], data[idx..idx + diff]);
            && MemCmp(block[offset..offset + (idx + diff)], data[..idx + diff]) == res
            && (res != Equal ==> MemCmp(block[offset..offset + |data|], data) == res)
  {
    hide MemCmp;
    var stored := block[offset..offset + |data|];
    WithinSlice(block, offset, |data|, 0, idx);
    WithinSlice(block, offset, |data|, idx, idx + diff);
    WithinSlice(block, offset, |data|, 0, idx + diff);
    assert offset + 0 == offset;
    PartCmp(stored, data, idx, diff);
  }

  lemma WithinSlice(s: seq<byte>, from: nat, n: nat, i: nat, j: nat)
    requires from + n <= |s| && i <= j <= n
    ensures s[from..from + n][i..j] == s[from + i..from + j]
  {
    var a, b := s[from..from + n][i..j], s[from + i..from + j];
    assert |a| == |b| && forall k :: 0 <= k < |a| ==> a[k] == b[k];
  }

  lemma PartCmp(stored: seq<byte>, data: seq<byte>, idx: nat, diff: nat)
    requires |stored| == |data| && idx + diff <= |data|
    requires MemCmp(stored[..idx], data[..idx]) == Equal
    ensures MemCmp(stored[..idx + diff], data[..idx + diff]) == MemCmp(stored[idx..idx + diff], data[idx..idx + diff])
    ensures var res := MemCmp(stored[idx..idx + diff], data[idx..idx + diff]);
            res != Equal ==> MemCmp(stored, data) == res
  {
    hide MemCmp;
    MemCmpConcat(stored[..idx], data[..idx], stored[idx..idx + diff], data[idx..idx + diff]);
    assert stored[..idx] + stored[idx..idx + diff] == stored[..idx + diff];
    assert data[..idx] + data[idx..idx + diff] == data[..idx + diff];
    MemCmpConcat(stored[..idx + diff], data[..idx + diff], stored[idx + diff..], data[idx + diff..]);
    assert stored[..idx + diff] + stored[idx + diff..] == stored;
    assert data[..idx + diff] + data[idx + diff..] == data;
  }

  /** The name of an entry, read from the block, against the name that is looked for. */
  method CompareName(block: seq<byte>, offset: nat, size: nat, name: seq<byte>) returns (res: Order)
    requires offset + size <= |block|
    ensures res == FindMatch(block[offset..offset + size], name)
  {
    // compare with disk
    var diff := Min(|name|, size);
    res := BlockCmp(block, offset, name[..diff]);
    assert block[offset..offset + size][..diff] == block[offset..offset + diff];
    if res == Equal && |name| != size {
      // only equal if our size is still the same
      res := if |name| < size then Less else Greater;
    }
  }

  // ---------- the best match so far ----------

  // No match: its top bit is set, and its id is beyond all others.
  const NO_MATCH: word := 0xffff_ffff

  /** A tag turned into a mere position: its top bit is set. */
  function Position(tag: word): word { Clear(tag) + 0x8000_0000 }

  /** (LFS_MKTAG(0x780, 0, 0) & tag) == (LFS_MKTAG(0x780, 0, 0) & LFS_MKTAG(LFS_TYPE_NAME, 0, 0)), for a valid tag */
  predicate IsFileName(tag: word) { tag < 0x0800_0000 }

  /** What an entry makes of the best match, for the name that is looked for, if any. */
  function BestAfter(name: Option<seq<byte>>, best: word, r: Raw): word {
    if IsSpliceWord(r.tag) then BestAfterSplice(best, r.tag)
    else if name.Some? && IsFileName(r.tag) then BestAfterName(best, r.tag, FindMatch(r.data, name.value))
    else best
  }

  function BestAfterSplice(best: word, tag: word): word {
    if tag == 0x4ff0_0000 + IdOf(best) * 0x400 then Position(best)
    else if best != NO_MATCH && IdOf(tag) <= IdOf(best) then Plus(best, SpliceShift(tag))
    else best
  }

  function BestAfterName(best: word, tag: word, res: Order): word {
    if res == Equal then tag
    else if Masked(MASK_EXACT, tag) == Masked(MASK_EXACT, best) then NO_MATCH
    else if res == Greater && IdOf(tag) <= IdOf(best) then Position(tag)
    else best
  }

  function BestOf(name: Option<seq<byte>>, log: seq<Raw>): word
    decreases |log|
  {
    if log == [] then NO_MATCH else BestAfter(name, BestOf(name, log[..|log| - 1]), log[|log| - 1])
  }

  lemma BestAppends(name: Option<seq<byte>>, log: seq<Raw>, r: Raw)
    ensures BestOf(name, log + [r]) == BestAfter(name, BestOf(name, log), r)
  {
    assert (log + [r])[..|log|] == log;
  }

  /** What lfs_dir_fetchmatch does with the best match at one tag, the data of which begins at `offset`. */
  method TrackBest(block: seq<byte>, offset: nat, name: Option<seq<byte>>, best: word, tag: word, size: nat)
    returns (best': word)
    requires offset + size <= |block|
    ensures best' == BestAfter(name, best, Raw(tag, block[offset..offset + size]))
  {
    best' := best;
    if IsSpliceWord(tag) {
      if tag == 0x4ff0_0000 + IdOf(best) * 0x400 {
        best' := Position(best);
      } else if best != NO_MATCH && IdOf(tag) <= IdOf(best) {
        best' := Plus(best, SpliceShift(tag));
      }
    } else if name.Some? && IsFileName(tag) {
      // found a match for our fetcher?
      var res := CompareName(block, offset, size, name.value);
      if res == Equal {
        // found a match
        best' := tag;
      } else if Masked(MASK_EXACT, tag) == Masked(MASK_EXACT, best) {
        // found an identical tag, but contents didn't match: our best tag has been overwritten
        best' := NO_MATCH;
      } else if res == Greater && IdOf(tag) <= IdOf(best) {
        // found a greater match, keep track to keep things sorted
        best' := Position(tag);
      }
    }
  }
}
