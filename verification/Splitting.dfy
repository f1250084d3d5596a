/**
 lfs_dir_splittingcompact: before a directory is compacted, files are split off into pairs of their own
 until what is left fits a block with room to spare.
 */
module Splitting {
  import opened Tags
  import opened TagLog
  import opened Compaction
  import opened Traverse

  // What a compacted block needs besides its files: header, tail, global state, move delete and checksum.
  const RESERVED: nat := 72

  /** lfs_dir_commit_size, summed over what a traversal calls it with */
  function SizeOfAll(entries: seq<Entry>): nat
    decreases |entries|
  {
    if entries == [] then 0 else SizeOfAll(entries[..|entries| - 1]) + entries[|entries| - 1].tag.Dsize()
  }

  method CommitSize(entries: seq<Entry>) returns (size: nat)
    ensures size == SizeOfAll(entries)
  {
    size := 0;
    for i := 0 to |entries|
      invariant size == SizeOfAll(entries[..i])
    {
      size := size + entries[i].tag.Dsize();
      assert entries[..i + 1][..i] == entries[..i];
    }
    assert entries[..|entries|] == entries;
  }

  /** The files begin..end are small enough to be compacted into one block. */
  predicate Fits(blockSize: nat, items: seq<Item>, begin: nat, end: nat)
    requires RESERVED <= blockSize
  {
    var size := SizeOfAll(Compact(items, begin, end));
    end - begin < 0xff && size <= blockSize - RESERVED && size <= blockSize / 2
  }

  /** The first of the files begin..end that is split off: what is left is halved until it fits. */
  function SplitAt(blockSize: nat, items: seq<Item>, begin: nat, end: nat): nat
    requires RESERVED <= blockSize
    decreases end - begin
  {
    if end - begin <= 1 || Fits(blockSize, items, begin, end) then begin
    else SplitAt(blockSize, items, begin + (end - begin) / 2, end)
  }

  /** Half way from `begin` to `end`, half way from there, and so on, `n` times. */
  function HalfWay(begin: nat, end: nat, n: nat): (p: nat)
    requires begin <= end
    ensures begin <= p <= end
  {
    if n == 0 then begin
    else
      var p := HalfWay(begin, end, n - 1);
      p + (end - p) / 2
  }

  /** More files than one, and too many for one block. */
  predicate TooMany(blockSize: nat, items: seq<Item>, begin: nat, end: nat)
    requires RESERVED <= blockSize
  {
    1 < end - begin && !Fits(blockSize, items, begin, end)
  }

  /** Files are split off from the first of those places on where there are not too many left. */
  lemma {:induction false} SplitIsFirstThatFits(blockSize: nat, items: seq<Item>, begin: nat, end: nat, n: nat)
    returns (m: nat)
    requires RESERVED <= blockSize && begin <= end
    requires forall i :: 0 <= i < n ==> TooMany(blockSize, items, HalfWay(begin, end, i), end)
    ensures SplitAt(blockSize, items, HalfWay(begin, end, n), end) == HalfWay(begin, end, m)
    ensures !TooMany(blockSize, items, HalfWay(begin, end, m), end)
    ensures forall i :: 0 <= i < m ==> TooMany(blockSize, items, HalfWay(begin, end, i), end)
    decreases end - HalfWay(begin, end, n)
  {
    hide Fits;
    var p := HalfWay(begin, end, n);
    if TooMany(blockSize, items, p, end) {
      assert HalfWay(begin, end, n + 1) == p + (end - p) / 2;
      m := SplitIsFirstThatFits(blockSize, items, begin, end, n + 1);
    } else {
      m := n;
    }
  }

  /** No file is split off if all of them fit or there is just one, and only then. */
  lemma SplitsIffTooMany(blockSize: nat, items: seq<Item>, begin: nat, end: nat)
    requires RESERVED <= blockSize && begin <= end
    ensures SplitAt(blockSize, items, begin, end) > begin <==> TooMany(blockSize, items, begin, end)
    ensures SplitAt(blockSize, items, begin, end) >= begin
  {
    hide Fits, SplitAt;
    var m := SplitIsFirstThatFits(blockSize, items, begin, end, 0);
    if m > 0 {
      assert TooMany(blockSize, items, HalfWay(begin, end, 0), end);
      HalfWayMoves(begin, end, m);
    }
  }

  lemma HalfWayMoves(begin: nat, end: nat, n: nat)
    requires 1 < end - begin && 0 < n
    ensures begin < HalfWay(begin, end, n)
  {
  }

  lemma SplitStep(blockSize: nat, items: seq<Item>, begin: nat, end: nat)
    requires RESERVED <= blockSize
    ensures SplitAt(blockSize, items, begin, end)
         == if end - begin <= 1 || Fits(blockSize, items, begin, end) then begin
            else SplitAt(blockSize, items, begin + (end - begin) / 2, end)
  {
  }

  /** The first file to split off: halves what is left until it fits. */
  method SplitPoint(blockSize: nat, items: seq<Item>, begin: nat, end: nat) returns (split: nat)
    requires RESERVED <= blockSize && begin <= end
    requires CanTraverse(items)
    ensures split == SplitAt(blockSize, items, begin, end)
    ensures begin <= split <= end && (begin < end ==> split < end)
    ensures end - split > 1 ==> Fits(blockSize, items, split, end)
    ensures split > begin
       <==> && 1 < end - begin
            && (|| 0xff <= end - begin
                || SizeOfAll(Compact(items, begin, end)) > blockSize - 72
                || SizeOfAll(Compact(items, begin, end)) > blockSize / 2)
  {
    hide SplitAt, HalfWay, SizeOfAll, Compact;
    SplitsIffTooMany(blockSize, items, begin, end);
    split := begin;
    while end - split > 1
      invariant begin <= split <= end && (begin < end ==> split < end)
      invariant SplitAt(blockSize, items, split, end) == SplitAt(blockSize, items, begin, end)
      decreases end - split
    {
      SplitStep(blockSize, items, split, end);
      var entries := Traverse.Traverse(items, split, end);
      var size := CommitSize(entries);
      if end - split < 0xff && size <= blockSize - RESERVED && size <= blockSize / 2 {
        break;
      }
      split := split + (end - split) / 2;
    }
    SplitStep(blockSize, items, split, end);
  }

  /** Consecutive ranges of ids that together make up begin..end. */
  predicate Partition(pieces: seq<(nat, nat)>, begin: nat, end: nat) {
    && pieces != []
    && pieces[0].0 == begin && pieces[|pieces| - 1].1 == end
    && (forall i :: 0 <= i < |pieces| ==> pieces[i].0 <= pieces[i].1)
    && (forall i :: 0 < i < |pieces| ==> pieces[i - 1].1 == pieces[i].0)
  }

  /** Every file is in one of the pieces. */
  lemma {:induction false} PieceOf(pieces: seq<(nat, nat)>, begin: nat, end: nat, id: nat, k: nat) returns (i: nat)
    requires Partition(pieces, begin, end) && begin <= id < end
    requires k < |pieces| && id < pieces[k].1
    ensures i < |pieces| && pieces[i].0 <= id < pieces[i].1
    decreases k
  {
    if pieces[k].0 <= id {
      i := k;
    } else {
      i := PieceOf(pieces, begin, end, id, k - 1);
    }
  }

  /** Splitting keeps the meaning as compaction does: every lookup is answered by the pair that got the file. */
  lemma SplitPreservesMeaning(items: seq<Item>, pieces: seq<(nat, nat)>, begin: nat, end: nat, group: Group, kind: nat,
                              id: nat)
    returns (i: nat)
    requires CanTakeAll(EMPTY_DIR, items) && IsFileKind(kind) && Finer(group, MaskOf(kind))
    requires Partition(pieces, begin, end) && begin <= id < end && id < |TakeAll(EMPTY_DIR, items).slots|
    ensures i < |pieces| && pieces[i].0 <= id < pieces[i].1
    ensures LookBack(Compact(items, pieces[i].0, pieces[i].1), group, kind, id - pieces[i].0)
            == At(TagLog.Lookup(TakeAll(EMPTY_DIR, items), group, kind, id), id - pieces[i].0)
       <==> Shows(TakeAll(EMPTY_DIR, items).slots[id], group, kind)
  {
    hide TakeAll, CanTakeAll, Compact, LookBack, TagLog.Lookup, Shows;
    i := PieceOf(pieces, begin, end, id, |pieces| - 1);
    CompactionPreservesMeaning(items, group, kind, id, pieces[i].0, pieces[i].1);
  }
}
