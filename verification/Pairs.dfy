/**
 Metadata pairs: two blocks, one of which holds the current log. A fetch takes the block with the newer
 revision if it holds an intact commit, and the other one if not. Appending to the current block, or
 compacting into the other one, therefore takes effect with the last byte of its checksum.
 */
module Pairs {
  import opened Options
  import opened Words
  import opened Device
  import opened Tags
  import opened TagLog
  import opened RawLog
  import opened Match
  import opened Fetch
  import opened Commit
  import opened PowerLoss
  import opened Flash

  /** lfs_scmp(a, b) > 0: a is ahead of b by less than half the range, whatever wrapped around in between */
  predicate Newer(a: word, b: word) {
    var ahead := if a >= b then a - b else a + 0x1_0000_0000 - b;
    0 < ahead < 0x8000_0000
  }

  /** The next revision: it wraps around. */
  function NextRevision(revision: word): word {
    if revision == 0xffff_ffff then 0 else revision + 1
  }

  /** The two blocks of a pair, in the order in which they are referred to. */
  datatype Pair = Pair(b0: seq<byte>, b1: seq<byte>) {
    predicate Valid() { HEADER <= |b0| && HEADER <= |b1| }

    function Block(i: nat): seq<byte> { if i == 0 then b0 else b1 }

    function With(i: nat, block: seq<byte>): Pair {
      if i == 0 then Pair(block, b1) else Pair(b0, block)
    }
  }

  /** What lfs_dir_fetch fills in: which block is current, and the state as of its last intact commit. */
  datatype Mdir = Mdir(active: nat, revision: word, offset: nat, etag: word, erased: bool, state: DirState)

  function RevisionOf(block: seq<byte>): word
    requires HEADER <= |block|
  {
    ReadLE32(block, 0)
  }

  /** The state of a directory as it lies in one block. */
  function MdirOf(i: nat, block: seq<byte>): Mdir
    requires HEADER <= |block|
  {
    var log := Fetched(block);
    FetchedIsLongest(block, log);
    Mdir(i, RevisionOf(block), End(log), LastLink(log), Erased(block, log), StateOf(block, log))
  }

  /** The block of a pair that is tried first. */
  function Preferred(p: Pair): nat
    requires p.Valid()
  {
    if Newer(RevisionOf(p.b1), RevisionOf(p.b0)) then 1 else 0
  }

  /** The block of a pair that holds the current log, if there is one. */
  function Active(p: Pair): Option<nat>
    requires p.Valid()
  {
    var r := Preferred(p);
    if Fetched(p.Block(r)) != [] then Some(r)
    else if Fetched(p.Block(1 - r)) != [] then Some(1 - r)
    else None
  }

  function FetchedDir(p: Pair): Option<Mdir>
    requires p.Valid()
  {
    match Active(p)
    case None => None
    case Some(i) => Some(MdirOf(i, p.Block(i)))
  }

  /** lfs_dir_fetchmatch up to where it settles on a result; nothing stands for LFS_ERR_CORRUPT */
  method FetchPair(p: Pair, name: Option<seq<byte>>) returns (dir: Option<Mdir>, best: word)
    requires p.Valid()
    ensures dir == FetchedDir(p)
    ensures dir.Some? ==> best == BestOf(name, Fetched(p.Block(dir.value.active)))
  {
    hide Fetched, Newer, FromLE32, Encode, StateOf, Erased, LastLink, TailsFit, Committed, BestOf;
    best := NO_MATCH;
    // find the block with the most recent revision
    var revs: seq<word> := [0, 0];
    var r := 0;
    for i := 0 to 2
      invariant |revs| == 2 && r <= 1
      invariant i >= 1 ==> revs[0] == RevisionOf(p.b0)
      invariant i <= 1 ==> r == 0
      invariant i == 2 ==> revs[1] == RevisionOf(p.b1) && r == Preferred(p)
    {
      revs := revs[i := ReadLE32(p.Block(i), 0)];
      if Newer(revs[i], revs[(i + 1) % 2]) {
        r := i;
      }
    }
    // now scan tags to fetch the actual dir
    for idx := 0 to 2
      invariant r == if idx % 2 == 0 then Preferred(p) else 1 - Preferred(p)
      invariant idx >= 1 ==> Fetched(p.Block(Preferred(p))) == []
      invariant idx == 2 ==> Fetched(p.Block(1 - Preferred(p))) == []
    {
      var offset, etag, state, erased, found := FetchBlock(p.Block(r), name);
      ghost var log := Fetched(p.Block(r));
      FetchedIsLongest(p.Block(r), log);
      // consider what we have good enough
      if offset > 0 {
        return Some(Mdir(r, revs[r], offset, etag, erased, state)), found;
      }
      // failed, try the other block?
      r := 1 - r;
    }
    return None, NO_MATCH;
  }

  // ---------- the state as the log has it ----------

  /** What an entry does to the state of a directory, in terms of its own data. */
  function StateWith(s: DirState, r: Raw): DirState
    requires IsTailWord(r.tag) ==> |r.data| >= PAIR_SIZE
  {
    if IsNameWord(r.tag) then (if IdOf(r.tag) >= s.count then s.(count := IdOf(r.tag) + 1) else s)
    else if IsSpliceWord(r.tag) then s.(count := (s.count + Unpack(r.tag).Splice()) % 0x1_0000)
    else if IsTailWord(r.tag) then s.(tail := r.data[..PAIR_SIZE], split := ChunkIsOdd(r.tag))
    else s
  }

  function StateOfLog(log: seq<Raw>): DirState
    requires Robust(log)
    decreases |log|
  {
    if log == [] then NO_FILES else StateWith(StateOfLog(log[..|log| - 1]), log[|log| - 1])
  }

  lemma StateAppends(log: seq<Raw>, r: Raw)
    requires Robust(log) && Robust(log + [r])
    ensures (IsTailWord(r.tag) ==> |r.data| >= PAIR_SIZE) && StateOfLog(log + [r]) == StateWith(StateOfLog(log), r)
  {
    assert (log + [r])[..|log|] == log && (log + [r])[|log|] == r;
  }

  /** The state only depends on the log, wherever it lies. */
  lemma {:induction false} StateIsOfLog(block: seq<byte>, log: seq<Raw>)
    requires Holds(block, log) && TailsFit(block, log) && Robust(log)
    ensures StateOf(block, log) == StateOfLog(log)
    decreases |log|
  {
    if log != [] {
      hide Encode, LastLink, XorWord, FromBE32, IsTailWord, TypeOf, IdOf, SizeOf;
      var r, older := log[|log| - 1], log[..|log| - 1];
      HoldsLast(block, log);
      StateIsOfLog(block, older);
      if IsTailWord(r.tag) {
        assert block[End(older) + 4..End(log)][..PAIR_SIZE] == block[End(older) + 4..End(older) + 4 + PAIR_SIZE];
      }
    }
  }

  lemma RevisionFrame(block: seq<byte>, block': seq<byte>)
    requires HEADER <= |block| && HEADER <= |block'| && block'[..HEADER] == block[..HEADER]
    ensures RevisionOf(block') == RevisionOf(block)
  {
    assert block[0..4] == block[..HEADER] && block'[0..4] == block'[..HEADER];
  }

  // ---------- power loss ----------

  /** The directory is the one whose log lies in block i of the pair. */
  ghost predicate IsDir(dir: Option<Mdir>, i: nat, revision: word, block: seq<byte>, log: seq<Raw>) {
    && dir.Some? && Robust(log)
    && dir.value == Mdir(i, revision, End(log), LastLink(log), Erased(block, log), StateOfLog(log))
  }

  /** Two fetches see the same directory; whether what follows its log is still erased is another matter. */
  predicate SameDir(a: Option<Mdir>, b: Option<Mdir>) {
    a.Some? && b.Some? && a.value.(erased := b.value.erased) == b.value
  }

  lemma BlockIsDir(i: nat, block: seq<byte>)
    requires HEADER <= |block| && Robust(Fetched(block))
    ensures IsDir(Some(MdirOf(i, block)), i, RevisionOf(block), block, Fetched(block))
  {
    FetchedIsLongest(block, Fetched(block));
    StateIsOfLog(block, Fetched(block));
  }

  /** The current block was changed where its log ends, and the log is still the last one that is found. */
  lemma TailChangeIsNotSeen(p: Pair, i: nat, block: seq<byte>, block': seq<byte>, log: seq<Raw>)
    requires p.Valid() && Active(p) == Some(i) && block == p.Block(i)
    requires Fetched(block) == log && Robust(log)
    requires |block'| == |block| && End(log) <= |block'| && block'[..End(log)] == block[..End(log)]
    requires Fetched(block') == log
    ensures p.With(i, block').Valid() && SameDir(FetchedDir(p.With(i, block')), FetchedDir(p))
  {
    hide Fetched, Holds, Sealed, TailsFit, StateOf, Encode, RevisionOf, LastLink, Erased;
    FetchedIsLongest(block, log);
    FetchedIsLongest(block', log);
    HeaderKept(block, block', End(log));
    RevisionFrame(block, block');
    StateIsOfLog(block, log);
    StateIsOfLog(block', log);
  }

  /** An append that finished is what a fetch finds. */
  lemma FinishedAppendIsFetched(p: Pair, i: nat, block': seq<byte>, log': seq<Raw>)
    requires p.Valid() && Active(p) == Some(i) && |block'| == |p.Block(i)|
    requires block'[..HEADER] == p.Block(i)[..HEADER]
    requires Finished(block', log') && log' != []
    ensures p.With(i, block').Valid()
    ensures IsDir(FetchedDir(p.With(i, block')), i, RevisionOf(p.Block(i)), block', log')
  {
    hide Fetched, Committed, RevisionOf, LastLink, Erased, StateOf, Encode;
    LastCommitIsFetched(block', log');
    RevisionFrame(p.Block(i), block');
    BlockIsDir(i, block');
  }

  /**
   Power was lost after k bytes of a commit to block i, and what is in the block then does not pass for something that
   it is not. While no more than the revision was touched it is enough that the block did no harm as it was left.
   */
  ghost predicate TearIsHarmless(p: Pair, i: nat, block: seq<byte>, at: nat, bytes: seq<byte>,
                                 log: seq<Raw>, log': seq<Raw>, k: nat)
    requires p.Valid() && HEADER <= |block| && at + |bytes| <= |block| && k <= |bytes|
  {
    if at == 0 && k <= HEADER && Fetched(block) != [] then
      p.With(i, block).Valid() && FetchedDir(p.With(i, block)) == FetchedDir(p)
    else
      k + 4 < |bytes| ==> NoTornCommit(Overlay(block, at, bytes[..k]), log, log')
  }

  /** Where an erase does nothing, a block of the pair is harmless as it is left. */
  lemma NoEraseIsHarmless(p: Pair, i: nat, bytes: seq<byte>, log: seq<Raw>, log': seq<Raw>, k: nat)
    requires p.Valid() && |bytes| <= |p.Block(i)| && k <= |bytes| && k <= HEADER && Fetched(p.Block(i)) != []
    ensures TearIsHarmless(p, i, p.Block(i), 0, bytes, log, log', k)
  {
    hide Fetched, NoTornCommit;
    assert p.With(i, p.Block(i)) == p;
  }

  /** Over erased flash every tear is harmless, except within the tag of the checksum. */
  lemma BlankTearIsHarmless(p: Pair, i: nat, block: seq<byte>, at: nat, bytes: seq<byte>, log: seq<Raw>, log': seq<Raw>,
                            k: nat)
    requires p.Valid() && HEADER + 4 <= |block| && Programs(block, at, bytes, log, log') && k <= |bytes|
    requires Blank(block, at) && (log != [] ==> at == End(log) && Fetched(block) == log)
    requires k + 8 <= |bytes| || |bytes| <= k + 4
    ensures TearIsHarmless(p, i, block, at, bytes, log, log', k)
  {
    hide Fetched, NoTornCommit, FetchedDir, Encode, Programs;
    ProgramsParts(block, at, bytes, log, log');
    if at == 0 {
      BlankIsNotFetched(block);
    }
    if k + 8 <= |bytes| {
      TornOnBlank(block, at, bytes, log, log', k);
    }
  }

  lemma ProgramsParts(before: seq<byte>, at: nat, bytes: seq<byte>, log: seq<Raw>, log': seq<Raw>)
    requires Programs(before, at, bytes, log, log')
    ensures at + |bytes| <= |before| && (log == [] ==> at == 0)
  {
  }

  lemma BlankIsNotFetched(block: seq<byte>)
    requires HEADER + 4 <= |block| && Blank(block, 0)
    ensures Fetched(block) == []
  {
    hide Fetched, Committed;
    StartEnd();
    NothingIsHeld(block);
    AbandonedOnBlank(block, [], []);
    FetchedIsLongest(block, []);
  }

  /**
   Power lost while a commit is appended, after any number of bytes: a fetch finds the directory as it was,
   or the whole commit is there. Until the checksum is reached, what lay in the block must not pass for a commit.
   */
  lemma AppendIsAtomic(p: Pair, i: nat, log: seq<Raw>, bytes: seq<byte>, log': seq<Raw>, k: nat)
    requires p.Valid() && Active(p) == Some(i) && log == Fetched(p.Block(i)) && Robust(log)
    requires End(log) + |bytes| <= |p.Block(i)| && k <= |bytes|
    requires Programs(p.Block(i), End(log), bytes, log, log')
    requires TearIsHarmless(p, i, p.Block(i), End(log), bytes, log, log', k)
    ensures var block' := Overlay(p.Block(i), End(log), bytes[..k]);
            && p.With(i, block').Valid()
            && (SameDir(FetchedDir(p.With(i, block')), FetchedDir(p)) || block' == Overlay(p.Block(i), End(log), bytes))
  {
    hide Fetched, Holds, Sealed, TailsFit, StateOf, Encode, RevisionOf, NoTornCommit, FetchedDir, Programs;
    var block := p.Block(i);
    EndAfterHeader(log);
    FetchedIsLongest(block, log);
    OldLogStays(block, log, bytes[..k]);
    OverlaySlices(block, End(log), bytes[..k]);
    TornCommitIsOldOrNew(block, End(log), bytes, log, log', k);
    if Fetched(Overlay(block, End(log), bytes[..k])) == log {
      TailChangeIsNotSeen(p, i, block, Overlay(block, End(log), bytes[..k]), log);
    }
  }

  lemma NextIsNewer(revision: word)
    ensures Newer(NextRevision(revision), revision) && !Newer(revision, NextRevision(revision))
  {
  }

  /** The revision after a number of compactions */
  function Later(revision: word, n: nat): word { (revision + n) % 0x1_0000_0000 }

  lemma NewerIsLater(a: word, b: word)
    ensures Newer(a, b) <==> exists n: nat :: 0 < n < 0x8000_0000 && a == Later(b, n)
  {
    var ahead := if a >= b then a - b else a + 0x1_0000_0000 - b;
    if Newer(a, b) {
      assert a == Later(b, ahead);
    }
    if n: nat :| 0 < n < 0x8000_0000 && a == Later(b, n) {
      assert n == ahead;
    }
  }

  /**
   The block that was written later by less than half of all revisions is the one that is found, if anything in it is
   intact, and otherwise the other one is.
   */
  lemma LatestIsFound(p: Pair, i: nat, n: nat)
    requires p.Valid() && i <= 1 && 0 < n < 0x8000_0000
    requires RevisionOf(p.Block(i)) == Later(RevisionOf(p.Block(1 - i)), n)
    ensures Fetched(p.Block(i)) != [] ==> Active(p) == Some(i)
    ensures Fetched(p.Block(i)) == [] && Fetched(p.Block(1 - i)) != [] ==> Active(p) == Some(1 - i)
    ensures Fetched(p.Block(i)) == [] && Fetched(p.Block(1 - i)) == [] ==> Active(p) == None
  {
    hide Fetched, RevisionOf;
    var a, b := RevisionOf(p.Block(i)), RevisionOf(p.Block(1 - i));
    NewerIsLater(a, b);
    assert Newer(a, b) && !Newer(b, a);
  }

  /**
   The other block is not seen if it holds nothing intact, whatever revision it claims to have, nor if its
   revision is older, whatever it holds: so neither while it is erased nor after.
   */
  lemma OtherIsNotSeen(p: Pair, i: nat, block': seq<byte>)
    requires p.Valid() && Active(p) == Some(i) && HEADER <= |block'|
    requires Fetched(block') == [] || Newer(RevisionOf(p.Block(i)), RevisionOf(block'))
    ensures p.With(1 - i, block').Valid() && FetchedDir(p.With(1 - i, block')) == FetchedDir(p)
  {
    hide Fetched, RevisionOf, LastLink, Erased, StateOf, Encode;
  }

  /**
   A compaction that finished under the next revision is what a fetch finds, wherever the revisions wrap around to.
   */
  lemma FinishedCompactIsFetched(p: Pair, i: nat, block': seq<byte>, log': seq<Raw>)
    requires p.Valid() && Active(p) == Some(i) && HEADER <= |block'|
    requires Finished(block', log') && log' != []
    requires RevisionOf(block') == NextRevision(RevisionOf(p.Block(i)))
    ensures p.With(1 - i, block').Valid()
    ensures IsDir(FetchedDir(p.With(1 - i, block')), 1 - i, NextRevision(RevisionOf(p.Block(i))), block', log')
  {
    hide Fetched, Committed, RevisionOf, LastLink, Erased, StateOf, Encode, Newer, NextRevision;
    NextIsNewer(RevisionOf(p.Block(i)));
    LastCommitIsFetched(block', log');
    BlockIsDir(1 - i, block');
  }

  /** No more than the revision was touched: the block is as it was left, or what it held is not intact any more. */
  lemma OnlyRevision(p: Pair, i: nat, left: seq<byte>, bytes: seq<byte>, k: nat)
    requires p.Valid() && Active(p) == Some(i) && HEADER <= |left| && k <= |bytes| <= |left| && k <= HEADER
    requires Fetched(left) != [] && p.With(1 - i, left).Valid() && FetchedDir(p.With(1 - i, left)) == FetchedDir(p)
    ensures var block' := Overlay(left, 0, bytes[..k]);
            p.With(1 - i, block').Valid() && FetchedDir(p.With(1 - i, block')) == FetchedDir(p)
  {
    hide Fetched, FetchedDir;
    var block' := Overlay(left, 0, bytes[..k]);
    OverlaySlices(left, 0, bytes[..k]);
    assert block'[HEADER..] == left[k..][HEADER - k..] == left[HEADER..];
    if block' != left {
      StaleUnderNewRevision(left, block');
      OtherIsNotSeen(p, i, block');
    }
  }

  /**
   Power lost while a compacted log is written to the other block, erased or not, after any number of bytes: a fetch
   finds the directory as it was, or all of the new log is there.
   */
  lemma CompactIsAtomic(p: Pair, i: nat, left: seq<byte>, bytes: seq<byte>, log': seq<Raw>, k: nat)
    requires p.Valid() && Active(p) == Some(i)
    requires HEADER <= |left| && |bytes| <= |left| && k <= |bytes|
    requires Programs(left, 0, bytes, [], log')
    requires TearIsHarmless(p, 1 - i, left, 0, bytes, [], log', k)
    ensures var block' := Overlay(left, 0, bytes[..k]);
            && p.With(1 - i, block').Valid()
            && (FetchedDir(p.With(1 - i, block')) == FetchedDir(p) || block' == Overlay(left, 0, bytes))
  {
    hide Fetched, Holds, Sealed, StateOf, Encode, RevisionOf, NoTornCommit, FetchedDir, Programs;
    if k <= HEADER && Fetched(left) != [] {
      OnlyRevision(p, i, left, bytes, k);
    } else {
      StartsEmpty(Overlay(left, 0, bytes[..k]));
      TornCommitIsOldOrNew(left, 0, bytes, [], log', k);
      if Fetched(Overlay(left, 0, bytes[..k])) == [] {
        OtherIsNotSeen(p, i, Overlay(left, 0, bytes[..k]));
      }
    }
  }
}
