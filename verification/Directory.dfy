/**
 A directory as lfs_dir_relocating_commit keeps it: appends and compactions change the pair on disk and
 the fields in memory. The two always agree, and at every byte in between a fetch finds the directory
 as it was.
 */
module Directory {
  import opened Options
  import opened Words
  import opened Device
  import opened Tags
  import opened TagLog
  import opened RawLog
  import opened Fetch
  import opened Commit
  import opened PowerLoss
  import opened Flash
  import opened Pairs
  import opened Compaction
  import opened Traverse
  import opened Attributes
  import opened LogReader
  import opened CompactedLog

  /** What is known about a directory: which block of its pair is current, and what its log says. */
  ghost predicate Current(pair: Pair, active: nat, log: seq<Raw>) {
    && pair.Valid() && |pair.b0| == |pair.b1| && HEADER + PAIR_SIZE <= |pair.b0|
    && active <= 1 && Active(pair) == Some(active)
    && log == Fetched(pair.Block(active)) && log != [] && Robust(log)
  }

  /**
   The log lies where it was in the block that a fetch takes, though something that passes for a commit may follow it.
   */
  ghost predicate Persists(pair: Pair, active: nat, log: seq<Raw>) {
    && pair.Valid() && |pair.b0| == |pair.b1| && HEADER + PAIR_SIZE <= |pair.b0|
    && active <= 1 && Active(pair) == Some(active)
    && Committed(pair.Block(active), log) && log != [] && Robust(log)
  }

  lemma CurrentPersists(pair: Pair, active: nat, log: seq<Raw>)
    requires Current(pair, active, log)
    ensures Persists(pair, active, log) && log == Fetched(pair.Block(active))
  {
    hide Fetched, Committed;
    FetchedIsLongest(pair.Block(active), log);
  }

  lemma PersistsIsCurrent(pair: Pair, active: nat, log: seq<Raw>)
    requires Persists(pair, active, log) && NoTornCommit(pair.Block(active), log, log)
    ensures Current(pair, active, log)
  {
    hide Fetched, Committed;
    FetchedIsLongest(pair.Block(active), log);
  }

  lemma PersistsParts(pair: Pair, active: nat, log: seq<Raw>)
    requires Persists(pair, active, log)
    ensures pair.Valid() && |pair.b0| == |pair.b1| == |pair.Block(active)| && HEADER + PAIR_SIZE <= |pair.b0|
    ensures Robust(log) && log != [] && active <= 1 && Active(pair) == Some(active)
    ensures Committed(pair.Block(active), log) && HEADER <= End(log) <= |pair.Block(active)|
  {
    hide Fetched;
  }

  /** The fields in memory say what a fetch would. */
  ghost predicate Agrees(pair: Pair, active: nat, revision: word, offset: nat, etag: word, state: DirState)
    requires pair.Valid()
  {
    SameDir(Some(Mdir(active, revision, offset, etag, false, state)), FetchedDir(pair))
  }

  lemma CurrentIs(pair: Pair, active: nat, log: seq<Raw>)
    requires Current(pair, active, log)
    ensures Committed(pair.Block(active), log) && HEADER <= End(log) <= |pair.Block(active)|
    ensures IsDir(FetchedDir(pair), active, RevisionOf(pair.Block(active)), pair.Block(active), log)
  {
    hide Fetched, Encode, Erased, LastLink, StateOf;
    FetchedIsLongest(pair.Block(active), log);
    BlockIsDir(active, pair.Block(active));
  }

  /**
   Wherever the programming of `bytes` stops, a fetch finds the directory as it was, or every byte is there. Until the
   checksum is reached this takes it that what is left in the block does not pass for a commit by accident.
   */
  ghost predicate CrashSafe(pair: Pair, i: nat, block: seq<byte>, at: nat, bytes: seq<byte>, log: seq<Raw>,
                            log': seq<Raw>)
    requires pair.Valid() && HEADER <= |block| && at + |bytes| <= |block|
  {
    forall k :: 0 <= k <= |bytes| && TearIsHarmless(pair, i, block, at, bytes, log, log', k) ==>
      OldOrNew(pair, i, Overlay(block, at, bytes[..k]), Overlay(block, at, bytes))
  }

  ghost predicate OldOrNew(pair: Pair, i: nat, torn: seq<byte>, done: seq<byte>)
    requires pair.Valid()
  {
    pair.With(i, torn).Valid() && (SameDir(FetchedDir(pair.With(i, torn)), FetchedDir(pair)) || torn == done)
  }

  lemma AppendIsCrashSafe(pair: Pair, active: nat, log: seq<Raw>, bytes: seq<byte>, log': seq<Raw>)
    requires Current(pair, active, log) && End(log) + |bytes| <= |pair.Block(active)|
    requires Programs(pair.Block(active), End(log), bytes, log, log')
    ensures CrashSafe(pair, active, pair.Block(active), End(log), bytes, log, log')
  {
    hide Fetched, Encode, TearIsHarmless, FetchedDir, SameDir, Programs, Overlay;
    var block := pair.Block(active);
    EndAfterHeader(log);
    forall k | 0 <= k <= |bytes| && TearIsHarmless(pair, active, block, End(log), bytes, log, log', k)
      ensures OldOrNew(pair, active, Overlay(block, End(log), bytes[..k]), Overlay(block, End(log), bytes))
    {
      AppendIsAtomic(pair, active, log, bytes, log', k);
    }
  }

  lemma CompactIsCrashSafe(pair: Pair, active: nat, log: seq<Raw>, erased: seq<byte>, bytes: seq<byte>, log': seq<Raw>)
    requires Persists(pair, active, log) && |erased| == |pair.b0| && |bytes| <= |erased|
    requires Programs(erased, 0, bytes, [], log')
    ensures CrashSafe(pair, 1 - active, erased, 0, bytes, [], log')
  {
    hide Fetched, Encode, Committed, TearIsHarmless, FetchedDir, Programs, Overlay;
    SomethingIsFetched(pair, active);
    forall k | 0 <= k <= |bytes| && TearIsHarmless(pair, 1 - active, erased, 0, bytes, [], log', k)
      ensures OldOrNew(pair, 1 - active, Overlay(erased, 0, bytes[..k]), Overlay(erased, 0, bytes))
    {
      CompactIsAtomic(pair, active, erased, bytes, log', k);
    }
  }

  lemma SomethingIsFetched(pair: Pair, active: nat)
    requires pair.Valid() && Active(pair) == Some(active)
    ensures SameDir(FetchedDir(pair), FetchedDir(pair))
  {
    hide Fetched, Encode;
  }

  /** A finished append makes the new log the current one. */
  lemma AppendIsCurrent(pair: Pair, active: nat, log: seq<Raw>, block': seq<byte>, log': seq<Raw>)
    requires Current(pair, active, log) && |block'| == |pair.Block(active)|
    requires End(log) <= |block'| && block'[..End(log)] == pair.Block(active)[..End(log)]
    requires Finished(block', log') && log' != []
    ensures Current(pair.With(active, block'), active, log')
    ensures RevisionOf(block') == RevisionOf(pair.Block(active))
    ensures IsDir(FetchedDir(pair.With(active, block')), active, RevisionOf(pair.Block(active)), block', log')
  {
    hide Fetched, Encode, Committed, Erased, StateOf;
    HeaderKept(pair.Block(active), block', End(log));
    RevisionFrame(pair.Block(active), block');
    LastCommitIsFetched(block', log');
    FinishedAppendIsFetched(pair, active, block', log');
  }

  /** A finished log under the next revision makes the other block the current one, whatever this one holds. */
  lemma CompactIsCurrent(pair: Pair, active: nat, block': seq<byte>, log': seq<Raw>)
    requires active <= 1 && pair.Valid() && |pair.b0| == |pair.b1| == |block'| && HEADER + PAIR_SIZE <= |block'|
    requires Finished(block', log') && log' != []
    requires RevisionOf(block') == NextRevision(RevisionOf(pair.Block(active)))
    ensures Current(pair.With(1 - active, block'), 1 - active, log')
  {
    hide Fetched, Encode, Committed, Erased, StateOf, Newer, NextRevision;
    NextIsNewer(RevisionOf(pair.Block(active)));
    LastCommitIsFetched(block', log');
  }

  /** A block that still holds the log is still the one that a fetch takes. */
  lemma StaysActive(pair: Pair, active: nat, log: seq<Raw>, block': seq<byte>)
    requires Persists(pair, active, log) && |block'| == |pair.Block(active)|
    requires block'[..HEADER] == pair.Block(active)[..HEADER]
    requires Committed(block', log)
    ensures Persists(pair.With(active, block'), active, log) && RevisionOf(block') == RevisionOf(pair.Block(active))
  {
    hide Fetched, Encode, Committed, Robust, Newer;
    RevisionFrame(pair.Block(active), block');
    FetchedIsLongest(block', log);
    FetchedIsLongest(pair.Block(active), log);
  }

  /** A commit that was begun in the current block and given up leaves the directory as it was. */
  lemma AbandonedAppend(pair: Pair, active: nat, log: seq<Raw>, written: seq<byte>)
    requires Persists(pair, active, log) && End(log) + |written| <= |pair.Block(active)|
    ensures var block' := Overlay(pair.Block(active), End(log), written);
            && Persists(pair.With(active, block'), active, log) && RevisionOf(block') == RevisionOf(pair.Block(active))
            && HEADER <= |block'|
            && (NoTornCommit(block', log, log) ==> Current(pair.With(active, block'), active, log))
  {
    hide Persists, Current, Fetched, Encode, NoTornCommit, Holds, Overlay, Committed, Robust;
    PersistsParts(pair, active, log);
    var block' := Overlay(pair.Block(active), End(log), written);
    OldLogStays(pair.Block(active), log, written);
    OverlaySlices(pair.Block(active), End(log), written);
    HeaderKept(pair.Block(active), block', End(log));
    StaysActive(pair, active, log, block');
    WithBlock(pair, active, block');
    if NoTornCommit(block', log, log) {
      PersistsIsCurrent(pair.With(active, block'), active, log);
    }
  }

  /** A compaction that was begun in the other block and given up leaves the directory as it was. */
  lemma AbandonedCompact(pair: Pair, active: nat, log: seq<Raw>, block': seq<byte>)
    requires Persists(pair, active, log) && |block'| == |pair.b0|
    requires NoTornCommit(block', [], [])
    ensures Persists(pair.With(1 - active, block'), active, log)
    ensures Current(pair, active, log) ==> Current(pair.With(1 - active, block'), active, log)
  {
    hide Fetched, Encode, FetchedDir, SameDir, NoTornCommit, RevisionOf, Committed;
    NothingIsFetched(block');
    OtherIsNotSeen(pair, active, block');
  }

  lemma NothingIsFetched(block: seq<byte>)
    requires HEADER <= |block| && NoTornCommit(block, [], [])
    ensures Fetched(block) == []
  {
    FetchedIsLongest(block, []);
  }

  lemma RevisionWritten(erased: seq<byte>, bytes: seq<byte>, revision: word)
    requires HEADER <= |bytes| <= |erased| && bytes[..HEADER] == ToLE32(revision)
    ensures RevisionOf(Overlay(erased, 0, bytes)) == revision
  {
    hide ToLE32, FromLE32;
    assert Overlay(erased, 0, bytes)[0..4] == bytes[..HEADER];
    LE32RoundTrip(revision);
  }

  /** The fields in memory are those of the log in the pair. */
  ghost predicate Knows(pair: Pair, active: nat, revision: word, offset: nat, etag: word, state: DirState,
                        log: seq<Raw>) {
    && pair.Valid() && Robust(log)
    && revision == RevisionOf(pair.Block(active))
    && offset == End(log) && etag == LastLink(log) && state == StateOfLog(log)
  }

  lemma KnowsParts(pair: Pair, active: nat, revision: word, offset: nat, etag: word, state: DirState, log: seq<Raw>)
    requires Knows(pair, active, revision, offset, etag, state, log)
    ensures pair.Valid() && Robust(log) && revision == RevisionOf(pair.Block(active))
    ensures offset == End(log) && etag == LastLink(log) && state == StateOfLog(log)
  {
  }

  lemma KnowsOffset(pair: Pair, active: nat, revision: word, offset: nat, etag: word, state: DirState, log: seq<Raw>)
    ensures Knows(pair, active, revision, offset, etag, state, log) ==> offset == End(log)
  {
  }

  lemma KnowsCount(pair: Pair, active: nat, revision: word, offset: nat, etag: word, state: DirState, count: int,
                   log: seq<Raw>)
    requires Knows(pair, active, revision, offset, etag, state.(count := count), log)
    ensures Knows(pair, active, revision, offset, etag, state, log) <==> state.count == count
  {
  }

  lemma PartsAreKnown(pair: Pair, active: nat, revision: word, offset: nat, etag: word, state: DirState, log: seq<Raw>)
    requires pair.Valid() && Robust(log) && revision == RevisionOf(pair.Block(active))
    requires offset == End(log) && etag == LastLink(log) && state == StateOfLog(log)
    ensures Knows(pair, active, revision, offset, etag, state, log)
  {
  }

  /** A commit of nothing is closed where the entry of its checksum does not fit; nothing makes sure that it does. */
  predicate Overruns(blockSize: nat, offset: nat, raws: seq<Raw>) { raws == [] && blockSize < offset + PAIR_SIZE }

  /** lfs_metadata_dir_t, with the pair it describes */
  class MetadataDir {
    var pair: Pair
    var active: nat
    var revision: word
    var offset: nat
    var etag: word
    var erased: bool
    var state: DirState
    ghost var log: seq<Raw>

    ghost predicate Valid()
      reads this
    {
      Current(pair, active, log) && Knows(pair, active, revision, offset, etag, state, log)
    }

    /** All that it takes to compact the directory: it need not be what a fetch would find. */
    ghost predicate Sound()
      reads this
    {
      Persists(pair, active, log) && Knows(pair, active, revision, offset, etag, state, log)
    }

    lemma SoundPersists()
      requires Sound()
      ensures Persists(pair, active, log) && Knows(pair, active, revision, offset, etag, state, log)
    {
    }

    lemma ValidIsSound()
      requires Valid()
      ensures Current(pair, active, log)
      ensures Sound()
    {
      hide Knows, Persists, Current;
      CurrentPersists(pair, active, log);
    }

    /** What is in memory is what a fetch of the pair would fill in. */
    lemma ValidAgrees()
      requires Valid()
      ensures pair.Valid() && Agrees(pair, active, revision, offset, etag, state)
    {
      hide Fetched, Encode, Erased, StateOf;
      CurrentIs(pair, active, log);
    }

    /** lfs_dir_fetch of a pair that was written by this code */
    constructor Fetch(pair: Pair, dir: Mdir, ghost log: seq<Raw>)
      requires Current(pair, dir.active, log) && FetchedDir(pair) == Some(dir)
      ensures Valid() && this.pair == pair && this.log == log
    {
      this.pair, active, revision, offset, etag := pair, dir.active, dir.revision, dir.offset, dir.etag;
      erased, state, this.log := dir.erased, dir.state, log;
      new;
      hide Fetched, Encode, Erased, StateOf;
      CurrentIs(pair, dir.active, log);
    }

    /**
     The first half of lfs_dir_relocating_commit: tries to append a commit where the log ends. If there is no room
     the block is left partly written, which does no harm as long as it does not pass for a commit. A commit of nothing
     whose checksum entry does not fit the block succeeds as well, but a fetch does not find it.
     */
    method Append(attrs: seq<Raw>, delta: Option<seq<byte>>) returns (ok: bool, ghost bytes: seq<byte>)
      requires Valid() && AreAttributes(attrs) && Counts(state, attrs)
      requires delta.Some? ==> |delta.value| == GSTATE_SIZE
      requires offset + 8 <= |pair.b0| || Selected(attrs) + DeltaRaws(delta) != []
      modifies this
      ensures active == old(active) && active <= 1 && revision == old(revision) && erased == old(erased)
      ensures var raws, over := Selected(attrs) + DeltaRaws(delta),
                                Overruns(|old(pair).b0|, old(offset), Selected(attrs) + DeltaRaws(delta));
              && (ok <==> over || old(offset) + SizeOfRaws(raws) + PAIR_SIZE <= |old(pair).b0|)
              && (ok && !over ==> Valid() && state == TallyAll(old(state), attrs))
              && (ok && !over ==> pair.Valid() && Agrees(pair, active, revision, offset, etag, state))
              && (ok && !over ==> Appended(old(pair), active, old(log), attrs, delta, pair, log, bytes))
              && (over ==> Current(pair, active, log) && log == old(log) && offset == old(offset) + PAIR_SIZE)
              && (over ==> state == old(state) == TallyAll(old(state), attrs) && !Valid())
      ensures !ok ==> log == old(log) && state == old(state) && offset == old(offset) && etag == old(etag)
      ensures !ok ==> GivenUp(old(pair), active, old(pair).Block(active), offset, bytes, log, pair) && Sound()
      ensures !ok && NoTornCommit(pair.Block(active), log, log) ==> Valid()
    {
      hide Current, Persists, Knows, AreAttributes, Counts, StateOfLog, End, LastLink, RevisionOf, Appended, Selected,
           DeltaRaws, SizeOfRaws, TallyAll, NoTornCommit, GivenUp, Agrees, Robust, Committed;
      CurrentPersists(pair, active, log);
      PersistsParts(pair, active, log);
      KnowsParts(pair, active, revision, offset, etag, state, log);
      ghost var over := Overruns(|pair.b0|, offset, Selected(attrs) + DeltaRaws(delta));
      var block', offset', etag';
      ghost var log';
      ok, block', offset', etag', log', bytes := AppendBlock(pair, active, offset, etag, attrs, delta, log);
      WithBlock(pair, active, block');
      pair := pair.With(active, block');
      if ok {
        var state' := Tally(state, attrs);
        if over {
          KnowsOffset(pair, active, revision, offset', etag', state', log);
        } else {
          CurrentParts(pair, active, log');
          PartsAreKnown(pair, active, revision, offset', etag', state', log');
        }
        offset, etag, state, log := offset', etag', state', log';
        if Valid() {
          ValidAgrees();
        }
      } else {
        PartsAreKnown(pair, active, revision, offset, etag, state, log);
      }
    }

    /**
     lfs_dir_compact: rewrites the files begin..end into the other block, under the next revision, whatever the history
     of the log. The number of files in memory is right if the last of them has a name; if the block cannot take them
     the old directory is still found.
     */
    method Compact(attrs: seq<Raw>, begin: nat, end: nat, state': DirState, delta: Option<seq<byte>>, left: seq<byte>)
      returns (ok: bool, ghost bytes: seq<byte>)
      requires Sound() && AreAttributes(attrs) && |left| == |pair.b0| && begin <= end <= NO_ID
      requires CanCompact(log, attrs) && TailIsPlain(state')
      requires delta.Some? ==> |delta.value| == GSTATE_SIZE
      modifies this
      ensures AreFileEntries(CompactedEntries(old(log), attrs, begin, end)) && old(active) <= 1
      ensures revision == NextRevision(old(revision)) && erased == old(erased)
      ensures ok <==> CompactFits(CompactedEntries(old(log), attrs, begin, end), state', delta, |old(pair).b0|)
      ensures ok ==> active == 1 - old(active) && state == state'.(count := end - begin)
      ensures ok ==>
                Compacted(old(pair), old(active), CompactedEntries(old(log), attrs, begin, end), state', delta, left,
                               pair, log, bytes)
      ensures ok ==> && Current(pair, active, log)
                     && Knows(pair, active, revision, offset, etag,
                              state.(count := CountOf(CompactedEntries(old(log), attrs, begin, end))), log)
      ensures ok && LastIsNamed(AllItems(old(log), attrs), begin, end) ==> Valid()
      ensures ok && NamesAreWhole(AllItems(old(log), attrs)) && EndsInFiles(AllItems(old(log), attrs), end) ==>
                (Valid() <==> LastIsNamed(AllItems(old(log), attrs), begin, end))
      ensures !ok ==> log == old(log) && active == old(active) && state == old(state) && offset == old(offset)
      ensures !ok ==> GivenUp(old(pair), 1 - active, left, 0, bytes, [], pair) && etag == old(etag)
      ensures !ok && HEADER <= |pair.Block(1 - active)| && NoTornCommit(pair.Block(1 - active), [], []) ==>
                Persists(pair, active, log) && (old(Current(pair, active, log)) ==> Current(pair, active, log))
    {
      hide Current, Persists, Knows, AreAttributes, StateOfLog, End, LastLink, RevisionOf, Compacted, DeltaRaws,
           CanCompact, CompactFits, CompactedEntries, CountOf, TailIsPlain, NextRevision, AreFileEntries, AllItems,
           NoTornCommit, GivenUp, LastIsNamed, NamesAreWhole, EndsInFiles, Committed, Robust;
      PersistsParts(pair, active, log);
      KnowsParts(pair, active, revision, offset, etag, state, log);
      ghost var count := CountOf(CompactedEntries(log, attrs, begin, end));
      // increment revision count
      revision := NextRevision(revision);
      var block', offset', etag';
      ghost var log';
      ok, block', offset', etag', log', bytes :=
        CompactInto(pair, active, offset, revision, attrs, begin, end, state', delta, left, log);
      WithBlock(pair, 1 - active, block');
      pair := pair.With(1 - active, block');
      if ok {
        // successful compaction, swap dir pair to indicate most recent
        active, offset, etag, state, log := 1 - active, offset', etag', state'.(count := end - begin), log';
        CurrentParts(pair, active, log);
        PartsAreKnown(pair, active, revision, offset, etag, state.(count := count), log);
        KnowsCount(pair, active, revision, offset, etag, state, count, log);
      }
    }
  }

  /** Reads the old log, traverses it with the attributes, and writes what is kept into the other block. */
  method CompactInto(pair: Pair, active: nat, offset: nat, revision: word, attrs: seq<Raw>, begin: nat, end: nat,
                     state': DirState, delta: Option<seq<byte>>, left: seq<byte>, ghost log: seq<Raw>)
    returns (ok: bool, block': seq<byte>, offset': nat, etag': word, ghost log': seq<Raw>, ghost bytes: seq<byte>)
    requires Persists(pair, active, log) && offset == End(log)
    requires revision == NextRevision(RevisionOf(pair.Block(active)))
    requires AreAttributes(attrs) && |left| == |pair.b0| && begin <= end <= NO_ID
    requires CanCompact(log, attrs) && TailIsPlain(state')
    requires delta.Some? ==> |delta.value| == GSTATE_SIZE
    ensures AreFileEntries(CompactedEntries(log, attrs, begin, end)) && active <= 1 && HEADER <= |block'|
    ensures ok <==> CompactFits(CompactedEntries(log, attrs, begin, end), state', delta, |pair.b0|)
    ensures ok ==> Current(pair.With(1 - active, block'), 1 - active, log') && RevisionOf(block') == revision
    ensures ok ==> offset' == End(log') && etag' == LastLink(log')
    ensures ok ==> StateOfLog(log') == state'.(count := CountOf(CompactedEntries(log, attrs, begin, end)))
    ensures ok ==> Compacted(pair, active, CompactedEntries(log, attrs, begin, end), state', delta, left,
                             pair.With(1 - active, block'), log', bytes)
    ensures !ok ==> GivenUp(pair, 1 - active, left, 0, bytes, [], pair.With(1 - active, block'))
    ensures !ok && NoTornCommit(block', [], []) ==> Persists(pair.With(1 - active, block'), active, log)
    ensures !ok && NoTornCommit(block', [], []) && Current(pair, active, log) ==>
              Current(pair.With(1 - active, block'), active, log)
    ensures LastIsNamed(AllItems(log, attrs), begin, end) ==>
              CountOf(CompactedEntries(log, attrs, begin, end)) == end - begin
    ensures NamesAreWhole(AllItems(log, attrs)) && EndsInFiles(AllItems(log, attrs), end) ==>
              (CountOf(CompactedEntries(log, attrs, begin, end)) == end - begin <==>
                LastIsNamed(AllItems(log, attrs), begin, end))
  {
    hide Current, Persists, AreAttributes, StateOfLog, End, LastLink, RevisionOf, Compacted, DeltaRaws, SizeOfRaws,
         CanCompact, CompactFits, CompactedEntries, CountOf, TailIsPlain, Committed, NextRevision, Holds,
         AreFileEntries, AreSized, CanTraverse, CanTakeAll, OnDisk, ViewLog, PendingAll, Compaction.Compact, IsDir,
         NoTornCommit, GivenUp, LastIsNamed, NamesAreWhole, EndsInFiles, AllItems, Programs, IsCompacted, Overlay,
         ErasedAsLeft;
    PersistsParts(pair, active, log);
    CommittedHolds(pair.Block(active), log);
    var items := ReadLog(pair.Block(active), offset, log);
    var pending := Pending(attrs);
    ItemsAreCompactable(log, attrs);
    var entries := Traverse.Traverse(items + pending, begin, end);
    EntriesAre(pair.Block(active), log, attrs, begin, end, entries);
    CountIsInput(log, attrs, begin, end);
    ok, block', offset', etag', log', bytes := CompactBlock(pair, active, left, revision, entries, state', delta);
    if ok {
      CompactWasSafe(pair, active, log, left, entries, state', delta, log', block', bytes);
    } else {
      CompactWasHarmless(pair, active, log, left, block', bytes);
    }
  }

  lemma WithBlock(pair: Pair, i: nat, block: seq<byte>)
    requires i <= 1
    ensures pair.With(i, block).Block(i) == block
  {
  }

  /** A commit ran out of room: some bytes of it are in the block, and over blank flash they are not taken for one. */
  ghost predicate GivenUp(pair: Pair, i: nat, block: seq<byte>, at: nat, bytes: seq<byte>, log: seq<Raw>, pair': Pair) {
    && at + |bytes| <= |block|
    && pair' == pair.With(i, Overlay(block, at, bytes))
    && HEADER + 4 <= |block|
    && (Blank(block, at) ==> NoTornCommit(Overlay(block, at, bytes), log, log))
  }

  /** A commit of the attributes and the global state was appended, and no crash on the way did any harm. */
  ghost predicate Appended(pair: Pair, active: nat, log: seq<Raw>, attrs: seq<Raw>, delta: Option<seq<byte>>,
                           pair': Pair, log': seq<Raw>, bytes: seq<byte>)
    requires delta.Some? ==> |delta.value| == GSTATE_SIZE
  {
    && log + Selected(attrs) + DeltaRaws(delta) <= log'
    && |log'| == |log| + |Selected(attrs)| + |DeltaRaws(delta)| + 1 && IsCrc(log'[|log'| - 1].tag)
    && pair.Valid() && HEADER <= |pair.Block(active)|
    && End(log) + |bytes| <= |pair.Block(active)|
    && pair' == pair.With(active, Overlay(pair.Block(active), End(log), bytes))
    && CrashSafe(pair, active, pair.Block(active), End(log), bytes, log, log')
    && ErasedAsLeft(pair.Block(active), Overlay(pair.Block(active), End(log), bytes), log')
  }

  /**
   A fetch takes the rest of the block for erased exactly if the word that was left after the log reads as invalid.
   */
  ghost predicate ErasedAsLeft(left: seq<byte>, block: seq<byte>, log: seq<Raw>) {
    Erased(block, log) <==> End(log) + 4 <= |left| && !IsValid(ReadBE32(left, End(log)))
  }

  lemma EndsParts(before: seq<byte>, begin: nat, written: seq<byte>, log: seq<Raw>, log': seq<Raw>, tag: word)
    requires Ends(before, begin, written, log, log', tag)
    ensures begin + |written| <= |before| && begin + |written| + 8 == End(log') <= |before|
    ensures log <= log' && |log'| == |log| + 1 && IsCrc(log'[|log|].tag)
    ensures Finished(Overlay(before, begin, written), log')
    ensures ErasedAsLeft(before, Overlay(before, begin, written), log')
  {
    hide Finished, Erased, Encode, LastLink, Overlay;
  }

  /** Writes the commit: what the block becomes, and where its log ends then. */
  method AppendBlock(pair: Pair, active: nat, offset: nat, etag: word, attrs: seq<Raw>, delta: Option<seq<byte>>,
                     ghost log: seq<Raw>)
    returns (ok: bool, block': seq<byte>, offset': nat, etag': word, ghost log': seq<Raw>, ghost bytes: seq<byte>)
    requires Current(pair, active, log) && offset == End(log) && etag == LastLink(log)
    requires AreAttributes(attrs) && Counts(StateOfLog(log), attrs)
    requires delta.Some? ==> |delta.value| == GSTATE_SIZE
    requires offset + 8 <= |pair.b0| || Selected(attrs) + DeltaRaws(delta) != []
    ensures HEADER <= |block'| && RevisionOf(block') == RevisionOf(pair.Block(active))
    ensures var raws, over := Selected(attrs) + DeltaRaws(delta),
                              Overruns(|pair.b0|, offset, Selected(attrs) + DeltaRaws(delta));
            && (ok <==> over || offset + SizeOfRaws(raws) + PAIR_SIZE <= |pair.b0|)
            && (ok && !over ==>
                  Current(pair.With(active, block'), active, log') && offset' == End(log') && etag' == LastLink(log'))
            && (ok && !over ==> StateOfLog(log') == TallyAll(StateOfLog(log), attrs))
            && (ok && !over ==> Appended(pair, active, log, attrs, delta, pair.With(active, block'), log', bytes))
            && (over ==>
                  Current(pair.With(active, block'), active, log) && log' == log && offset' == offset + PAIR_SIZE)
            && (over ==> TallyAll(StateOfLog(log), attrs) == StateOfLog(log))
    ensures !ok ==> GivenUp(pair, active, pair.Block(active), offset, bytes, log, pair.With(active, block'))
    ensures !ok ==> Persists(pair.With(active, block'), active, log)
    ensures !ok && NoTornCommit(block', log, log) ==> Current(pair.With(active, block'), active, log)
  {
    hide Current, Persists, Finished, Counts, AreAttributes, InStep, CrashSafe, RevisionOf, LastLink, End, StateOfLog,
         Robust, Committed, GivenUp, NoTornCommit, Appended, SizeOfRaws, Selected, DeltaRaws, TallyAll, IsDir, Overlay,
         Ends, CloseTag, Erased, NextRaw, ErasedAsLeft;
    block', offset', etag', log', bytes := [], 0, 0, [], [];
    CurrentPersists(pair, active, log);
    PersistsParts(pair, active, log);
    var block := pair.Block(active);
    var w := new Writer.Append(block, offset, etag, log);
    var selected := Select(attrs);
    DeltaIsAttribute(delta);
    AreAll(selected, DeltaRaws(delta));
    ok := WriteAll(w, selected + DeltaRaws(delta));
    InStepEnds(w.before, w.begin, w.written, w.log, w.offset, w.ptag, w.crc);
    NothingSized();
    if ok {
      ghost var log1, size := w.log, w.offset;
      ok := w.Close();
      offset', etag', log' := w.offset, w.ptag, w.log;
      block', bytes := w.Block(), w.written;
      if size <= w.end {
        EndsParts(block, offset, bytes, log1, log', CloseTag(block, offset'));
        AppendIsDone(pair, active, log, attrs, delta, log1, log', block', bytes);
      } else {
        assert |selected| + |DeltaRaws(delta)| == 0;
        assert log' == log + (selected + DeltaRaws(delta)) == log;
        AppendIsOverrun(pair, active, log, attrs, block', bytes);
      }
    } else {
      block', bytes := w.Block(), w.written;
      AppendIsGivenUp(pair, active, log, selected + DeltaRaws(delta), w.log, w.offset, w.ptag, w.crc, bytes);
    }
  }

  /** A commit of nothing that ran over the end of the block: a fetch finds what it found before. */
  lemma AppendIsOverrun(pair: Pair, active: nat, log: seq<Raw>, attrs: seq<Raw>, block': seq<byte>, bytes: seq<byte>)
    requires Current(pair, active, log) && AreAttributes(attrs) && Counts(StateOfLog(log), attrs)
    requires Selected(attrs) == []
    requires End(log) + |bytes| <= |pair.Block(active)| && block' == Overlay(pair.Block(active), End(log), bytes)
    requires NextRaw(block', log).None?
    ensures HEADER <= |block'| && RevisionOf(block') == RevisionOf(pair.Block(active))
    ensures Current(pair.With(active, block'), active, log) && TallyAll(StateOfLog(log), attrs) == StateOfLog(log)
  {
    hide Current, Persists, Counts, AreAttributes, RevisionOf, StateOfLog, Robust, Committed, NextRaw, Selected,
         TallyAll, Fetched, Overlay, NoTornCommit;
    CurrentPersists(pair, active, log);
    PersistsParts(pair, active, log);
    AbandonedAppend(pair, active, log, bytes);
    OldLogStays(pair.Block(active), log, bytes);
    LastCommitIsFetched(block', log);
    WholeIsFetched(block', log);
    TallyIsFetched(log, attrs);
    assert log + [] == log;
  }

  /** What there is of an unfinished commit: entries one after the other, none of which is a checksum. */
  lemma AppendIsGivenUp(pair: Pair, active: nat, log: seq<Raw>, raws: seq<Raw>, open: seq<Raw>, offset: nat, ptag: word,
                        crc: word, bytes: seq<byte>)
    requires Current(pair, active, log) && AreAttributes(raws) && log <= open && open[|log|..] <= raws
    requires InStep(pair.Block(active), End(log), bytes, open, offset, ptag, crc)
    ensures End(log) + |bytes| <= |pair.Block(active)|
    ensures var block' := Overlay(pair.Block(active), End(log), bytes);
            && GivenUp(pair, active, pair.Block(active), End(log), bytes, log, pair.With(active, block'))
            && HEADER <= |block'| && RevisionOf(block') == RevisionOf(pair.Block(active))
            && Persists(pair.With(active, block'), active, log)
            && (NoTornCommit(block', log, log) ==> Current(pair.With(active, block'), active, log))
  {
    hide Current, Persists, Fetched, Encode, Committed, Sealed, TailsFit, Robust, CrcInStep, Revision, NoTornCommit,
         RevisionOf, IsAttribute;
    var block := pair.Block(active);
    CurrentPersists(pair, active, log);
    PersistsParts(pair, active, log);
    NoChecksums(log, raws, open);
    AbandonedAppend(pair, active, log, bytes);
    if Blank(block, End(log)) {
      var block' := Overlay(block, End(log), bytes);
      if open == log {
        assert block' == block;
        WholeIsFetched(block, log);
      } else {
        AbandonedOnBlank(block', log, open);
      }
    }
  }

  lemma NoChecksums(log: seq<Raw>, raws: seq<Raw>, open: seq<Raw>)
    requires AreAttributes(raws) && log <= open && open[|log|..] <= raws
    ensures forall i :: |log| <= i < |open| ==> !IsCrc(open[i].tag)
  {
    forall i | |log| <= i < |open|
      ensures !IsCrc(open[i].tag)
    {
      assert open[i] == open[|log|..][i - |log|] == raws[i - |log|];
      assert IsAttribute(raws[i - |log|]);
    }
  }

  /** A closed commit reaches from its first byte to its checksum. */
  lemma ClosedPrograms(before: seq<byte>, at: nat, bytes: seq<byte>, log: seq<Raw>, raws: seq<Raw>, log1: seq<Raw>,
                       log': seq<Raw>)
    requires AreAttributes(raws) && log1 == log + raws
    requires log1 <= log' && |log'| == |log1| + 1 && IsCrc(log'[|log1|].tag)
    requires at + |bytes| <= |before| && 8 <= |bytes| && at + |bytes| == End(log1) + 8
    requires if log == [] then at == 0 else HEADER <= at
    requires Finished(Overlay(before, at, bytes), log')
    ensures Programs(before, at, bytes, log, log')
  {
    hide Committed, NextRaw, Encode, Overlay, IsAttribute;
    assert log1[|log|..] == raws;
    NoChecksums(log, raws, log1);
    assert log'[..|log1|] == log1;
  }

  lemma AppendIsDone(pair: Pair, active: nat, log: seq<Raw>, attrs: seq<Raw>, delta: Option<seq<byte>>,
                     log1: seq<Raw>, log': seq<Raw>, block': seq<byte>, bytes: seq<byte>)
    requires Current(pair, active, log) && AreAttributes(attrs) && Counts(StateOfLog(log), attrs)
    requires delta.Some? ==> |delta.value| == GSTATE_SIZE
    requires AreAttributes(Selected(attrs) + DeltaRaws(delta))
    requires log1 == log + (Selected(attrs) + DeltaRaws(delta))
    requires log1 <= log' && |log'| == |log1| + 1 && IsCrc(log'[|log1|].tag)
    requires End(log) + |bytes| <= |pair.Block(active)| && block' == Overlay(pair.Block(active), End(log), bytes)
    requires 8 <= |bytes| && End(log) + |bytes| == End(log1) + 8
    requires Finished(block', log') && ErasedAsLeft(pair.Block(active), block', log')
    ensures Current(pair.With(active, block'), active, log') && RevisionOf(block') == RevisionOf(pair.Block(active))
    ensures StateOfLog(log') == TallyAll(StateOfLog(log), attrs)
    ensures Appended(pair, active, log, attrs, delta, pair.With(active, block'), log', bytes)
  {
    hide *;
    CurrentParts(pair, active, log);
    EndAfterHeader(log);
    TallyIsFetched(log, attrs);
    OverlaySlices(pair.Block(active), End(log), bytes);
    AppendIsCurrent(pair, active, log, block', log');
    CurrentParts(pair.With(active, block'), active, log');
    ClosedState(log, Selected(attrs), DeltaRaws(delta), log1, log', delta);
    ClosedPrograms(pair.Block(active), End(log), bytes, log, Selected(attrs) + DeltaRaws(delta), log1, log');
    AppendIsCrashSafe(pair, active, log, bytes, log');
    AppendedIs(pair, active, log, attrs, delta, log', block', bytes);
  }

  lemma AppendedIs(pair: Pair, active: nat, log: seq<Raw>, attrs: seq<Raw>, delta: Option<seq<byte>>, log': seq<Raw>,
                   block': seq<byte>, bytes: seq<byte>)
    requires pair.Valid() && HEADER <= |pair.Block(active)| && End(log) + |bytes| <= |pair.Block(active)|
    requires delta.Some? ==> |delta.value| == GSTATE_SIZE
    requires log + (Selected(attrs) + DeltaRaws(delta)) <= log'
    requires |log'| == |log| + |Selected(attrs) + DeltaRaws(delta)| + 1 && IsCrc(log'[|log'| - 1].tag)
    requires block' == Overlay(pair.Block(active), End(log), bytes)
    requires CrashSafe(pair, active, pair.Block(active), End(log), bytes, log, log')
    requires ErasedAsLeft(pair.Block(active), block', log')
    ensures Appended(pair, active, log, attrs, delta, pair.With(active, block'), log', bytes)
  {
    hide CrashSafe, ErasedAsLeft, Overlay, Selected, DeltaRaws, End, IsCrc;
    assert log + Selected(attrs) + DeltaRaws(delta) == log + (Selected(attrs) + DeltaRaws(delta));
  }

  lemma CurrentParts(pair: Pair, active: nat, log: seq<Raw>)
    requires Current(pair, active, log)
    ensures pair.Valid() && |pair.b0| == |pair.b1| == |pair.Block(active)| && HEADER + PAIR_SIZE <= |pair.b0|
    ensures Robust(log) && log != [] && active <= 1
  {
  }

  // ---------- compaction ----------

  lemma ItemsAreCompactable(log: seq<Raw>, attrs: seq<Raw>)
    requires CanCompact(log, attrs)
    ensures CanTraverse(OnDisk(ViewLog(log)) + PendingAll(attrs))
  {
  }

  lemma EntriesAre(block: seq<byte>, log: seq<Raw>, attrs: seq<Raw>, begin: nat, end: nat, entries: seq<Entry>)
    requires Holds(block, log) && AreAttributes(attrs) && begin <= end <= NO_ID
    requires entries == Compaction.Compact(OnDisk(ViewLog(log)) + PendingAll(attrs), begin, end)
    ensures entries == CompactedEntries(log, attrs, begin, end) && AreFileEntries(entries)
  {
    hide Compaction.Compact;
    AllSized(log, attrs);
    CompactIsFileEntries(AllItems(log, attrs), begin, end);
  }

  /** The files were compacted into the other block, and no crash on the way did any harm. */
  ghost predicate Compacted(pair: Pair, active: nat, entries: seq<Entry>, state: DirState, delta: Option<seq<byte>>,
                            left: seq<byte>, pair': Pair, log': seq<Raw>, bytes: seq<byte>)
    requires AreFileEntries(entries) && TailIsPlain(state) && active <= 1
    requires delta.Some? ==> |delta.value| == GSTATE_SIZE
  {
    && IsCompacted(entries, state, delta, log')
    && pair.Valid() && HEADER <= |left| && |bytes| <= |left|
    && pair' == pair.With(1 - active, Overlay(left, 0, bytes))
    && CrashSafe(pair, 1 - active, left, 0, bytes, [], log')
    && ErasedAsLeft(left, Overlay(left, 0, bytes), log')
  }

  /** Writes a compacted log into an erased block: what the block becomes, and where its log ends. */
  method CompactBlock(pair: Pair, active: nat, left: seq<byte>, revision: word, entries: seq<Entry>, state: DirState,
                      delta: Option<seq<byte>>)
    returns (ok: bool, block': seq<byte>, offset': nat, etag': word, ghost log': seq<Raw>, ghost bytes: seq<byte>)
    requires active <= 1 && pair.Valid() && |pair.b0| == |pair.b1| == |left| && HEADER + PAIR_SIZE <= |left|
    requires revision == NextRevision(RevisionOf(pair.Block(active)))
    requires AreFileEntries(entries) && TailIsPlain(state)
    requires delta.Some? ==> |delta.value| == GSTATE_SIZE
    ensures ok <==> CompactFits(entries, state, delta, |left|)
    ensures |bytes| <= |left| && block' == Overlay(left, 0, bytes)
    ensures ok ==> Current(pair.With(1 - active, block'), 1 - active, log') && RevisionOf(block') == revision
    ensures ok ==>
              offset' == End(log') && etag' == LastLink(log') && StateOfLog(log') == state.(count := CountOf(entries))
    ensures ok ==> IsCompacted(entries, state, delta, log') && Programs(left, 0, bytes, [], log')
    ensures ok ==> ErasedAsLeft(left, block', log')
    ensures !ok ==> Blank(left, 0) ==> NoTornCommit(block', [], [])
  {
    hide Current, Finished, AreAttributes, InStep, RevisionOf, LastLink, End, StateOfLog, Robust, Committed,
         NoTornCommit, Programs, SizeOfRaws, RawsOf, TailRaws, DeltaRaws, IsCompacted, CompactedRaws, CountOf,
         NextRevision, AreFileEntries, TailIsPlain, Ends, CloseTag, Erased, NextRaw, ErasedAsLeft;
    offset', etag', log' := 0, 0, [];
    FileRaws(entries);
    TailSize(state);
    TailIsAttribute(state);
    DeltaIsAttribute(delta);
    AreAll(RawsOf(entries), TailRaws(state));
    AreAll(RawsOf(entries) + TailRaws(state), DeltaRaws(delta));
    CompactSize(entries, state, delta);
    // setup commit state and write out header
    var w := new Writer.Compact(left, revision);
    InStepEnds(w.before, w.begin, w.written, w.log, w.offset, w.ptag, w.crc);
    ok := WriteAll(w, RawsOf(entries));
    if ok {
      // commit tail, which may be new after last size check
      ok := WriteAll(w, TailRaws(state));
    }
    if ok {
      // bring over gstate?
      ok := WriteAll(w, DeltaRaws(delta));
    }
    InStepEnds(w.before, w.begin, w.written, w.log, w.offset, w.ptag, w.crc);
    if ok {
      ghost var log1 := w.log;
      ok := w.Close();
      offset', etag', log' := w.offset, w.ptag, w.log;
      block', bytes := w.Block(), w.written;
      EndsParts(left, 0, bytes, log1, log', CloseTag(left, offset'));
      CompactIsDone(pair, active, left, revision, entries, state, delta, log1, log', block', bytes);
    } else {
      block', bytes := w.Block(), w.written;
      CompactIsGivenUp(left, RawsOf(entries) + TailRaws(state) + DeltaRaws(delta), w.log, w.offset, w.ptag, w.crc,
                       bytes);
    }
  }

  lemma CompactIsGivenUp(left: seq<byte>, raws: seq<Raw>, open: seq<Raw>, offset: nat, ptag: word, crc: word,
                         bytes: seq<byte>)
    requires AreAttributes(raws) && open <= raws && HEADER + PAIR_SIZE <= |left|
    requires InStep(left, 0, bytes, open, offset, ptag, crc)
    ensures |bytes| <= |left| && (Blank(left, 0) ==> NoTornCommit(Overlay(left, 0, bytes), [], []))
  {
    hide Encode, Committed, Sealed, TailsFit, Robust, CrcInStep, Revision, NoTornCommit, IsAttribute;
    assert open[0..] == open;
    NoChecksums([], raws, open);
    if Blank(left, 0) {
      AbandonedOnBlank(Overlay(left, 0, bytes), [], open);
    }
  }

  /** The log is a compacted one: the entries, the tail, the global state and a checksum. */
  ghost predicate IsCompacted(entries: seq<Entry>, state: DirState, delta: Option<seq<byte>>, log': seq<Raw>)
    requires AreFileEntries(entries) && TailIsPlain(state)
    requires delta.Some? ==> |delta.value| == GSTATE_SIZE
  {
    && CompactedRaws(entries, state, delta) <= log'
    && |log'| == |CompactedRaws(entries, state, delta)| + 1 && IsCrc(log'[|log'| - 1].tag)
  }

  lemma CompactIsDone(pair: Pair, active: nat, left: seq<byte>, revision: word, entries: seq<Entry>, state: DirState,
                      delta: Option<seq<byte>>, log1: seq<Raw>, log': seq<Raw>, block': seq<byte>, bytes: seq<byte>)
    requires active <= 1 && pair.Valid() && |pair.b0| == |pair.b1| == |left| && HEADER + PAIR_SIZE <= |left|
    requires revision == NextRevision(RevisionOf(pair.Block(active)))
    requires AreFileEntries(entries) && TailIsPlain(state)
    requires delta.Some? ==> |delta.value| == GSTATE_SIZE
    requires AreAttributes(RawsOf(entries) + TailRaws(state) + DeltaRaws(delta))
    requires log1 == RawsOf(entries) + TailRaws(state) + DeltaRaws(delta)
    requires log1 <= log' && |log'| == |log1| + 1 && IsCrc(log'[|log1|].tag)
    requires 8 <= |bytes| <= |left| && block' == Overlay(left, 0, bytes) && ToLE32(revision) <= bytes
    requires |bytes| == End(log1) + 8
    requires Finished(block', log')
    ensures Current(pair.With(1 - active, block'), 1 - active, log') && RevisionOf(block') == revision
    ensures StateOfLog(log') == state.(count := CountOf(entries))
    ensures IsCompacted(entries, state, delta, log') && Programs(left, 0, bytes, [], log')
  {
    hide Current, AreAttributes, RevisionOf, LastLink, End, StateOfLog, Robust, Committed, SizeOfRaws, RawsOf, TailRaws,
         DeltaRaws, CountOf, NextRevision, AreFileEntries, TailIsPlain, NextRaw, ToLE32, IsCrc, Overlay, Fetched,
         Programs;
    TailSize(state);
    StateOfEntries(entries);
    TailState(state, RawsOf(entries));
    assert log1 == RawsOf(entries) + (TailRaws(state) + DeltaRaws(delta));
    ClosedState(RawsOf(entries), TailRaws(state), DeltaRaws(delta), log1, log', delta);
    RevisionWritten(left, bytes, revision);
    CompactIsCurrent(pair, active, block', log');
    assert log1 == [] + log1;
    ClosedPrograms(left, 0, bytes, [], log1, log1, log');
  }

  lemma CompactWasSafe(pair: Pair, active: nat, log: seq<Raw>, left: seq<byte>, entries: seq<Entry>, state: DirState,
                       delta: Option<seq<byte>>, log': seq<Raw>, block': seq<byte>, bytes: seq<byte>)
    requires Persists(pair, active, log) && |left| == |pair.b0| && active <= 1
    requires AreFileEntries(entries) && TailIsPlain(state)
    requires delta.Some? ==> |delta.value| == GSTATE_SIZE
    requires |bytes| <= |left| && block' == Overlay(left, 0, bytes)
    requires IsCompacted(entries, state, delta, log') && Programs(left, 0, bytes, [], log')
    requires ErasedAsLeft(left, block', log')
    ensures Compacted(pair, active, entries, state, delta, left, pair.With(1 - active, block'), log', bytes)
  {
    hide Persists, CrashSafe, Programs, Overlay, AreFileEntries, TailIsPlain, CompactedRaws, IsCrc, IsCompacted,
         ErasedAsLeft, Committed;
    PersistsParts(pair, active, log);
    CompactIsCrashSafe(pair, active, log, left, bytes, log');
  }

  lemma CompactWasHarmless(pair: Pair, active: nat, log: seq<Raw>, left: seq<byte>, block': seq<byte>, bytes: seq<byte>)
    requires Persists(pair, active, log) && |left| == |pair.b0| && active <= 1
    requires |bytes| <= |left| && block' == Overlay(left, 0, bytes)
    requires HEADER <= |block'| && (Blank(left, 0) ==> NoTornCommit(block', [], []))
    ensures GivenUp(pair, 1 - active, left, 0, bytes, [], pair.With(1 - active, block'))
    ensures NoTornCommit(block', [], []) ==> Persists(pair.With(1 - active, block'), active, log)
    ensures NoTornCommit(block', [], []) && Current(pair, active, log) ==>
              Current(pair.With(1 - active, block'), active, log)
  {
    hide Persists, Current, NoTornCommit, Overlay, Committed;
    PersistsParts(pair, active, log);
    if NoTornCommit(block', [], []) {
      AbandonedCompact(pair, active, log, block');
    }
  }
}
