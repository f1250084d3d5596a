/**
 A whole commit, as lfs_dir_relocating_commit makes it: appended if there is room, and otherwise compacted, after as
 many files as necessary were split off into new pairs. The new pairs are complete before the directory refers to them.
 */
module DirCommit {
  import opened Options
  import opened Words
  import opened Device
  import opened Tags
  import opened TagLog
  import opened RawLog
  import opened Fetch
  import opened Commit
  import opened PowerLoss
  import opened Pairs
  import opened Compaction
  import opened Traverse
  import opened Splitting
  import opened Attributes
  import opened CompactedLog
  import opened Directory
  import LogReader
  import opened GlobalState

  /**
   A freshly allocated pair: its addresses, what its blocks happen to hold, and what an erase leaves of the second one.
   */
  datatype Fresh = Fresh(address: seq<byte>, pair: Pair, left: seq<byte>)

  predicate IsFresh(f: Fresh, blockSize: nat) {
    && |f.address| == PAIR_SIZE && !IsNullPair(f.address)
    && |f.pair.b0| == |f.pair.b1| == |f.left| == blockSize
  }

  /** A pair that was split off: the files it took, and how its log was written. */
  datatype NewPair = NewPair(begin: nat, end: nat, address: seq<byte>, pair: Pair, state: DirState,
                             delta: Option<seq<byte>>, log: seq<Raw>)

  /** The pair holds its files, and a fetch finds them. */
  ghost predicate IsNew(items: seq<Item>, n: NewPair) {
    && (n.delta.Some? ==> |n.delta.value| == GSTATE_SIZE)
    && AreFileEntries(Compaction.Compact(items, n.begin, n.end)) && TailIsPlain(n.state)
    && Current(n.pair, 1, n.log)
    && IsCompacted(Compaction.Compact(items, n.begin, n.end), n.state, n.delta, n.log)
  }

  lemma EntriesAreStateless(entries: seq<Entry>, state: DirState)
    requires AreFileEntries(entries) && TailIsPlain(state)
    ensures |state.tail| == PAIR_SIZE && Stateless(RawsOf(entries) + TailRaws(state))
  {
    GlobalTag(TYPE_TAIL, PAIR_SIZE);
    GlobalTag(TYPE_TAIL + 1, PAIR_SIZE);
    forall i | 0 <= i < |entries|
      ensures TypeOf(RawsOf(entries)[i].tag) != TYPE_MOVESTATE
    {
      FileTag(entries[i]);
    }
  }

  lemma CompactExtends(entries: seq<Entry>, state: DirState, delta: Option<seq<byte>>, log': seq<Raw>)
    requires AreFileEntries(entries) && TailIsPlain(state)
    requires delta.Some? ==> |delta.value| == GSTATE_SIZE
    requires IsCompacted(entries, state, delta, log')
    ensures |state.tail| == PAIR_SIZE && ExtendsBy([], RawsOf(entries) + TailRaws(state), delta, log')
  {
    hide RawsOf, TailRaws, DeltaRaws, IsCrc;
    TailSize(state);
    assert [] + (RawsOf(entries) + TailRaws(state)) + DeltaRaws(delta) == CompactedRaws(entries, state, delta);
  }

  /** A compacted log stores what was asked for. */
  lemma CompactedStores(entries: seq<Entry>, state: DirState, change: Gstate, stored: Gstate, log': seq<Raw>)
    requires AreFileEntries(entries) && TailIsPlain(state)
    requires IsCompacted(entries, state, CompactDelta(change, stored), log')
    ensures Stored(log') == GlobalState.Xor(change, stored)
  {
    hide RawsOf, TailRaws, Stored, IsCompacted, CompactDelta, GlobalState.Xor, AreFileEntries, TailIsPlain;
    EntriesAreStateless(entries, state);
    CompactExtends(entries, state, CompactDelta(change, stored), log');
    CompactStores(RawsOf(entries) + TailRaws(state), change, stored, log');
  }

  /**
   lfs_dir_split: compacts the files begin..end into a fresh pair. The revision goes on from what the first block
   claims.
   */
  method CompactFresh(f: Fresh, items: seq<Item>, begin: nat, end: nat, state: DirState, change: Gstate)
    returns (ok: bool, pair: Pair, ghost n: NewPair)
    requires HEADER + PAIR_SIZE <= |f.left| && IsFresh(f, |f.left|) && TailIsPlain(state)
    requires CanTraverse(items) && AreFileEntries(Compaction.Compact(items, begin, end))
    ensures ok <==> CompactFits(Compaction.Compact(items, begin, end), state, CompactDelta(change, ZERO), |f.left|)
    ensures ok ==>
              IsNew(items, n) && n.pair == pair && n.address == f.address && n.begin == begin && n.end == end
              && n.state == state
    ensures ok ==> Stored(n.log) == change
  {
    hide CanTraverse, AreFileEntries, TailIsPlain, Compaction.Compact, CompactFits, CompactDelta, Current, IsCompacted,
         Programs, ErasedAsLeft, NoTornCommit, Blank, RevisionOf, NextRevision, Robust, StateOfLog, Stored,
         GlobalState.Xor, Overlay, IsNullPair;
    var entries := Traverse.Traverse(items, begin, end);
    var delta := CompactDelta(change, ZERO);
    FreshRevision(f);
    var block', offset', etag';
    ghost var log', bytes;
    ok, block', offset', etag', log', bytes :=
      CompactBlock(f.pair, 0, f.left, NextRevision(RevisionOf(f.pair.Block(0))), entries, state, delta);
    pair := f.pair.With(1, block');
    n := NewPair(begin, end, f.address, pair, state, delta, log');
    if ok {
      CompactedStores(entries, state, change, ZERO, log');
      XorSelf(change);
    }
  }

  lemma FreshRevision(f: Fresh)
    requires HEADER + PAIR_SIZE <= |f.left| && IsFresh(f, |f.left|)
    ensures f.pair.Valid() && |f.pair.Block(0)| == |f.left|
  {
  }

  // ---------- splitting off ----------

  /** One pair after the other takes the files from `first` to `count`. */
  predicate Tiles(news: seq<NewPair>, first: nat, count: nat) {
    && first <= count
    && (news == [] ==> first == count)
    && (news != [] ==> news[0].begin == first && news[|news| - 1].end == count)
    && (forall k :: 0 <= k < |news| ==> news[k].begin <= news[k].end <= count)
    && (forall k :: 0 < k < |news| ==> news[k - 1].end == news[k].begin)
  }

  /** The state that leads on to the first of the new pairs, or to where the directory led before. */
  function Leading(news: seq<NewPair>, state: DirState): DirState {
    if news == [] then state else state.(tail := news[0].address, split := true)
  }

  /** A directory that keeps its first files leads to the first new pair, which goes on with it, if there is one. */
  predicate NowLeads(state: DirState, news: seq<NewPair>, last: nat, state0: DirState) {
    && state.count == last
    && (if news == [] then state.tail == state0.tail && state.split == state0.split
        else state.tail == news[0].address && state.split)
  }

  lemma LeadingLeads(news: seq<NewPair>, last: nat, state0: DirState)
    ensures NowLeads(Leading(news, state0).(count := last), news, last, state0)
  {
  }

  /** Every new pair leads to the next, the last one to where the directory led before. */
  predicate Linked(news: seq<NewPair>, state: DirState) {
    forall k :: 0 <= k < |news| ==> news[k].state == Leading(news[k + 1..], state)
  }

  function StoredIn(logs: seq<seq<Raw>>): (s: seq<Gstate>)
    ensures |s| == |logs|
    ensures forall i :: 0 <= i < |logs| ==> s[i] == Stored(logs[i])
  {
    seq(|logs|, i requires 0 <= i < |logs| => Stored(logs[i]))
  }

  function LogsOf(news: seq<NewPair>): (logs: seq<seq<Raw>>)
    ensures |logs| == |news|
    ensures forall i :: 0 <= i < |news| ==> logs[i] == news[i].log
  {
    seq(|news|, i requires 0 <= i < |news| => news[i].log)
  }

  ghost function PairsOf(news: seq<NewPair>): (pairs: seq<Pair>)
    ensures |pairs| == |news|
    ensures forall i :: 0 <= i < |news| ==> pairs[i] == news[i].pair
  {
    seq(|news|, i requires 0 <= i < |news| => news[i].pair)
  }

  ghost predicate AreNew(items: seq<Item>, news: seq<NewPair>) {
    forall k :: 0 <= k < |news| ==> IsNew(items, news[k])
  }

  /**
   What splitting off has come to: the pairs, how they hang together, and what is left of the change of the global
   state.
   */
  ghost predicate SplitOff(items: seq<Item>, news: seq<NewPair>, last: nat, count: nat, state0: DirState,
                           change0: Gstate, state: DirState, change: Gstate) {
    && Tiles(news, last, count) && AreNew(items, news) && Linked(news, state0)
    && state == Leading(news, state0) && TailIsPlain(state)
    && change == (if news == [] then change0 else ZERO)
    && XorAll(StoredIn(LogsOf(news))) == (if news == [] then ZERO else change0)
  }

  lemma NothingSplit(items: seq<Item>, count: nat, state: DirState, change: Gstate)
    requires TailIsPlain(state)
    ensures SplitOff(items, [], count, count, state, change, state, change)
  {
  }

  lemma LinkedPrepend(n: NewPair, news: seq<NewPair>, state0: DirState)
    requires Linked(news, state0) && n.state == Leading(news, state0)
    ensures Linked([n] + news, state0) && Leading([n] + news, state0) == state0.(tail := n.address, split := true)
  {
    var all := [n] + news;
    forall k | 0 <= k < |all|
      ensures all[k].state == Leading(all[k + 1..], state0)
    {
      if k == 0 {
        assert all[1..] == news;
      } else {
        assert all[k] == news[k - 1] && all[k + 1..] == news[k..];
      }
    }
  }

  lemma TilesPrepend(n: NewPair, news: seq<NewPair>, count: nat)
    requires Tiles(news, n.end, count) && n.begin <= n.end
    ensures Tiles([n] + news, n.begin, count)
  {
    var all := [n] + news;
    assert forall k :: 0 < k < |all| ==> all[k] == news[k - 1];
  }

  lemma StoredPrepend(n: NewPair, news: seq<NewPair>)
    ensures XorAll(StoredIn(LogsOf([n] + news))) == GlobalState.Xor(Stored(n.log), XorAll(StoredIn(LogsOf(news))))
  {
    hide XorAll, Stored, GlobalState.Xor;
    assert StoredIn(LogsOf([n] + news)) == [Stored(n.log)] + StoredIn(LogsOf(news));
    XorAllConcat([Stored(n.log)], StoredIn(LogsOf(news)));
    XorAllOne(Stored(n.log));
  }

  lemma SplitOffMore(items: seq<Item>, n: NewPair, news: seq<NewPair>, count: nat, state0: DirState, change0: Gstate,
                     state: DirState, change: Gstate)
    requires SplitOff(items, news, n.end, count, state0, change0, state, change)
    requires IsNew(items, n) && n.begin <= n.end && n.state == state && Stored(n.log) == change
    requires |n.address| == PAIR_SIZE && !IsNullPair(n.address)
    ensures SplitOff(items, [n] + news, n.begin, count, state0, change0, state0.(tail := n.address, split := true),
                     ZERO)
  {
    hide IsNew, Tiles, Linked, Leading, XorAll, StoredIn, LogsOf, Stored, GlobalState.Xor, IsNullPair;
    LinkedPrepend(n, news, state0);
    TilesPrepend(n, news, count);
    StoredPrepend(n, news);
    XorSelf(change0);
    XorSelf(ZERO);
  }

  /** What a fetch of a new pair reads: where it leads, and the number of files that are named. */
  lemma NewIsFetched(items: seq<Item>, n: NewPair)
    requires IsNew(items, n)
    ensures StateOfLog(n.log) == n.state.(count := CountOf(Compaction.Compact(items, n.begin, n.end)))
  {
    hide AreFileEntries, TailIsPlain, Compaction.Compact, RawsOf, TailRaws, DeltaRaws, Current, StateOfLog, CountOf,
         Robust, IsCrc;
    var entries := Compaction.Compact(items, n.begin, n.end);
    TailSize(n.state);
    var log1 := RawsOf(entries) + TailRaws(n.state) + DeltaRaws(n.delta);
    CurrentIsRobust(n.pair, 1, n.log);
    StateOfEntries(entries);
    TailState(n.state, RawsOf(entries));
    assert n.log[..|n.log| - 1] == log1 by {
      assert log1 == CompactedRaws(entries, n.state, n.delta);
    }
    ClosedState(RawsOf(entries), TailRaws(n.state), DeltaRaws(n.delta), log1, n.log, n.delta);
  }

  lemma CurrentIsRobust(pair: Pair, active: nat, log: seq<Raw>)
    requires Current(pair, active, log)
    ensures Robust(log)
  {
  }

  /** Fetched again, every new pair leads on to the one that follows it, and the last one to where the directory led. */
  lemma NewPairsAreLinked(items: seq<Item>, news: seq<NewPair>, state0: DirState, k: nat)
    requires AreNew(items, news) && Linked(news, state0) && k < |news|
    ensures news[k].log == Fetched(news[k].pair.b1) && Active(news[k].pair) == Some(1)
    ensures var s := StateOfLog(news[k].log);
            if k + 1 < |news| then s.tail == news[k + 1].address && s.split
            else s.tail == state0.tail && s.split == state0.split
  {
    hide StateOfLog, CountOf, AreFileEntries, TailIsPlain, IsCompacted, Compaction.Compact;
    NewIsFetched(items, news[k]);
  }

  /** Whether files are split off: there are too many of them, a pair can be had, and it takes the last ones. */
  ghost predicate SplitsSome(blockSize: nat, items: seq<Item>, count: int, state: DirState, change: Gstate,
                             spares: seq<Fresh>) {
    && RESERVED <= blockSize && TailIsPlain(state) && 0 <= count
    && var split := SplitAt(blockSize, items, 0, count);
    && var entries := Compaction.Compact(items, split, count);
    && spares != [] && split != 0
    && AreFileEntries(entries) && CompactFits(entries, state, CompactDelta(change, ZERO), blockSize)
  }

  /** The new pairs take the spare ones in turn, from the back, and each the files that had to be split off. */
  ghost predicate TakeInTurn(blockSize: nat, items: seq<Item>, spares: seq<Fresh>, news: seq<NewPair>) {
    && RESERVED <= blockSize && |news| <= |spares|
    && (forall k :: 0 <= k < |news| ==> news[k].address == spares[|news| - 1 - k].address)
    && (forall k :: 0 <= k < |news| ==> 0 < news[k].begin == SplitAt(blockSize, items, 0, news[k].end))
  }

  /**
   Why no more files are split off: what is left needs no split, there is no other pair to be had, or it does not take
   the files.
   */
  ghost predicate FarEnough(blockSize: nat, items: seq<Item>, spares: seq<Fresh>, news: seq<NewPair>, last: int,
                            state0: DirState, change0: Gstate) {
    && RESERVED <= blockSize && 0 <= last
    && var split := SplitAt(blockSize, items, 0, last);
    && var state, change := Leading(news, state0), if news == [] then change0 else ZERO;
    && (|| split == 0
        || |news| == |spares|
        || (AreFileEntries(Compaction.Compact(items, split, last)) && TailIsPlain(state)
            && !CompactFits(Compaction.Compact(items, split, last), state, CompactDelta(change, ZERO), blockSize)))
  }

  ghost predicate SplitsFar(blockSize: nat, items: seq<Item>, spares: seq<Fresh>, news: seq<NewPair>, last: int,
                            state0: DirState, change0: Gstate) {
    && TakeInTurn(blockSize, items, spares, news)
    && FarEnough(blockSize, items, spares, news, last, state0, change0)
  }

  lemma TakeNext(blockSize: nat, items: seq<Item>, spares: seq<Fresh>, n: NewPair, news: seq<NewPair>)
    requires TakeInTurn(blockSize, items, spares, news) && |news| < |spares|
    requires n.address == spares[|news|].address && 0 < n.begin == SplitAt(blockSize, items, 0, n.end)
    ensures TakeInTurn(blockSize, items, spares, [n] + news)
  {
    hide SplitAt;
    var all := [n] + news;
    forall k | 0 <= k < |all|
      ensures all[k].address == spares[|all| - 1 - k].address
              && 0 < all[k].begin == SplitAt(blockSize, items, 0, all[k].end)
    {
      if k > 0 {
        assert all[k] == news[k - 1];
      }
    }
  }

  /** The part of lfs_dir_splittingcompact that splits files off, from the back; it stops where no pair can be had. */
  method SplitFiles(blockSize: nat, items: seq<Item>, count: nat, state0: DirState, change0: Gstate, spares: seq<Fresh>)
    returns (last: nat, state: DirState, change: Gstate, pairs: seq<Pair>, ghost news: seq<NewPair>)
    requires RESERVED <= blockSize && TailIsPlain(state0)
    requires CanTraverse(items)
    requires forall i, j :: 0 <= i <= j <= count ==> AreFileEntries(Compaction.Compact(items, i, j))
    requires forall i :: 0 <= i < |spares| ==> IsFresh(spares[i], blockSize)
    ensures SplitOff(items, news, last, count, state0, change0, state, change)
    ensures pairs == PairsOf(news) && |news| <= |spares|
    ensures forall k :: 0 <= k < |news| ==>
              news[k].end == news[k].begin + 1 || Fits(blockSize, items, news[k].begin, news[k].end)
    ensures pairs != [] <==> SplitsSome(blockSize, items, count, state0, change0, spares)
    ensures SplitsFar(blockSize, items, spares, news, last, state0, change0)
  {
    hide TakeInTurn, CanTraverse, SplitOff, IsNew, TailIsPlain, Compaction.Compact, AreFileEntries, CompactFits, Fits,
         Stored, CompactDelta, SplitAt;
    last, state, change, pairs, news := count, state0, change0, [], [];
    NothingSplit(items, count, state0, change0);
    NothingTaken(blockSize, items, spares);
    while true
      invariant last <= count && |pairs| == |news| <= |spares|
      invariant SplitOff(items, news, last, count, state0, change0, state, change)
      invariant pairs == PairsOf(news)
      invariant forall k :: 0 <= k < |news| ==>
                  news[k].end == news[k].begin + 1 || Fits(blockSize, items, news[k].begin, news[k].end)
      invariant TakeInTurn(blockSize, items, spares, news)
      invariant if pairs == [] then last == count && state == state0 && change == change0
                else SplitsSome(blockSize, items, count, state0, change0, spares)
      decreases last
    {
      // find size of first split
      var split := SplitPoint(blockSize, items, 0, last);
      SplitState(items, news, last, count, state0, change0, state, change);
      if split == 0 || |pairs| == |spares| {
        // no split needed, or we can't allocate a new block: try to compact with degraded performance
        return;
      }
      // split into two metadata pairs and continue
      var f := spares[|pairs|];
      var ok, pair;
      ghost var n;
      ok, pair, n := CompactFresh(f, items, split, last, state, change);
      if !ok {
        return;
      }
      SplitOffMore(items, n, news, count, state0, change0, state, change);
      TakeNext(blockSize, items, spares, n, news);
      pairs, news := [pair] + pairs, [n] + news;
      state, change, last := state0.(tail := f.address, split := true), ZERO, split;
    }
  }

  lemma SplitState(items: seq<Item>, news: seq<NewPair>, last: nat, count: nat, state0: DirState, change0: Gstate,
                   state: DirState, change: Gstate)
    requires SplitOff(items, news, last, count, state0, change0, state, change)
    ensures TailIsPlain(state) && last <= count
    ensures state == Leading(news, state0) && change == if news == [] then change0 else ZERO
  {
  }

  lemma NothingTaken(blockSize: nat, items: seq<Item>, spares: seq<Fresh>)
    requires RESERVED <= blockSize
    ensures TakeInTurn(blockSize, items, spares, [])
  {
  }

  // ---------- the whole commit ----------

  /** How a commit ended. */
  datatype Outcome = Appending | Compacting | NoSpace

  /** The logs of all pairs, in the order of the tail list, after the pair at position `at` was committed to. */
  ghost function Rewritten(chain: seq<seq<Raw>>, at: nat, log: seq<Raw>, news: seq<NewPair>): seq<seq<Raw>>
    requires at < |chain|
  {
    chain[..at] + ([log] + LogsOf(news)) + chain[at + 1..]
  }

  lemma StoredConcat(a: seq<seq<Raw>>, b: seq<seq<Raw>>)
    ensures StoredIn(a + b) == StoredIn(a) + StoredIn(b)
  {
    hide Stored;
  }

  lemma StoredSplits(chain: seq<seq<Raw>>, at: nat)
    requires at < |chain|
    ensures StoredIn(chain) == StoredIn(chain[..at]) + [Stored(chain[at])] + StoredIn(chain[at + 1..])
  {
    hide Stored;
  }

  lemma StoredHead(log: seq<Raw>, news: seq<NewPair>)
    ensures StoredIn([log] + LogsOf(news)) == [Stored(log)] + StoredIn(LogsOf(news))
  {
    hide Stored;
  }

  /** If the pair and those split off from it take up the change, the state on disk is the new one. */
  lemma RewriteConserves(chain: seq<seq<Raw>>, at: nat, log: seq<Raw>, news: seq<NewPair>, gstate: Gstate,
                         gdisk: Gstate, gdelta: Gstate)
    requires at < |chain| && Conserved(StoredIn(chain), gdisk, gdelta)
    requires GlobalState.Xor(Stored(log), XorAll(StoredIn(LogsOf(news))))
             == GlobalState.Xor(Change(gstate, gdisk, gdelta), Stored(chain[at]))
    ensures Conserved(StoredIn(Rewritten(chain, at, log, news)), gstate, ZERO)
  {
    hide Stored, StoredIn, GlobalState.Xor, XorAll, Conserved, Change, LogsOf;
    var a, c := chain[..at], chain[at + 1..];
    StoredSplits(chain, at);
    StoredConcat(a + ([log] + LogsOf(news)), c);
    StoredConcat(a, [log] + LogsOf(news));
    StoredHead(log, news);
    XorAllConcat([Stored(log)], StoredIn(LogsOf(news)));
    XorAllOne(Stored(log));
    XorAllOne(Stored(chain[at]));
    CommitConserves(StoredIn(a), [Stored(chain[at])], [Stored(log)] + StoredIn(LogsOf(news)), StoredIn(c), gstate,
                    gdisk, gdelta);
  }

  lemma AppendConserves(chain: seq<seq<Raw>>, at: nat, log: seq<Raw>, attrs: seq<Raw>, log': seq<Raw>, gstate: Gstate,
                        gdisk: Gstate, gdelta: Gstate)
    requires at < |chain| && chain[at] == log && Conserved(StoredIn(chain), gdisk, gdelta) && Stateless(Selected(attrs))
    requires ExtendsBy(log, Selected(attrs), AppendDelta(Change(gstate, gdisk, gdelta), Stored(log)), log')
    ensures Conserved(StoredIn(Rewritten(chain, at, log', [])), gstate, ZERO)
  {
    hide Stored, StoredIn, GlobalState.Xor, Conserved, Change, ExtendsBy, Selected;
    AppendStores(log, Selected(attrs), Change(gstate, gdisk, gdelta), log');
    NothingStored();
    XorSelf(Stored(log'));
    RewriteConserves(chain, at, log', [], gstate, gdisk, gdelta);
  }

  lemma NothingStored()
    ensures XorAll(StoredIn(LogsOf([]))) == ZERO
  {
    assert StoredIn(LogsOf([])) == [];
  }

  /** What is left of the change after some files were split off goes to the directory itself. */
  lemma CompactConserves(chain: seq<seq<Raw>>, at: nat, items: seq<Item>, news: seq<NewPair>, last: nat, count: nat,
                         state0: DirState, state: DirState, change: Gstate, stored: Gstate, log': seq<Raw>,
                         gstate: Gstate, gdisk: Gstate, gdelta: Gstate)
    requires at < |chain| && Conserved(StoredIn(chain), gdisk, gdelta) && stored == Stored(chain[at])
    requires SplitOff(items, news, last, count, state0, Change(gstate, gdisk, gdelta), state, change)
    requires Stored(log') == GlobalState.Xor(change, stored)
    ensures Conserved(StoredIn(Rewritten(chain, at, log', news)), gstate, ZERO)
  {
    hide Stored, StoredIn, GlobalState.Xor, XorAll, Conserved, Change, LogsOf, Tiles, AreNew, Linked, Leading,
         TailIsPlain;
    var change0 := Change(gstate, gdisk, gdelta);
    XorSelf(stored);
    XorSelf(GlobalState.Xor(change0, stored));
    XorCommutes(change0, stored);
    RewriteConserves(chain, at, log', news, gstate, gdisk, gdelta);
  }

  /** The fields of lfs_t that a commit changes, and what all pairs of the file system hold. */
  class Volume {
    var gstate: Gstate
    var gdisk: Gstate
    var gdelta: Gstate
    ghost var chain: seq<seq<Raw>>

    /** The pairs add up to the state that is taken to be on disk. */
    ghost predicate Settled()
      reads this
    {
      Conserved(StoredIn(chain), gdisk, gdelta)
    }

    /** What an append of the attributes would write: with them goes the change of the global state, if there is one. */
    ghost function ToAppend(log: seq<Raw>, attrs: seq<Raw>): seq<Raw>
      reads this
    {
      Selected(attrs) + DeltaRaws(AppendDelta(Change(gstate, gdisk, gdelta), Stored(log)))
    }

    /** Whether a commit is appended and not compacted. */
    ghost predicate Appends(dir: MetadataDir, attrs: seq<Raw>)
      reads this, dir
    {
      var raws := ToAppend(dir.log, attrs);
      dir.erased && (raws == [] || dir.offset + SizeOfRaws(raws) + PAIR_SIZE <= |dir.pair.b0|)
    }

    lemma SettledIs()
      ensures Settled() <==> Conserved(StoredIn(chain), gdisk, gdelta)
    {
    }

    lemma AppendsIfErased(dir: MetadataDir, attrs: seq<Raw>)
      ensures Appends(dir, attrs) ==> dir.erased
    {
    }

    /** The first part of lfs_dir_relocating_commit: the attributes and the change of the global state are appended. */
    method TryAppend(dir: MetadataDir, attrs: seq<Raw>, ghost at: nat)
      returns (ok: bool, ghost over: bool, ghost delta: Option<seq<byte>>, ghost bytes: seq<byte>)
      requires Settled() && dir.Valid() && at < |chain| && chain[at] == dir.log
      requires AreAttributes(attrs) && Counts(dir.state, attrs) && Stateless(Selected(attrs))
      requires dir.offset + 8 <= |dir.pair.b0| || Selected(attrs) != []
      modifies this`gdisk, this`gdelta, this`chain, dir
      ensures dir.active == old(dir.active) && dir.active <= 1 && dir.erased == old(dir.erased)
      ensures delta.Some? ==> |delta.value| == GSTATE_SIZE
      ensures old(dir.erased) ==> (ok <==> old(Appends(dir, attrs)))
      ensures over == (ok && Overruns(|old(dir.pair).b0|, old(dir.offset), old(ToAppend(dir.log, attrs))))
      ensures ok ==> Settled() && gdisk == gstate && gdelta == ZERO && dir.state == TallyAll(old(dir.state), attrs)
      ensures delta.None? <==> old(Change(gstate, gdisk, gdelta)) == ZERO
      ensures ok && !over ==> dir.Valid() && chain == Rewritten(old(chain), at, dir.log, [])
      ensures ok && !over ==> Appended(old(dir.pair), dir.active, old(dir.log), attrs, delta, dir.pair, dir.log, bytes)
      ensures over ==> chain == old(chain) && Current(dir.pair, dir.active, dir.log) && dir.log == old(dir.log)
      ensures !ok ==> gdisk == old(gdisk) && gdelta == old(gdelta) && chain == old(chain)
      ensures !ok ==> dir.log == old(dir.log) && dir.state == old(dir.state) && dir.offset == old(dir.offset)
      ensures !ok ==> |dir.pair.b0| == |old(dir.pair).b0| && dir.Sound()
      ensures !ok ==>
                GivenUp(old(dir.pair), dir.active, old(dir.pair).Block(dir.active), dir.offset, bytes, dir.log,
                        dir.pair)
    {
      hide Current, Persists, Knows, AreAttributes, Counts, Selected, StateOfLog, RevisionOf, Stored, Conserved,
           GlobalState.Xor, Drop, NoTornCommit, Appended, AppendDelta, TallyAll, Overlay, Stateless, Robust,
           RawLog.Encode, LastLink, GivenUp, Agrees, SizeOfRaws, DeltaRaws, Change, Committed;
      CurrentPersists(dir.pair, dir.active, dir.log);
      PersistsParts(dir.pair, dir.active, dir.log);
      KnowsParts(dir.pair, dir.active, dir.revision, dir.offset, dir.etag, dir.state, dir.log);
      CommittedHolds(dir.pair.Block(dir.active), dir.log);
      // commit any global diffs if we have any
      var change := Drop(GlobalState.Xor(GlobalState.Xor(gstate, gdisk), gdelta));
      ChangeIs(gstate, gdisk, gdelta);
      var stored := GetGstate(dir.pair.Block(dir.active), dir.offset, dir.etag, ZERO, dir.log);
      XorSelf(Stored(dir.log));
      NothingSized();
      var d := AppendDelta(change, stored);
      delta := d;
      NoneIfUnchanged(change, stored);
      ghost var log := dir.log;
      SomethingToAppend(attrs, d, dir.offset, |dir.pair.b0|);
      over := Overruns(|dir.pair.b0|, dir.offset, Selected(attrs) + DeltaRaws(delta));
      ok, bytes := dir.Append(attrs, d);
      if ok {
        if over {
          NothingToAppend(attrs, delta);
          UnchangedSettles(StoredIn(chain), log, gstate, gdisk, gdelta);
        } else {
          AppendedExtends(old(dir.pair), dir.active, log, attrs, delta, dir.pair, dir.log, bytes);
          AppendConserves(chain, at, log, attrs, dir.log, gstate, gdisk, gdelta);
          chain := Rewritten(chain, at, dir.log, []);
        }
        // and update gstate
        gdisk, gdelta := gstate, ZERO;
      } else {
        GivenUpSize(old(dir.pair), dir.active, dir.offset, bytes, dir.log, dir.pair);
      }
    }

    /**
     The rest of lfs_dir_relocating_commit, that is lfs_dir_splittingcompact: files are split off into new pairs, then
     the others are compacted, and with them the directory gets to lead to the new pairs.
     */
    method SplitCompact(dir: MetadataDir, attrs: seq<Raw>, state0: DirState, spares: seq<Fresh>, left: seq<byte>,
                        ghost at: nat)
      returns (ok: bool, pairs: seq<Pair>, ghost news: seq<NewPair>, ghost last: nat, ghost delta: Option<seq<byte>>,
               ghost bytes: seq<byte>)
      requires Settled() && dir.Sound() && at < |chain| && chain[at] == dir.log
      requires AreAttributes(attrs) && CanCompact(dir.log, attrs)
      requires TailIsPlain(state0) && 0 <= state0.count <= NO_ID
      requires RESERVED <= |dir.pair.b0| == |left|
      requires forall i :: 0 <= i < |spares| ==> IsFresh(spares[i], |left|)
      modifies this`gdisk, this`gdelta, this`chain, dir
      ensures WasSplit(old(dir.pair), old(dir.active), old(dir.log), attrs, state0, left, spares,
                       old(Change(gstate, gdisk, gdelta)), news, last, delta)
      ensures pairs == PairsOf(news)
      ensures ok <==> RestFits(old(dir.log), attrs, state0, old(Change(gstate, gdisk, gdelta)), news, last, |left|)
      ensures ok ==> Settled() && gdisk == gstate && gdelta == ZERO
      ensures ok ==> chain == Rewritten(old(chain), at, dir.log, news)
      ensures ok ==> dir.state == Leading(news, state0).(count := last) && Current(dir.pair, dir.active, dir.log)
      ensures ok ==>
                Rewrote(old(dir.pair), old(dir.active), old(dir.log), attrs, state0, left, |spares|, news, last, delta,
                             dir.pair, dir.log, bytes)
      ensures ok && LastIsNamed(AllItems(old(dir.log), attrs), 0, last) ==> dir.Valid()
      ensures !ok ==> chain == old(chain) && dir.log == old(dir.log) && dir.active == old(dir.active) <= 1
      ensures !ok ==>
                if news == [] then gdisk == old(gdisk) && gdelta == old(gdelta) else gdisk == gstate && gdelta == ZERO
      ensures !ok ==> GivenUp(old(dir.pair), 1 - dir.active, left, 0, bytes, [], dir.pair)
      ensures !ok && OtherIsHarmless(dir.pair, dir.active) ==>
                && Persists(dir.pair, dir.active, dir.log)
                && (old(Current(dir.pair, dir.active, dir.log)) ==> Current(dir.pair, dir.active, dir.log))
    {
      hide *;
      SettledIs();
      dir.SoundPersists();
      ghost var pair, active, log := dir.pair, dir.active, dir.log;
      PersistsParts(dir.pair, dir.active, dir.log);
      KnowsParts(dir.pair, dir.active, dir.revision, dir.offset, dir.etag, dir.state, dir.log);
      var stored, change0, items :=
            ReadAll(dir.pair, dir.active, dir.offset, dir.etag, attrs, gstate, gdisk, gdelta, dir.log);
      AllAreFileEntries(pair, active, log, attrs, state0.count);
      var state, change, first;
      first, state, change, pairs, news := SplitFiles(|left|, items, state0.count, state0, change0, spares);
      last := first;
      SplitState(items, news, last, state0.count, state0, change0, state, change);
      var d := CompactDelta(change, stored);
      delta := d;
      SplitsAre(pair, active, log, attrs, state0, left, |spares|, items, news, last, change0, state, change, stored,
                delta);
      WasSplitOff(pair, active, log, attrs, state0, left, spares, change0, pairs, news, last, delta);
      if pairs != [] {
        // the first pair that was split off took the change
        gdisk, gdelta := gstate, ZERO;
      }
      ok, bytes := dir.Compact(attrs, 0, first, state, d, left);
      if ok {
        CompactionStores(pair, active, CompactedEntries(log, attrs, 0, last), state, change, stored, left, dir.pair,
                         dir.log, bytes);
        WasRewritten(pair, active, log, attrs, state0, left, |spares|, news, last, delta, dir.pair, dir.log, bytes);
        CompactConserves(chain, at, items, news, last, state0.count, state0, state, change, stored, dir.log,
                         gstate, old(gdisk), old(gdelta));
        gdisk, gdelta := gstate, ZERO;
        chain := Rewritten(chain, at, dir.log, news);
        SettledIs();
      } else {
        HarmlessIs(dir.pair, dir.active);
      }
    }

    /**
     lfs_dir_relocating_commit, where the directory is not dropped. Whatever happens on the way, `mid` holds the log of
     the directory as it was; in the end it is either the old one still, or the attributes have taken effect, and what
     the pairs store adds up to the new global state. Only when there is no space after files were split off may the
     state in memory run ahead of the disk. Bytes of an append that ran out of room matter in one way only: until the
     compaction is done, `mid` is found as it was if they do not pass for a commit.
     */
    method RelocatingCommit(dir: MetadataDir, attrs: seq<Raw>, spares: seq<Fresh>, left: seq<byte>, ghost at: nat)
      returns (r: Outcome, pairs: seq<Pair>, ghost over: bool, ghost mid: Pair, ghost tried: seq<byte>,
               ghost news: seq<NewPair>, ghost last: nat, ghost delta: Option<seq<byte>>, ghost bytes: seq<byte>)
      requires Settled() && dir.Valid() && at < |chain| && chain[at] == dir.log
      requires AreAttributes(attrs) && Counts(dir.state, attrs) && Stateless(Selected(attrs))
      requires dir.erased ==> dir.offset + 8 <= |dir.pair.b0| || Selected(attrs) != []
      requires !Appends(dir, attrs) ==>
                 && CanCompact(dir.log, attrs) && TailIsPlain(TallyAll(dir.state, attrs))
                 && 0 <= TallyAll(dir.state, attrs).count <= NO_ID && RESERVED <= |dir.pair.b0| == |left|
                 && forall i :: 0 <= i < |spares| ==> IsFresh(spares[i], |left|)
      modifies this`gdisk, this`gdelta, this`chain, dir
      // how it goes on from the directory as it was
      ensures r.Appending? <==> old(Appends(dir, attrs))
      ensures Persists(mid, old(dir.active), old(dir.log)) && old(dir.active) <= 1
      ensures if r.Appending? || !old(dir.erased) then mid == old(dir.pair)
              else GivenUp(old(dir.pair), old(dir.active), old(dir.pair.Block(dir.active)), old(dir.offset), tried,
                           old(dir.log), mid)
      ensures NoTornCommit(mid.Block(old(dir.active)), old(dir.log), old(dir.log)) ==>
                Current(mid, old(dir.active), old(dir.log))
      // appended
      ensures over <==> r.Appending? && Overruns(|old(dir.pair).b0|, old(dir.offset), old(ToAppend(dir.log, attrs)))
      ensures delta.Some? ==> |delta.value| == GSTATE_SIZE
      ensures r.Appending? ==> news == [] && dir.state == TallyAll(old(dir.state), attrs)
      ensures r.Appending? ==> (delta.None? <==> old(Change(gstate, gdisk, gdelta)) == ZERO)
      ensures r.Appending? && !over ==>
                && dir.Valid() && old(dir.active) <= 1
                && Appended(old(dir.pair), old(dir.active), old(dir.log), attrs, delta, dir.pair, dir.log, bytes)
      ensures over ==> Current(dir.pair, dir.active, old(dir.log)) && chain == old(chain)
      // compacted
      ensures !r.Appending? ==>
                WasSplit(mid, old(dir.active), old(dir.log), attrs, TallyAll(old(dir.state), attrs), left, spares,
                         old(Change(gstate, gdisk, gdelta)), news, last, delta)
      ensures pairs == PairsOf(news)
      ensures !r.Appending? ==>
                (r.Compacting? <==> RestFits(old(dir.log), attrs, TallyAll(old(dir.state), attrs),
                                             old(Change(gstate, gdisk, gdelta)), news, last, |left|))
      ensures r.Compacting? ==>
                && Current(dir.pair, dir.active, dir.log)
                && NowLeads(dir.state, news, last, TallyAll(old(dir.state), attrs))
                && Rewrote(mid, old(dir.active), old(dir.log), attrs, TallyAll(old(dir.state), attrs), left, |spares|,
                           news, last, delta, dir.pair, dir.log, bytes)
      ensures r.Compacting? && LastIsNamed(AllItems(old(dir.log), attrs), 0, last) ==> dir.Valid()
      // the global state
      ensures !r.NoSpace? ==> Settled() && gdisk == gstate && gdelta == ZERO
      ensures !r.NoSpace? && !over ==> chain == Rewritten(old(chain), at, dir.log, news)
      // neither
      ensures r.NoSpace? ==>
                && chain == old(chain) && dir.active == old(dir.active) <= 1
                && GivenUp(mid, 1 - dir.active, left, 0, bytes, [], dir.pair)
                && (news == [] ==> gdisk == old(gdisk) && gdelta == old(gdelta))
      ensures r.NoSpace? && Current(mid, dir.active, old(dir.log)) && OtherIsHarmless(dir.pair, dir.active) ==>
                Current(dir.pair, dir.active, old(dir.log))
      ensures r.NoSpace? ==>
                (Settled() <==> news == [] || Drop(gstate) == Drop(GlobalState.Xor(old(gdisk), old(gdelta))))
    {
      hide *;
      dir.ValidIsSound();
      SettledIs();
      AppendsIfErased(dir, attrs);
      CurrentPersists(dir.pair, dir.active, dir.log);
      PersistsParts(dir.pair, dir.active, dir.log);
      // calculate changes to the directory
      var state0 := Tally(dir.state, attrs);
      mid, tried, news, last, delta, bytes, pairs, over := dir.pair, [], [], 0, None, [], [], false;
      if dir.erased {
        // try to commit
        var ok;
        ok, over, delta, bytes := TryAppend(dir, attrs, at);
        if ok {
          r := Appending;
          return;
        }
        mid, tried := dir.pair, bytes;
        dir.SoundPersists();
        PersistsParts(dir.pair, dir.active, dir.log);
      }
      SettledIs();
      MidIsCurrent(mid, dir.active, dir.log);
      SettledMeans(StoredIn(chain), gstate, gdisk, gdelta);
      var ok;
      ok, pairs, news, last, delta, bytes := SplitCompact(dir, attrs, state0, spares, left, at);
      SettledIs();
      LeadingLeads(news, last, state0);
      SplitsDelta(mid, old(dir.active), old(dir.log), attrs, state0, left, spares,
                  old(Change(gstate, gdisk, gdelta)), news, last, delta);
      r := if ok then Compacting else NoSpace;
    }

    /**
     Whether the new tail, and with it the change and the delta that is taken over, fit the block of the directory.
     */
    ghost predicate DropAppends(dir: MetadataDir, next: MetadataDir)
      reads this, dir, next
    {
      var change := Change(gstate, gdisk, GlobalState.Xor(gdelta, Stored(next.log)));
      var raws := [LinkRaw(next.state)] + DeltaRaws(AppendDelta(change, Stored(dir.log)));
      dir.erased && dir.offset + SizeOfRaws(raws) + PAIR_SIZE <= |dir.pair.b0|
    }

    /**
     lfs_dir_drop: takes the pair that follows the directory off the list. Its delta is taken over into memory before
     the directory is made to lead on to where it led, and with that commit the pairs that are left add up to the new
     state. If there is no space for the commit the delta stays in memory although the pair is still there to store it.
     */
    method DropNext(dir: MetadataDir, next: MetadataDir, spares: seq<Fresh>, left: seq<byte>, ghost at: nat)
      returns (r: Outcome, pairs: seq<Pair>, ghost mid: Pair, ghost news: seq<NewPair>, ghost last: nat)
      requires Settled() && dir.Valid() && next.Valid() && dir != next
      requires at + 1 < |chain| && chain[at] == dir.log && chain[at + 1] == next.log
      requires |next.state.tail| == PAIR_SIZE && TailIsPlain(next.state)
      requires 0 <= dir.state.count <= NO_ID && RESERVED <= |dir.pair.b0| == |left|
      requires CanCompact(dir.log, [LinkRaw(next.state)])
      requires forall i :: 0 <= i < |spares| ==> IsFresh(spares[i], |left|)
      modifies this`gdisk, this`gdelta, this`chain, dir
      ensures Persists(mid, old(dir.active), old(dir.log))
      ensures r.Appending? <==> old(DropAppends(dir, next))
      ensures !r.Appending? ==>
                (r.Compacting? <==>
                 RestFits(old(dir.log), [LinkRaw(next.state)],
                          old(dir.state).(tail := next.state.tail, split := next.state.split),
                          old(Change(gstate, gdisk, GlobalState.Xor(gdelta, Stored(next.log)))), news, last, |left|))
      ensures !r.NoSpace? ==> Settled() && gdisk == gstate && gdelta == ZERO
      ensures !r.NoSpace? ==> chain == Rewritten(Without(old(chain), at + 1), at, dir.log, news)
      ensures r.Appending? ==> dir.Valid() && news == []
      ensures r.Appending? ==> dir.state == old(dir.state).(tail := next.state.tail, split := next.state.split)
      ensures r.Compacting? ==> Current(dir.pair, dir.active, dir.log)
      ensures r.Compacting? ==> NowLeads(dir.state, news, last, next.state)
      ensures r.NoSpace? ==> chain == old(chain)
      ensures r.NoSpace? && news == [] ==>
                gdisk == old(gdisk) && (Settled() <==> GlobalState.Drop(Stored(next.log)) == ZERO)
    {
      hide Current, Persists, Knows, AreAttributes, Counts, Selected, StateOfLog, RevisionOf, Stored, StoredIn,
           Conserved, GlobalState.Xor, GlobalState.Drop, NoTornCommit, Appended, CanCompact, CompactedEntries,
           TailIsPlain, AllItems, GivenUp, LastIsNamed, Splits, TallyAll, Stateless, IsFresh, Leading, XorAll,
           Rewritten, Robust, LastLink, RawLog.Encode, SplitsSome, Change, Committed, SizeOfRaws, AppendDelta,
           DeltaRaws, Rewrote, OtherIsHarmless, LinkRaw, Without, WasSplit;
      ghost var before, delta0, log := chain, gdelta, next.log;
      CurrentPersists(next.pair, next.active, next.log);
      PersistsParts(next.pair, next.active, next.log);
      KnowsParts(next.pair, next.active, next.revision, next.offset, next.etag, next.state, next.log);
      CommittedHolds(next.pair.Block(next.active), next.log);
      LinkIsAttribute(next.state, dir.state);
      // steal state
      gdelta := GetGstate(next.pair.Block(next.active), next.offset, next.etag, gdelta, next.log);
      WithoutConserves(chain, at + 1, gdisk, delta0);
      chain := Without(chain, at + 1);
      assert chain[at] == before[at] == dir.log;
      assert |ToAppend(dir.log, [LinkRaw(next.state)])| > 0;
      // steal tail
      ghost var over, tried, delta, bytes;
      r, pairs, over, mid, tried, news, last, delta, bytes :=
        RelocatingCommit(dir, [LinkRaw(next.state)], spares, left, at);
      if r.NoSpace? {
        chain := before;
        if news == [] {
          StolenSettles(StoredIn(before), gdisk, delta0, Stored(log));
        }
      }
    }
  }

  /** The list without one of its pairs. */
  ghost function Without(chain: seq<seq<Raw>>, at: nat): (rest: seq<seq<Raw>>)
    requires at < |chain|
    ensures |rest| == |chain| - 1 && forall i :: 0 <= i < at ==> rest[i] == chain[i]
  {
    chain[..at] + chain[at + 1..]
  }

  lemma WithoutConserves(chain: seq<seq<Raw>>, at: nat, gdisk: Gstate, gdelta: Gstate)
    requires at < |chain| && Conserved(StoredIn(chain), gdisk, gdelta)
    ensures Conserved(StoredIn(Without(chain, at)), gdisk, GlobalState.Xor(gdelta, Stored(chain[at])))
  {
    hide Stored, GlobalState.Xor, Conserved;
    StoredSplits(chain, at);
    StoredConcat(chain[..at], chain[at + 1..]);
    DropConserves(StoredIn(chain[..at]), Stored(chain[at]), StoredIn(chain[at + 1..]), gdisk, gdelta);
  }

  /** A delta that was taken over although its pair still stores it upsets the sum, unless it is zero. */
  lemma StolenSettles(stored: seq<Gstate>, gdisk: Gstate, gdelta: Gstate, stolen: Gstate)
    requires Conserved(stored, gdisk, gdelta)
    ensures Conserved(stored, gdisk, GlobalState.Xor(gdelta, stolen)) <==> GlobalState.Drop(stolen) == ZERO
  {
    hide GlobalState.Xor, GlobalState.Drop, XorAll;
    var a, b := GlobalState.Drop(GlobalState.Xor(gdisk, gdelta)), GlobalState.Drop(stolen);
    XorAssociates(gdisk, gdelta, stolen);
    DropXor(GlobalState.Xor(gdisk, gdelta), stolen);
    XorAssociates(a, a, b);
    XorSelf(a);
    XorSelf(b);
  }

  /** The attribute that makes a directory lead on to where another one leads. */
  function LinkRaw(s: DirState): Raw {
    Raw(Pack(Tag(if s.split then TYPE_TAIL + 1 else TYPE_TAIL, NO_ID, PAIR_SIZE)), s.tail)
  }

  lemma LinkTag(s: DirState)
    requires |s.tail| == PAIR_SIZE
    ensures var w := LinkRaw(s).tag;
            && IsValid(w) && WordDsize(w) == 4 + PAIR_SIZE && !IsCrc(w) && !IsNameWord(w) && !IsSpliceWord(w)
            && IsTailWord(w) && (ChunkIsOdd(w) <==> s.split) && TYPE_TAIL <= Type3(w) < TYPE_GLOBALS
               && TypeOf(w) == Type3(w)
  {
    hide IsCrc, IsNameWord, IsSpliceWord, IsTailWord, ChunkIsOdd, Type3, Pack, Unpack;
    var kind := if s.split then TYPE_TAIL + 1 else TYPE_TAIL;
    GlobalTag(kind, PAIR_SIZE);
    UnpackValid(LinkRaw(s).tag);
    TopOf(LinkRaw(s).tag);
    DsizeAgrees(LinkRaw(s).tag);
  }

  lemma LinkIsAttribute(s: DirState, state: DirState)
    requires TailIsPlain(s) && 0 <= state.count < 0xffff
    ensures TailIsPlain(state.(tail := s.tail, split := s.split))
    ensures AreAttributes([LinkRaw(s)]) && Counts(state, [LinkRaw(s)])
    ensures Selected([LinkRaw(s)]) == [LinkRaw(s)] && Stateless([LinkRaw(s)])
    ensures TallyAll(state, [LinkRaw(s)]) == state.(tail := s.tail, split := s.split)
  {
    hide IsNullPair, IsCrc, IsNameWord, IsSpliceWord, IsTailWord, ChunkIsOdd, Type3, Pack, TypeOf, WordDsize;
    LinkTag(s);
    var a := LinkRaw(s);
    assert [a][..0] == [] && [] + [a] == [a];
    assert IsAttribute(a) && a.data[..PAIR_SIZE] == s.tail;
    assert TallyAll(state, []) == state && Selected([]) == [] && Counts(state, []);
  }

  lemma MidIsCurrent(mid: Pair, active: nat, log: seq<Raw>)
    requires Persists(mid, active, log)
    ensures HEADER <= |mid.Block(active)|
    ensures NoTornCommit(mid.Block(active), log, log) ==> Current(mid, active, log)
  {
    hide Persists, Current, NoTornCommit;
    PersistsParts(mid, active, log);
    if NoTornCommit(mid.Block(active), log, log) {
      PersistsIsCurrent(mid, active, log);
    }
  }

  lemma ChangeIs(gstate: Gstate, gdisk: Gstate, gdelta: Gstate)
    ensures Change(gstate, gdisk, gdelta) == Drop(GlobalState.Xor(GlobalState.Xor(gstate, gdisk), gdelta))
  {
  }

  lemma SomethingToAppend(attrs: seq<Raw>, delta: Option<seq<byte>>, offset: nat, blockSize: nat)
    requires delta.Some? ==> |delta.value| == GSTATE_SIZE
    requires offset + 8 <= blockSize || Selected(attrs) != []
    ensures offset + 8 <= blockSize || Selected(attrs) + DeltaRaws(delta) != []
  {
    hide Selected, DeltaRaws;
  }

  lemma NoneIfUnchanged(change: Gstate, stored: Gstate)
    ensures AppendDelta(change, stored).None? <==> change == ZERO
  {
  }

  lemma NothingToAppend(attrs: seq<Raw>, delta: Option<seq<byte>>)
    requires delta.Some? ==> |delta.value| == GSTATE_SIZE
    requires Selected(attrs) + DeltaRaws(delta) == []
    ensures delta.None?
  {
    hide Selected;
    assert |Selected(attrs)| + |DeltaRaws(delta)| == 0;
  }

  /** If there is no change to store, what the pairs store is the state in memory already. */
  lemma UnchangedSettles(stored: seq<Gstate>, log: seq<Raw>, gstate: Gstate, gdisk: Gstate, gdelta: Gstate)
    requires Conserved(stored, gdisk, gdelta)
    requires AppendDelta(Change(gstate, gdisk, gdelta), Stored(log)).None?
    ensures Conserved(stored, gstate, ZERO)
  {
    hide GlobalState.Xor, Drop, XorAll, Change, Stored, GlobalState.Encode;
    ChangeSettles(XorAll(stored), gstate, gdisk, gdelta);
    XorSelf(XorAll(stored));
    XorSelf(gstate);
    XorCommutes(ZERO, XorAll(stored));
  }

  lemma AppendedExtends(pair: Pair, active: nat, log: seq<Raw>, attrs: seq<Raw>, delta: Option<seq<byte>>, pair': Pair,
                        log': seq<Raw>, bytes: seq<byte>)
    requires delta.Some? ==> |delta.value| == GSTATE_SIZE
    requires Appended(pair, active, log, attrs, delta, pair', log', bytes)
    ensures ExtendsBy(log, Selected(attrs), delta, log')
  {
    hide CrashSafe, Selected, DeltaRaws, IsCrc, Overlay;
  }

  lemma GivenUpSize(pair: Pair, active: nat, at: nat, bytes: seq<byte>, log: seq<Raw>, pair': Pair)
    requires active <= 1 && |pair.b0| == |pair.b1| && GivenUp(pair, active, pair.Block(active), at, bytes, log, pair')
    ensures |pair'.b0| == |pair.b0|
  {
    hide Blank, NoTornCommit;
  }

  lemma SplitsDelta(pair: Pair, active: nat, log: seq<Raw>, attrs: seq<Raw>, state0: DirState, left: seq<byte>,
                    spares: seq<Fresh>, change0: Gstate, news: seq<NewPair>, last: nat, delta: Option<seq<byte>>)
    requires WasSplit(pair, active, log, attrs, state0, left, spares, change0, news, last, delta)
    ensures delta.Some? ==> |delta.value| == GSTATE_SIZE
  {
    hide SplitsFar, SplitsSome, TailIsPlain, AreFileEntries;
  }

  /** If the state in memory is taken to be on disk although the pairs were not rewritten, it may not be. */
  lemma SettledMeans(stored: seq<Gstate>, gstate: Gstate, gdisk: Gstate, gdelta: Gstate)
    requires Conserved(stored, gdisk, gdelta)
    ensures Conserved(stored, gstate, ZERO) <==> Drop(gstate) == Drop(GlobalState.Xor(gdisk, gdelta))
  {
    hide GlobalState.Xor, Drop, XorAll;
    XorSelf(gstate);
  }

  /**
   What was split off, whatever comes of it: complete pairs for the last files, and what remains for the directory
   itself.
   */
  ghost predicate Splits(pair: Pair, active: nat, log: seq<Raw>, attrs: seq<Raw>, state0: DirState, left: seq<byte>,
                         room: nat, news: seq<NewPair>, last: nat, delta: Option<seq<byte>>)
  {
    && (delta.Some? ==> |delta.value| == GSTATE_SIZE)
    && 0 <= state0.count && last <= state0.count && |news| <= room && active <= 1
    && Tiles(news, last, state0.count) && AreNew(AllItems(log, attrs), news) && Linked(news, state0)
    && TailIsPlain(Leading(news, state0))
    && AreFileEntries(CompactedEntries(log, attrs, 0, last))
  }

  /** What was split off, and that it was neither more nor less than there was need and room for. */
  ghost predicate WasSplit(pair: Pair, active: nat, log: seq<Raw>, attrs: seq<Raw>, state0: DirState, left: seq<byte>,
                           spares: seq<Fresh>, change0: Gstate, news: seq<NewPair>, last: nat,
                           delta: Option<seq<byte>>)
  {
    var items := AllItems(log, attrs);
    && Splits(pair, active, log, attrs, state0, left, |spares|, news, last, delta)
    && SplitsFar(|left|, items, spares, news, last, state0, change0)
    && (news != [] <==> SplitsSome(|left|, items, state0.count, state0, change0, spares))
  }

  lemma WasSplitOff(pair: Pair, active: nat, log: seq<Raw>, attrs: seq<Raw>, state0: DirState, left: seq<byte>,
                    spares: seq<Fresh>, change0: Gstate, pairs: seq<Pair>, news: seq<NewPair>, last: nat,
                    delta: Option<seq<byte>>)
    requires Splits(pair, active, log, attrs, state0, left, |spares|, news, last, delta)
    requires SplitsFar(|left|, AllItems(log, attrs), spares, news, last, state0, change0)
    requires pairs != [] <==> SplitsSome(|left|, AllItems(log, attrs), state0.count, state0, change0, spares)
    requires pairs == PairsOf(news)
    ensures WasSplit(pair, active, log, attrs, state0, left, spares, change0, news, last, delta)
    ensures pairs == [] <==> news == []
  {
    hide Splits, SplitsFar, SplitsSome, AllItems;
  }

  /** Whether the files that were not split off, and what is left of the change, fit the block. */
  ghost predicate RestFits(log: seq<Raw>, attrs: seq<Raw>, state0: DirState, change0: Gstate, news: seq<NewPair>,
                           last: nat, blockSize: nat)
  {
    var entries, state := CompactedEntries(log, attrs, 0, last), Leading(news, state0);
    && AreFileEntries(entries) && TailIsPlain(state)
    && CompactFits(entries, state, CompactDelta(if news == [] then change0 else ZERO, Stored(log)), blockSize)
  }

  lemma RestIs(log: seq<Raw>, attrs: seq<Raw>, state0: DirState, change0: Gstate, news: seq<NewPair>, last: nat,
               blockSize: nat, state: DirState, change: Gstate)
    requires AreFileEntries(CompactedEntries(log, attrs, 0, last)) && TailIsPlain(state)
    requires state == Leading(news, state0) && change == if news == [] then change0 else ZERO
    ensures CompactFits(CompactedEntries(log, attrs, 0, last), state, CompactDelta(change, Stored(log)), blockSize)
       <==> RestFits(log, attrs, state0, change0, news, last, blockSize)
  {
    hide AreFileEntries, TailIsPlain, Leading, CompactedEntries, CompactFits, CompactDelta, Stored;
  }

  /** The files that were not split off were compacted into the directory, which leads to the new pairs. */
  ghost predicate Rewrote(pair: Pair, active: nat, log: seq<Raw>, attrs: seq<Raw>, state0: DirState, left: seq<byte>,
                          room: nat, news: seq<NewPair>, last: nat, delta: Option<seq<byte>>, pair': Pair,
                          log': seq<Raw>, bytes: seq<byte>)
  {
    && Splits(pair, active, log, attrs, state0, left, room, news, last, delta)
    && Compacted(pair, active, CompactedEntries(log, attrs, 0, last), Leading(news, state0), delta, left, pair', log',
                 bytes)
  }

  lemma WasRewritten(pair: Pair, active: nat, log: seq<Raw>, attrs: seq<Raw>, state0: DirState, left: seq<byte>,
                     room: nat, news: seq<NewPair>, last: nat, delta: Option<seq<byte>>, pair': Pair, log': seq<Raw>,
                     bytes: seq<byte>)
    requires Splits(pair, active, log, attrs, state0, left, room, news, last, delta)
    requires Compacted(pair, active, CompactedEntries(log, attrs, 0, last), Leading(news, state0), delta, left, pair',
                       log', bytes)
    ensures Rewrote(pair, active, log, attrs, state0, left, room, news, last, delta, pair', log', bytes)
  {
    hide Compacted, AreFileEntries, TailIsPlain, Leading, CompactedEntries;
  }

  /** What a compaction that ran out of room left in the other block does not pass for a commit. */
  ghost predicate OtherIsHarmless(pair: Pair, active: nat) {
    active <= 1 && HEADER <= |pair.Block(1 - active)| && NoTornCommit(pair.Block(1 - active), [], [])
  }

  lemma HarmlessIs(pair: Pair, active: nat)
    ensures OtherIsHarmless(pair, active) ==>
              active <= 1 && HEADER <= |pair.Block(1 - active)| && NoTornCommit(pair.Block(1 - active), [], [])
  {
  }

  lemma SplitsAre(pair: Pair, active: nat, log: seq<Raw>, attrs: seq<Raw>, state0: DirState, left: seq<byte>, room: nat,
                  items: seq<Item>, news: seq<NewPair>, last: nat, change0: Gstate, state: DirState, change: Gstate,
                  stored: Gstate, delta: Option<seq<byte>>)
    requires 0 <= state0.count && items == AllItems(log, attrs) && |news| <= room && active <= 1
    requires SplitOff(items, news, last, state0.count, state0, change0, state, change)
    requires stored == Stored(log) && delta == CompactDelta(change, stored)
    requires AreFileEntries(Compaction.Compact(items, 0, last))
    ensures Splits(pair, active, log, attrs, state0, left, room, news, last, delta)
    ensures state == Leading(news, state0) && (news == [] ==> change == change0)
    ensures AreFileEntries(CompactedEntries(log, attrs, 0, last)) && TailIsPlain(state)
    ensures CompactFits(CompactedEntries(log, attrs, 0, last), state, delta, |left|)
       <==> RestFits(log, attrs, state0, change0, news, last, |left|)
  {
    hide AreNew, Linked, AreFileEntries, TailIsPlain, Leading, AllItems, CompactDelta, RestFits, CompactFits, Stored;
    DeltaSize(change, stored);
    RestIs(log, attrs, state0, change0, news, last, |left|, state, change);
  }

  lemma DeltaSize(change: Gstate, stored: Gstate)
    ensures CompactDelta(change, stored).Some? ==> |CompactDelta(change, stored).value| == GSTATE_SIZE
  {
  }

  lemma AllAreFileEntries(pair: Pair, active: nat, log: seq<Raw>, attrs: seq<Raw>, count: nat)
    requires Persists(pair, active, log) && AreAttributes(attrs) && count <= NO_ID
    ensures forall i, j :: 0 <= i <= j <= count ==> AreFileEntries(Compaction.Compact(AllItems(log, attrs), i, j))
  {
    hide Persists, AreAttributes, Compaction.Compact, AreFileEntries, Committed;
    PersistsParts(pair, active, log);
    CommittedHolds(pair.Block(active), log);
    forall i: nat, j: nat | i <= j <= count
      ensures AreFileEntries(Compaction.Compact(AllItems(log, attrs), i, j))
    {
      EntriesAre(pair.Block(active), log, attrs, i, j, Compaction.Compact(AllItems(log, attrs), i, j));
    }
  }

  /**
   Reads what the directory holds: its entries, to which the attributes are added, and the delta of the global state.
   */
  method ReadAll(pair: Pair, active: nat, offset: nat, etag: word, attrs: seq<Raw>, gstate: Gstate, gdisk: Gstate,
                 gdelta: Gstate, ghost log: seq<Raw>)
    returns (stored: Gstate, change: Gstate, items: seq<Item>)
    requires Persists(pair, active, log) && offset == End(log) && etag == LastLink(log)
    requires CanCompact(log, attrs)
    ensures stored == Stored(log) && change == Change(gstate, gdisk, gdelta)
    ensures items == AllItems(log, attrs) && CanTraverse(items)
  {
    hide Persists, Stored, GlobalState.Xor, CanTraverse, Committed, LastLink, End;
    PersistsParts(pair, active, log);
    CommittedHolds(pair.Block(active), log);
    var entries := LogReader.ReadLog(pair.Block(active), offset, log);
    var pending := Pending(attrs);
    items := entries + pending;
    stored := GetGstate(pair.Block(active), offset, etag, ZERO, log);
    XorSelf(Stored(log));
    change := Drop(GlobalState.Xor(GlobalState.Xor(gstate, gdisk), gdelta));
  }

  lemma CompactionStores(pair: Pair, active: nat, entries: seq<Entry>, state: DirState, change: Gstate, stored: Gstate,
                         left: seq<byte>, pair': Pair, log': seq<Raw>, bytes: seq<byte>)
    requires active <= 1 && AreFileEntries(entries) && TailIsPlain(state)
    requires Compacted(pair, active, entries, state, CompactDelta(change, stored), left, pair', log', bytes)
    ensures Stored(log') == GlobalState.Xor(change, stored)
  {
    hide CrashSafe, IsCompacted, CompactDelta, AreFileEntries, TailIsPlain, Stored, GlobalState.Xor, Overlay;
    CompactedStores(entries, state, change, stored, log');
  }
}
