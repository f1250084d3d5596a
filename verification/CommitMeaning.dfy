/**
 What a commit means: however it was made, looking up a file afterwards finds what the directory before it says
 once the attributes are taken into account.
 */
module CommitMeaning {
  import opened Options
  import opened Words
  import opened Tags
  import opened TagLog
  import opened RawLog
  import opened Fetch
  import opened Pairs
  import opened Compaction
  import opened Traverse
  import opened Attributes
  import opened CompactedLog
  import opened Directory
  import opened DirCommit

  // ---------- appending ----------

  lemma {:induction false} TakeAllSplit(d: Dir, items: seq<Item>, x: Item)
    requires CanTakeAll(d, items + [x])
    ensures CanTakeAll(d, items) && CanTake(TakeAll(d, items), x)
            && TakeAll(d, items + [x]) == Take(TakeAll(d, items), x)
    decreases |items|
  {
    if items == [] {
      assert [] + [x] == [x] && [x][1..] == [];
    } else {
      assert (items + [x])[0] == items[0] && (items + [x])[1..] == items[1..] + [x];
      TakeAllSplit(Take(d, items[0]), items[1..], x);
    }
  }

  lemma TakeOneAttribute(log: seq<Raw>, a: Raw, d: Dir)
    requires IsAttribute(a) && WellFormed(ViewLog(log)) && Replay(ViewLog(log)) == d && CanTake(d, PendingOne(a))
    ensures if Type3(a.tag) == FROM_NOOP then Take(d, PendingOne(a)) == d
            else WellFormed(ViewLog(log + [a])) && Replay(ViewLog(log + [a])) == Take(d, PendingOne(a))
  {
    TopOf(a.tag);
    if Type3(a.tag) != FROM_NOOP {
      assert PendingOne(a).Entry() == View(a);
      assert ViewLog(log + [a]) == ViewLog(log) + [View(a)];
      ReplayAppend(ViewLog(log), View(a), d);
    }
  }

  /** Replaying the attributes that are written is taking the attributes that are pending. */
  lemma {:induction false} SelectedAreTaken(log: seq<Raw>, attrs: seq<Raw>)
    requires AreAttributes(attrs) && WellFormed(ViewLog(log)) && CanTakeAll(Replay(ViewLog(log)), PendingAll(attrs))
    ensures WellFormed(ViewLog(log + Selected(attrs)))
    ensures Replay(ViewLog(log + Selected(attrs))) == TakeAll(Replay(ViewLog(log)), PendingAll(attrs))
    decreases |attrs|
  {
    hide Take, CanTake, WellFormed, Replay, IsAttribute, Type3, PendingOne;
    var d := Replay(ViewLog(log));
    if attrs == [] {
      assert log + Selected(attrs) == log;
      assert PendingAll(attrs) == [];
    } else {
      var front, a := attrs[..|attrs| - 1], attrs[|attrs| - 1];
      assert IsAttribute(a);
      assert PendingAll(attrs) == PendingAll(front) + [PendingOne(a)];
      TakeAllSplit(d, PendingAll(front), PendingOne(a));
      SelectedAreTaken(log, front);
      TakeOneAttribute(log + Selected(front), a, TakeAll(d, PendingAll(front)));
      if Type3(a.tag) == FROM_NOOP {
        assert Selected(attrs) == Selected(front);
      } else {
        assert log + Selected(attrs) == log + Selected(front) + [a];
      }
    }
  }

  lemma RestOfAppend(delta: Option<seq<byte>>, seal: Raw)
    requires delta.Some? ==> |delta.value| == GSTATE_SIZE
    requires IsCrc(seal.tag)
    ensures var rest := DeltaRaws(delta) + [seal];
            forall i :: 0 <= i < |rest| ==> TYPE_CRC <= ViewLog(rest)[i].tag.kind
  {
    GlobalTag(TYPE_MOVESTATE, GSTATE_SIZE);
    CrcWord(seal.tag);
    CrcKind(seal.tag);
  }

  /** After an append, looking up a file finds what the old log followed by the attributes says. */
  lemma AppendedAnswersAlike(log: seq<Raw>, attrs: seq<Raw>, delta: Option<seq<byte>>, log': seq<Raw>, group: Group,
                             kind: nat, id: nat)
    requires delta.Some? ==> |delta.value| == GSTATE_SIZE
    requires AreAttributes(attrs) && GlobalState.ExtendsBy(log, Selected(attrs), delta, log')
    requires WellFormed(ViewLog(log)) && CanTakeAll(Replay(ViewLog(log)), PendingAll(attrs)) && IsFileKind(kind)
    requires id < |TakeAll(Replay(ViewLog(log)), PendingAll(attrs)).slots|
    ensures LookBack(ViewLog(log'), group, kind, id)
         == TagLog.Lookup(TakeAll(Replay(ViewLog(log)), PendingAll(attrs)), group, kind, id)
  {
    hide LookBack, TakeAll, CanTakeAll, TagLog.Lookup, Selected, DeltaRaws, WellFormed, Replay, AreAttributes, IsCrc,
         PendingAll;
    var seal := log'[|log'| - 1];
    var rest := DeltaRaws(delta) + [seal];
    assert log' == (log + Selected(attrs)) + rest;
    ViewConcat(log + Selected(attrs), rest);
    RestOfAppend(delta, seal);
    GlobalsArePassed(ViewLog(log + Selected(attrs)), ViewLog(rest), group, kind, id);
    SelectedAreTaken(log, attrs);
    LookBackIsReplay(ViewLog(log + Selected(attrs)), group, kind, id);
  }

  // ---------- compacting and splitting ----------

  /** The new pair that took a file. */
  lemma {:induction false} TakenBy(news: seq<NewPair>, first: nat, count: nat, id: nat, k: nat) returns (i: nat)
    requires Tiles(news, first, count) && first <= id < count && k < |news| && id < news[k].end
    ensures i < |news| && news[i].begin <= id < news[i].end
    decreases k
  {
    if news[k].begin <= id {
      i := k;
    } else {
      i := TakenBy(news, first, count, id, k - 1);
    }
  }

  /** A new pair answers for the files it took. */
  lemma NewAnswersAlike(items: seq<Item>, n: NewPair, group: Group, kind: nat, id: nat)
    requires IsNew(items, n) && CanTakeAll(EMPTY_DIR, items) && IsFileKind(kind) && Finer(group, MaskOf(kind))
    requires n.begin <= id < n.end && id < |TakeAll(EMPTY_DIR, items).slots|
    ensures LookBack(ViewLog(n.log), group, kind, id - n.begin)
            == At(TagLog.Lookup(TakeAll(EMPTY_DIR, items), group, kind, id), id - n.begin)
       <==> Shows(TakeAll(EMPTY_DIR, items).slots[id], group, kind)
  {
    hide LookBack, TakeAll, CanTakeAll, AreFileEntries, TailIsPlain, CompactedRaws, Compaction.Compact, TagLog.Lookup,
         Shows, Current;
    CompactedLooksUp(Compaction.Compact(items, n.begin, n.end), n.state, n.delta, n.log, group, kind, id - n.begin);
    CompactionPreservesMeaning(items, group, kind, id, n.begin, n.end);
  }

  /**
   After a compaction with splits every file is answered for by one pair: the directory itself for the first ones, and
   the new pair that took it for the others. It answers as the old log followed by the attributes does.
   */
  lemma SplitAnswersAlike(pair: Pair, active: nat, log: seq<Raw>, attrs: seq<Raw>, state0: DirState, left: seq<byte>,
                          room: nat, news: seq<NewPair>, last: nat, delta: Option<seq<byte>>, log': seq<Raw>,
                          group: Group, kind: nat, id: nat)
    returns (answer: seq<Raw>, begin: nat)
    requires Splits(pair, active, log, attrs, state0, left, room, news, last, delta)
    requires IsCompacted(CompactedEntries(log, attrs, 0, last), Leading(news, state0), delta, log')
    requires CanTakeAll(EMPTY_DIR, AllItems(log, attrs)) && IsFileKind(kind) && Finer(group, MaskOf(kind))
    requires id < state0.count && id < |TakeAll(EMPTY_DIR, AllItems(log, attrs)).slots|
    ensures if id < last then answer == log' && begin == 0
            else exists k :: 0 <= k < |news| && answer == news[k].log && begin == news[k].begin <= id < news[k].end
    ensures begin <= id
    ensures LookBack(ViewLog(answer), group, kind, id - begin)
            == At(TagLog.Lookup(TakeAll(EMPTY_DIR, AllItems(log, attrs)), group, kind, id), id - begin)
       <==> Shows(TakeAll(EMPTY_DIR, AllItems(log, attrs)).slots[id], group, kind)
  {
    hide LookBack, TakeAll, CanTakeAll, Compaction.CanTake, AreFileEntries, TailIsPlain, CompactedRaws,
         Compaction.Compact, TagLog.Lookup, Shows, IsNew, AllItems, Linked, Leading, IsCrc, Traverse.CanTraverse;
    if id < last {
      answer, begin := log', 0;
      CompactedDirAnswersAlike(log, attrs, 0, last, Leading(news, state0), delta, log', group, kind, id);
    } else {
      var k := TakenBy(news, last, state0.count, id, |news| - 1);
      answer, begin := news[k].log, news[k].begin;
      assert IsNew(AllItems(log, attrs), news[k]);
      NewAnswersAlike(AllItems(log, attrs), news[k], group, kind, id);
    }
  }
}
