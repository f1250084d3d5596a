/**
 Pending attributes: what they do to the state of a directory in memory, and how they are written.
 */
module Attributes {
  import opened Options
  import opened Words
  import opened Tags
  import opened TagLog
  import opened RawLog
  import opened Fetch
  import opened Commit
  import opened Pairs
  import opened Compaction
  import opened Traverse
  import Crc

  const GSTATE_SIZE: nat := 24

  // ---------- attributes ----------

  /** A pending attribute with its data: anything but a checksum. */
  predicate IsAttribute(a: Raw) {
    && IsRaw(a)
    && !IsCrc(a.tag) && (IsTailWord(a.tag) ==> |a.data| >= PAIR_SIZE)
  }

  predicate AreAttributes(attrs: seq<Raw>) {
    forall i :: 0 <= i < |attrs| ==> IsAttribute(attrs[i])
  }

  /** The attributes that are written: those that were not switched off. */
  function Selected(attrs: seq<Raw>): seq<Raw>
    decreases |attrs|
  {
    if attrs == [] then []
    else Selected(attrs[..|attrs| - 1]) + if Type3(attrs[|attrs| - 1].tag) == FROM_NOOP then []
    else [attrs[|attrs| - 1]]
  }

  function SizeOfRaws(raws: seq<Raw>): nat
    decreases |raws|
  {
    if raws == [] then 0 else SizeOfRaws(raws[..|raws| - 1]) + 4 + |raws[|raws| - 1].data|
  }

  /** What an attribute does to the state in memory. */
  function TallyOne(s: DirState, a: Raw): DirState
    requires IsTailWord(a.tag) ==> |a.data| >= PAIR_SIZE
  {
    if Type3(a.tag) == TYPE_CREATE then s.(count := s.count + 1)
    else if Type3(a.tag) == TYPE_DELETE then s.(count := s.count - 1)
    else if IsTailWord(a.tag) then s.(tail := a.data[..PAIR_SIZE], split := ChunkIsOdd(a.tag))
    else s
  }

  function TallyAll(s: DirState, attrs: seq<Raw>): DirState
    requires AreAttributes(attrs)
    decreases |attrs|
  {
    if attrs == [] then s
    else
      assert IsAttribute(attrs[|attrs| - 1]);
      TallyOne(TallyAll(s, attrs[..|attrs| - 1]), attrs[|attrs| - 1])
  }

  /** Calculates the changes to the directory. */
  method Tally(state: DirState, attrs: seq<Raw>) returns (state': DirState)
    requires AreAttributes(attrs)
    ensures state' == TallyAll(state, attrs)
  {
    state' := state;
    for i := 0 to |attrs|
      invariant state' == TallyAll(state, attrs[..i])
    {
      var a := attrs[i];
      assert IsAttribute(a);
      if Type3(a.tag) == TYPE_CREATE {
        state' := state'.(count := state'.count + 1);
      } else if Type3(a.tag) == TYPE_DELETE {
        state' := state'.(count := state'.count - 1);
      } else if IsTailWord(a.tag) {
        state' := state'.(tail := a.data[..PAIR_SIZE], split := ChunkIsOdd(a.tag));
      }
      assert attrs[..i + 1][..i] == attrs[..i];
    }
    assert attrs[..|attrs|] == attrs;
  }

  /** The count in memory follows creates and deletes only: a name must belong to a file that is there already. */
  predicate CountsOne(s: DirState, a: Raw) {
    && 0 <= s.count < 0xffff
    && (IsSpliceWord(a.tag) ==> Type3(a.tag) == TYPE_CREATE || (Type3(a.tag) == TYPE_DELETE && s.count > 0))
    && (IsNameWord(a.tag) && Type3(a.tag) != FROM_NOOP ==> IdOf(a.tag) < s.count)
  }

  predicate Counts(s: DirState, attrs: seq<Raw>)
    requires AreAttributes(attrs)
    decreases |attrs|
  {
    attrs == [] || (Counts(s, attrs[..|attrs| - 1]) && CountsOne(TallyAll(s, attrs[..|attrs| - 1]), attrs[|attrs| - 1]))
  }

  /** One attribute changes the state in memory as it changes the state that a fetch will find. */
  lemma TallyIsState(s: DirState, a: Raw)
    requires IsAttribute(a) && CountsOne(s, a)
    ensures TallyOne(s, a) == if Type3(a.tag) == FROM_NOOP then s else StateWith(s, a)
  {
    TopOf(a.tag);
  }

  lemma TopOf(w: word)
    requires IsValid(w)
    ensures w / 0x1000_0000 == Type3(w) / 0x100 && Type3(w) == TypeOf(w)
  {
  }

  lemma RobustAppend(log: seq<Raw>, a: Raw)
    requires Robust(log) && IsAttribute(a)
    ensures Robust(log + [a])
  {
  }

  lemma {:induction false} TallyIsFetched(log: seq<Raw>, attrs: seq<Raw>)
    requires Robust(log) && AreAttributes(attrs) && Counts(StateOfLog(log), attrs)
    ensures Robust(log + Selected(attrs))
    ensures StateOfLog(log + Selected(attrs)) == TallyAll(StateOfLog(log), attrs)
    decreases |attrs|
  {
    hide StateWith, TallyOne, CountsOne, Robust, IsAttribute, Type3;
    if attrs == [] {
      assert log + Selected(attrs) == log;
    } else {
      var front, a := attrs[..|attrs| - 1], attrs[|attrs| - 1];
      assert IsAttribute(a);
      TallyIsFetched(log, front);
      TallyIsState(TallyAll(StateOfLog(log), front), a);
      if Type3(a.tag) == FROM_NOOP {
        assert log + Selected(attrs) == log + Selected(front);
      } else {
        RobustAppend(log + Selected(front), a);
        StateAppends(log + Selected(front), a);
        assert log + Selected(attrs) == log + Selected(front) + [a];
      }
    }
  }

  // ---------- writing ----------

  lemma SizeAppends(raws: seq<Raw>, r: Raw)
    ensures SizeOfRaws(raws + [r]) == SizeOfRaws(raws) + 4 + |r.data|
  {
    assert (raws + [r])[..|raws|] == raws;
  }

  lemma {:induction false} SizeGrows(raws: seq<Raw>, k: nat)
    requires k <= |raws|
    ensures SizeOfRaws(raws[..k]) <= SizeOfRaws(raws)
    decreases |raws|
  {
    if k < |raws| {
      SizeGrows(raws[..|raws| - 1], k);
      assert raws[..|raws| - 1][..k] == raws[..k];
    } else {
      assert raws[..k] == raws;
    }
  }

  lemma ClearAttribute(a: Raw)
    requires IsAttribute(a)
    ensures Clear(a.tag) == a.tag && 4 + |a.data| == WordDsize(a.tag) && Raw(Clear(a.tag), a.data) == a
  {
  }

  lemma AreAll(a: seq<Raw>, b: seq<Raw>)
    requires AreAttributes(a) && AreAttributes(b)
    ensures AreAttributes(a + b)
  {
  }

  /** Writes entries as long as they fit; whether there is room for none is not looked at. */
  method WriteAll(w: Writer, raws: seq<Raw>) returns (ok: bool)
    requires w.Valid() && AreAttributes(raws)
    modifies w`written, w`offset, w`crc, w`ptag, w`log
    ensures w.Valid() && old(w.written) <= w.written
    ensures ok <==> raws == [] || old(w.offset) + SizeOfRaws(raws) <= w.end
    ensures old(w.offset) <= w.end ==> (ok <==> old(w.offset) + SizeOfRaws(raws) <= w.end)
    ensures ok ==> w.log == old(w.log) + raws && w.offset == old(w.offset) + SizeOfRaws(raws)
    ensures old(w.log) <= w.log && w.log[|old(w.log)|..] <= raws
  {
    hide InStep, IsAttribute, Crc.Crc32, SizeOfRaws, Clear, WordDsize, IsCrc, IsTailWord;
    NothingSized();
    assert w.log == w.log + raws[..0];
    for i := 0 to |raws|
      invariant w.Valid() && (w.offset <= w.end || i == 0) && old(w.written) <= w.written
      invariant w.log == old(w.log) + raws[..i] && w.offset == old(w.offset) + SizeOfRaws(raws[..i])
    {
      ClearAttribute(raws[i]);
      AttributeParts(raws[i]);
      SizeGrows(raws, i + 1);
      assert raws[..i + 1] == raws[..i] + [raws[i]];
      SizeAppends(raws[..i], raws[i]);
      ok := w.Attribute(raws[i].tag, raws[i].data);
      if !ok {
        return;
      }
    }
    assert raws[..|raws|] == raws;
    return true;
  }

  lemma NothingSized()
    ensures SizeOfRaws([]) == 0
  {
  }

  lemma AttributeParts(a: Raw)
    requires IsAttribute(a)
    ensures !IsCrc(a.tag) && (IsTailWord(a.tag) ==> |a.data| >= PAIR_SIZE)
  {
  }

  /** The attributes that were not switched off. */
  method Select(attrs: seq<Raw>) returns (selected: seq<Raw>)
    requires AreAttributes(attrs)
    ensures selected == Selected(attrs) && AreAttributes(selected)
  {
    selected := [];
    for i := 0 to |attrs|
      invariant selected == Selected(attrs[..i]) && AreAttributes(selected)
    {
      if Type3(attrs[i].tag) != FROM_NOOP {
        selected := selected + [attrs[i]];
      }
      assert attrs[..i + 1][..i] == attrs[..i];
    }
    assert attrs[..|attrs|] == attrs;
  }

  /** The global state that is stored with a commit, if it is not zero. */
  function DeltaRaws(delta: Option<seq<byte>>): (raws: seq<Raw>)
    requires delta.Some? ==> |delta.value| == GSTATE_SIZE
  {
    if delta.None? then [] else [Raw(Pack(Tag(TYPE_MOVESTATE, NO_ID, GSTATE_SIZE)), delta.value)]
  }

  /** The pair that follows, if there is one. */
  function TailRaws(s: DirState): (raws: seq<Raw>)
    requires |s.tail| == PAIR_SIZE
  {
    if IsNullPair(s.tail) then []
    else [Raw(Pack(Tag(if s.split then TYPE_TAIL + 1 else TYPE_TAIL, NO_ID, PAIR_SIZE)), s.tail)]
  }

  /** lfs_pair_isnull: either address is all ones */
  predicate IsNullPair(pair: seq<byte>)
    requires |pair| == PAIR_SIZE
  {
    pair[..8] == NULL_PAIR[..8] || pair[8..] == NULL_PAIR[8..]
  }

  lemma GlobalTag(kind: nat, size: nat)
    requires TYPE_TAIL <= kind < 0x800 && size < NO_ID
    ensures var w := Pack(Tag(kind, NO_ID, size));
            && Unpack(w) == Tag(kind, NO_ID, size) && IsValid(w) && Type3(w) == kind
            && !IsCrc(w) && !IsNameWord(w) && !IsSpliceWord(w)
            && (IsTailWord(w) <==> kind < TYPE_GLOBALS)
            && (ChunkIsOdd(w) <==> kind % 2 == 1)
  {
    PackUnpacks(Tag(kind, NO_ID, size));
    Fields(Pack(Tag(kind, NO_ID, size)), kind, NO_ID, size);
    TopOf(Pack(Tag(kind, NO_ID, size)));
  }

  lemma DeltaIsAttribute(delta: Option<seq<byte>>)
    requires delta.Some? ==> |delta.value| == GSTATE_SIZE
    ensures AreAttributes(DeltaRaws(delta))
    ensures SizeOfRaws(DeltaRaws(delta)) <= 4 + GSTATE_SIZE
  {
    GlobalTag(TYPE_MOVESTATE, GSTATE_SIZE);
  }

  lemma TailIsAttribute(s: DirState)
    requires |s.tail| == PAIR_SIZE
    ensures AreAttributes(TailRaws(s))
    ensures SizeOfRaws(TailRaws(s)) <= 4 + PAIR_SIZE
  {
    GlobalTag(TYPE_TAIL, PAIR_SIZE);
    GlobalTag(TYPE_TAIL + 1, PAIR_SIZE);
  }

  /** The global state and the checksum change nothing that is kept in memory. */
  lemma ClosedState(log: seq<Raw>, written: seq<Raw>, deltas: seq<Raw>, log1: seq<Raw>, log': seq<Raw>,
                    delta: Option<seq<byte>>)
    requires delta.Some? ==> |delta.value| == GSTATE_SIZE
    requires deltas == DeltaRaws(delta) && Robust(log + written)
    requires log1 == log + (written + deltas)
    requires log1 <= log' && |log'| == |log1| + 1 && IsCrc(log'[|log1|].tag) && Robust(log')
    ensures StateOfLog(log') == StateOfLog(log + written)
  {
    var base := log + written;
    var r := log'[|log1|];
    GlobalTag(TYPE_MOVESTATE, GSTATE_SIZE);
    assert log1 == base + deltas;
    assert log' == log1 + [r];
    CrcIsNoOther(r.tag);
    RobustPrefix(log', |log1|);
    assert log'[..|log1|] == log1;
    StateAppends(log1, r);
    if delta.Some? {
      StateAppends(base, deltas[0]);
    } else {
      assert log1 == base;
    }
  }

  lemma RobustPrefix(log: seq<Raw>, k: nat)
    requires Robust(log) && k <= |log|
    ensures Robust(log[..k])
  {
  }

  // ---------- as a traversal sees them ----------

  function PendingOne(a: Raw): Item { Item(Unpack(a.tag), a.data, false) }

  function PendingAll(attrs: seq<Raw>): (items: seq<Item>)
    ensures |items| == |attrs|
    ensures forall i :: 0 <= i < |attrs| ==> items[i] == PendingOne(attrs[i])
  {
    seq(|attrs|, i requires 0 <= i < |attrs| => PendingOne(attrs[i]))
  }

  /** The attributes, as a traversal sees them. */
  method Pending(attrs: seq<Raw>) returns (items: seq<Item>)
    ensures items == PendingAll(attrs)
  {
    items := PendingAll(attrs);
  }

  function AllItems(log: seq<Raw>, attrs: seq<Raw>): seq<Item> {
    OnDisk(ViewLog(log)) + PendingAll(attrs)
  }

  /** The log and the pending attributes can be traversed together: there are ids enough. */
  predicate CanCompact(log: seq<Raw>, attrs: seq<Raw>) {
    CanTraverse(AllItems(log, attrs))
  }

  ghost function CompactedEntries(log: seq<Raw>, attrs: seq<Raw>, begin: nat, end: nat): seq<Entry> {
    Compaction.Compact(AllItems(log, attrs), begin, end)
  }
}
