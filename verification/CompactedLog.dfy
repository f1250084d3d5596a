/**
 The log that a compaction writes: the entries of files, the tail, the global state and a checksum. What the
 split loop counts is enough for it to fit, and what is looked up in it is what compaction promises.
 */
module CompactedLog {
  import opened Options
  import opened Words
  import opened Tags
  import opened TagLog
  import opened RawLog
  import opened Fetch
  import opened Commit
  import opened Pairs
  import opened Compaction
  import opened Traverse
  import opened Splitting
  import opened Attributes

  /** Entries that a compacted log is made of. */
  predicate AreFileEntries(entries: seq<Entry>) {
    forall i :: 0 <= i < |entries| ==> IsFileEntry(entries[i])
  }

  predicate IsFileEntry(e: Entry) {
    e.tag.Valid() && 4 + |e.data| == e.tag.Dsize() && e.tag.kind < TYPE_SPLICE
  }

  function RawsOf(entries: seq<Entry>): (raws: seq<Raw>)
    requires AreFileEntries(entries)
    ensures |raws| == |entries|
    ensures forall i :: 0 <= i < |entries| ==>
              IsFileEntry(entries[i]) && raws[i] == Raw(Pack(entries[i].tag), entries[i].data)
  {
    seq(|entries|,
        i requires 0 <= i < |entries| => assert IsFileEntry(entries[i]); Raw(Pack(entries[i].tag), entries[i].data))
  }

  lemma FileTag(e: Entry)
    requires IsFileEntry(e)
    ensures var w := Pack(e.tag);
            && IsAttribute(Raw(w, e.data)) && Unpack(w) == e.tag
            && !IsCrc(w) && !IsSpliceWord(w) && !IsTailWord(w)
            && (IsNameWord(w) <==> IsName(e.tag))
  {
    PackUnpacks(e.tag);
    Fields(Pack(e.tag), e.tag.kind, e.tag.id, e.tag.size);
    TopOf(Pack(e.tag));
  }

  lemma FileRaws(entries: seq<Entry>)
    requires AreFileEntries(entries)
    ensures AreAttributes(RawsOf(entries))
  {
    hide IsAttribute, IsFileEntry, Pack;
    forall i | 0 <= i < |entries|
      ensures IsAttribute(RawsOf(entries)[i])
    {
      assert IsFileEntry(entries[i]);
      FileTag(entries[i]);
    }
  }

  /** The number of files that a log without creates and deletes names. */
  function CountOf(entries: seq<Entry>): nat
    decreases |entries|
  {
    if entries == [] then 0
    else
      var n, e := CountOf(entries[..|entries| - 1]), entries[|entries| - 1];
      if IsName(e.tag) && n <= e.tag.id then e.tag.id + 1 else n
  }

  lemma {:induction false} StateOfEntries(entries: seq<Entry>)
    requires AreFileEntries(entries)
    ensures Robust(RawsOf(entries)) && StateOfLog(RawsOf(entries)) == NO_FILES.(count := CountOf(entries))
    decreases |entries|
  {
    hide IsAttribute, IsFileEntry, Pack, Robust, IsNameWord, IsSpliceWord, IsTailWord;
    if entries == [] {
      NoState();
      assert RawsOf(entries) == [];
    } else {
      var front, e := entries[..|entries| - 1], entries[|entries| - 1];
      assert IsFileEntry(e);
      FrontOfEntries(entries);
      StateOfEntries(front);
      FileTag(e);
      var r := Raw(Pack(e.tag), e.data);
      assert RawsOf(entries) == RawsOf(front) + [r];
      RobustAppend(RawsOf(front), r);
      StateAppends(RawsOf(front), r);
      NameState(StateOfLog(RawsOf(front)), e);
    }
  }

  lemma FrontOfEntries(entries: seq<Entry>)
    requires AreFileEntries(entries) && entries != []
    ensures AreFileEntries(entries[..|entries| - 1])
  {
    hide IsFileEntry;
  }

  lemma NoState()
    ensures Robust([]) && StateOfLog([]) == NO_FILES
  {
  }

  lemma NameState(s: DirState, e: Entry)
    requires IsFileEntry(e)
    ensures !IsTailWord(Pack(e.tag))
    ensures StateWith(s, Raw(Pack(e.tag), e.data)) == if IsName(e.tag) && s.count <= e.tag.id
              then s.(count := e.tag.id + 1) else s
  {
    FileTag(e);
  }

  /** Every file has a name: at least the last one must, for the number of files to be right. */
  lemma {:induction false} CountIsRight(entries: seq<Entry>, n: nat)
    requires forall i :: 0 <= i < |entries| ==> entries[i].tag.id < n
    ensures CountOf(entries) <= n
    ensures CountOf(entries) == n <==>
              n == 0 || exists i :: 0 <= i < |entries| && IsName(entries[i].tag) && entries[i].tag.id == n - 1
    decreases |entries|
  {
    if entries != [] {
      var front, e := entries[..|entries| - 1], entries[|entries| - 1];
      CountIsRight(front, n);
      assert forall i :: 0 <= i < |front| ==> front[i] == entries[i];
      if CountOf(front) == n && n > 0 {
        var i :| 0 <= i < |front| && IsName(front[i].tag) && front[i].tag.id == n - 1;
        assert IsName(entries[i].tag) && entries[i].tag.id == n - 1;
      }
    }
  }

  /** A tail that is not there is all ones. */
  predicate TailIsPlain(s: DirState) {
    |s.tail| == PAIR_SIZE && (IsNullPair(s.tail) ==> s.tail == NULL_PAIR && !s.split)
  }

  lemma TailSize(s: DirState)
    requires TailIsPlain(s)
    ensures |s.tail| == PAIR_SIZE
  {
  }

  /** The log that a compaction writes, up to its checksum. */
  ghost function CompactedRaws(entries: seq<Entry>, state: DirState, delta: Option<seq<byte>>): seq<Raw>
    requires AreFileEntries(entries) && TailIsPlain(state)
    requires delta.Some? ==> |delta.value| == GSTATE_SIZE
  {
    RawsOf(entries) + TailRaws(state) + DeltaRaws(delta)
  }

  /** The tail entry sets tail and split, and nothing else. */
  lemma TailEntry(s: DirState, x: DirState) returns (r: Raw)
    requires |s.tail| == PAIR_SIZE && !IsNullPair(s.tail)
    ensures TailRaws(s) == [r] && |r.data| >= PAIR_SIZE && IsAttribute(r)
    ensures StateWith(x, r) == x.(tail := s.tail, split := s.split)
  {
    hide IsNullPair, Pack;
    TailIsAttribute(s);
    r := TailRaws(s)[0];
    GlobalTag(TYPE_TAIL, PAIR_SIZE);
    GlobalTag(TYPE_TAIL + 1, PAIR_SIZE);
    assert r.data[..PAIR_SIZE] == s.tail;
  }

  lemma TailState(s: DirState, log: seq<Raw>)
    requires TailIsPlain(s) && Robust(log) && StateOfLog(log).tail == NULL_PAIR && !StateOfLog(log).split
    ensures Robust(log + TailRaws(s))
    ensures StateOfLog(log + TailRaws(s)) == s.(count := StateOfLog(log).count)
  {
    hide Robust, StateOfLog, StateWith, IsAttribute;
    if IsNullPair(s.tail) {
      assert log + TailRaws(s) == log;
    } else {
      var r := TailEntry(s, StateOfLog(log));
      RobustAppend(log, r);
      StateAppends(log, r);
    }
  }

  /** Items carry as much data as their tags say. */
  predicate AreSized(items: seq<Item>) {
    forall i :: 0 <= i < |items| ==> items[i].tag.Valid() && 4 + |items[i].data| == items[i].tag.Dsize()
  }

  lemma KeptIsFileEntry(x: Item, later: seq<Item>, begin: nat, end: nat)
    requires x.tag.Valid() && 4 + |x.data| == x.tag.Dsize() && begin <= end <= NO_ID
    ensures forall i :: 0 <= i < |Kept(x, later, begin, end)| ==>
              IsFileEntry(Kept(x, later, begin, end)[i]) && Kept(x, later, begin, end)[i].tag.id < end - begin
  {
    hide Filter;
  }

  /** What a traversal keeps are entries of files, with the ids they have among begin..end. */
  lemma {:induction false} CompactIsFileEntries(items: seq<Item>, begin: nat, end: nat)
    requires AreSized(items) && begin <= end <= NO_ID
    ensures AreFileEntries(Compaction.Compact(items, begin, end))
    ensures forall i :: 0 <= i < |Compaction.Compact(items, begin, end)| ==>
              Compaction.Compact(items, begin, end)[i].tag.id < end - begin
    decreases |items|
  {
    hide Filter, Kept, IsFileEntry;
    if items != [] {
      CompactIsFileEntries(items[1..], begin, end);
      KeptIsFileEntry(items[0], items[1..], begin, end);
    }
  }

  lemma AllSized(log: seq<Raw>, attrs: seq<Raw>)
    requires IsRawLog(log) && AreAttributes(attrs)
    ensures AreSized(AllItems(log, attrs))
  {
    hide SizeOf, TypeOf, IdOf, IsCrc, IsTailWord;
    var items := AllItems(log, attrs);
    forall i | 0 <= i < |items|
      ensures items[i].tag.Valid() && 4 + |items[i].data| == items[i].tag.Dsize()
    {
      if i < |log| {
        assert IsRaw(log[i]);
        DsizeAgrees(log[i].tag);
        UnpackValid(log[i].tag);
      } else {
        assert IsAttribute(attrs[i - |log|]);
        DsizeAgrees(attrs[i - |log|].tag);
        UnpackValid(attrs[i - |log|].tag);
      }
    }
  }

  /** Header, files, tail and global state leave room for the checksum. */
  ghost predicate CompactFits(entries: seq<Entry>, state: DirState, delta: Option<seq<byte>>, blockSize: nat)
    requires AreFileEntries(entries) && TailIsPlain(state)
    requires delta.Some? ==> |delta.value| == GSTATE_SIZE
  {
    HEADER + SizeOfRaws(CompactedRaws(entries, state, delta)) + PAIR_SIZE <= blockSize
  }

  lemma SizeOfConcat(a: seq<Raw>, b: seq<Raw>)
    ensures SizeOfRaws(a + b) == SizeOfRaws(a) + SizeOfRaws(b)
    decreases |b|
  {
    if b == [] {
      assert a + b == a;
    } else {
      SizeOfConcat(a, b[..|b| - 1]);
      assert (a + b)[..|a + b| - 1] == a + b[..|b| - 1];
    }
  }

  lemma CompactSize(entries: seq<Entry>, state: DirState, delta: Option<seq<byte>>)
    requires AreFileEntries(entries) && TailIsPlain(state)
    requires delta.Some? ==> |delta.value| == GSTATE_SIZE
    ensures SizeOfRaws(CompactedRaws(entries, state, delta))
         == SizeOfRaws(RawsOf(entries)) + SizeOfRaws(TailRaws(state)) + SizeOfRaws(DeltaRaws(delta))
  {
    hide RawsOf, TailRaws, DeltaRaws, SizeOfRaws;
    SizeOfConcat(RawsOf(entries), TailRaws(state));
    SizeOfConcat(RawsOf(entries) + TailRaws(state), DeltaRaws(delta));
  }

  // ---------- what compaction guarantees ----------

  lemma {:induction false} SizeOfEntries(entries: seq<Entry>)
    requires AreFileEntries(entries)
    ensures SizeOfRaws(RawsOf(entries)) == SizeOfAll(entries)
    decreases |entries|
  {
    hide IsFileEntry, Pack;
    if entries != [] {
      var front, e := entries[..|entries| - 1], entries[|entries| - 1];
      FrontOfEntries(entries);
      SizeOfEntries(front);
      EntrySize(entries, |entries| - 1);
      assert RawsOf(entries)[..|entries| - 1] == RawsOf(front);
    }
  }

  lemma EntrySize(entries: seq<Entry>, i: nat)
    requires AreFileEntries(entries) && i < |entries|
    ensures 4 + |entries[i].data| == entries[i].tag.Dsize()
  {
    assert IsFileEntry(entries[i]);
  }

  lemma TailAndDeltaSize(state: DirState, delta: Option<seq<byte>>)
    requires TailIsPlain(state) && (delta.Some? ==> |delta.value| == GSTATE_SIZE)
    ensures SizeOfRaws(TailRaws(state)) <= 20 && SizeOfRaws(DeltaRaws(delta)) <= 28
  {
    TailIsAttribute(state);
    DeltaIsAttribute(delta);
  }

  /**
   Files that fit as the split loop counts them can be compacted: header, tail, global state and checksum always find
   room.
   */
  lemma FitsIsEnough(blockSize: nat, log: seq<Raw>, attrs: seq<Raw>, begin: nat, end: nat, state: DirState,
                     delta: Option<seq<byte>>)
    requires RESERVED <= blockSize && TailIsPlain(state)
    requires delta.Some? ==> |delta.value| == GSTATE_SIZE
    requires AreFileEntries(CompactedEntries(log, attrs, begin, end))
    requires Fits(blockSize, AllItems(log, attrs), begin, end)
    ensures CompactFits(CompactedEntries(log, attrs, begin, end), state, delta, blockSize)
  {
    hide Compaction.Compact, RawsOf, SizeOfRaws, SizeOfAll, AllItems, TailRaws, DeltaRaws, AreFileEntries, TailIsPlain;
    var entries := CompactedEntries(log, attrs, begin, end);
    SizeOfEntries(entries);
    TailAndDeltaSize(state, delta);
    CompactSize(entries, state, delta);
  }

  lemma GlobalIsPassed(log: seq<Entry>, e: Entry, group: Group, kind: nat, id: nat)
    requires TYPE_CRC <= e.tag.kind && IsFileKind(kind)
    ensures LookBack(log + [e], group, kind, id) == LookBack(log, group, kind, id)
  {
    assert (log + [e])[..|log|] == log;
  }

  lemma {:induction false} GlobalsArePassed(log: seq<Entry>, globals: seq<Entry>, group: Group, kind: nat, id: nat)
    requires IsFileKind(kind) && forall i :: 0 <= i < |globals| ==> TYPE_CRC <= globals[i].tag.kind
    ensures LookBack(log + globals, group, kind, id) == LookBack(log, group, kind, id)
    decreases |globals|
  {
    hide LookBack;
    if globals == [] {
      assert log + globals == log;
    } else {
      var front, e := globals[..|globals| - 1], globals[|globals| - 1];
      GlobalsArePassed(log, front, group, kind, id);
      GlobalIsPassed(log + front, e, group, kind, id);
      assert log + globals == log + front + [e];
    }
  }

  lemma ViewOfRaws(entries: seq<Entry>)
    requires AreFileEntries(entries)
    ensures ViewLog(RawsOf(entries)) == entries
  {
    hide IsAttribute, Unpack, Pack;
    forall i | 0 <= i < |entries|
      ensures View(RawsOf(entries)[i]) == entries[i]
    {
      FileTag(entries[i]);
    }
  }

  lemma ViewConcat(a: seq<Raw>, b: seq<Raw>)
    ensures ViewLog(a + b) == ViewLog(a) + ViewLog(b)
  {
  }

  lemma CrcKind(w: word)
    requires IsRaw(Raw(w, [])) || IsValid(w)
    requires IsCrc(w)
    ensures TYPE_CRC <= Unpack(w).kind
  {
    TopOf(w);
  }

  /** The entries after those of the files belong to no file. */
  lemma RestIsGlobal(state: DirState, delta: Option<seq<byte>>, seal: Raw)
    requires TailIsPlain(state) && (delta.Some? ==> |delta.value| == GSTATE_SIZE)
    requires IsCrc(seal.tag)
    ensures var rest := TailRaws(state) + DeltaRaws(delta) + [seal];
            forall i :: 0 <= i < |rest| ==> TYPE_CRC <= ViewLog(rest)[i].tag.kind
  {
    GlobalTag(TYPE_TAIL, PAIR_SIZE);
    GlobalTag(TYPE_TAIL + 1, PAIR_SIZE);
    GlobalTag(TYPE_MOVESTATE, GSTATE_SIZE);
    CrcWord(seal.tag);
    CrcKind(seal.tag);
  }

  lemma CrcWord(w: word)
    requires IsCrc(w)
    ensures IsValid(w)
  {
  }

  /** Looking anything up in the compacted log finds what was kept for it. */
  lemma CompactedLooksUp(entries: seq<Entry>, state: DirState, delta: Option<seq<byte>>, log': seq<Raw>, group: Group,
                         kind: nat, id: nat)
    requires AreFileEntries(entries) && TailIsPlain(state) && (delta.Some? ==> |delta.value| == GSTATE_SIZE)
    requires CompactedRaws(entries, state, delta) <= log' && |log'| == |CompactedRaws(entries, state, delta)| + 1
    requires IsCrc(log'[|log'| - 1].tag) && IsFileKind(kind)
    ensures LookBack(ViewLog(log'), group, kind, id) == LookBack(entries, group, kind, id)
  {
    hide LookBack, TailRaws, DeltaRaws, RawsOf, AreFileEntries, TailIsPlain, IsCrc;
    TailSize(state);
    var seal := log'[|log'| - 1];
    var rest := TailRaws(state) + DeltaRaws(delta) + [seal];
    assert log' == RawsOf(entries) + rest;
    ViewConcat(RawsOf(entries), rest);
    ViewOfRaws(entries);
    RestIsGlobal(state, delta, seal);
    GlobalsArePassed(entries, ViewLog(rest), group, kind, id);
  }

  /**
   The whole of it: after a directory was compacted, looking up a file in its new log finds what the old log
   followed by the pending attributes says, unless that is hidden behind a later entry of its class.
   */
  lemma CompactedDirAnswersAlike(log: seq<Raw>, attrs: seq<Raw>, begin: nat, end: nat, state: DirState,
                                 delta: Option<seq<byte>>, log': seq<Raw>, group: Group, kind: nat, id: nat)
    requires CanTakeAll(EMPTY_DIR, AllItems(log, attrs)) && IsFileKind(kind) && Finer(group, MaskOf(kind))
    requires AreFileEntries(CompactedEntries(log, attrs, begin, end))
    requires TailIsPlain(state) && (delta.Some? ==> |delta.value| == GSTATE_SIZE)
    requires CompactedRaws(CompactedEntries(log, attrs, begin, end), state, delta) <= log'
    requires |log'| == |CompactedRaws(CompactedEntries(log, attrs, begin, end), state, delta)| + 1
    requires IsCrc(log'[|log'| - 1].tag)
    requires begin <= id < end && id < |TakeAll(EMPTY_DIR, AllItems(log, attrs)).slots|
    ensures LookBack(ViewLog(log'), group, kind, id - begin)
            == At(TagLog.Lookup(TakeAll(EMPTY_DIR, AllItems(log, attrs)), group, kind, id), id - begin)
       <==> Shows(TakeAll(EMPTY_DIR, AllItems(log, attrs)).slots[id], group, kind)
  {
    hide LookBack, TakeAll, CanTakeAll, CanTraverse, AllItems, AreFileEntries, TailIsPlain, CompactedRaws,
         Compaction.Compact, TagLog.Lookup, Shows;
    CompactedLooksUp(CompactedEntries(log, attrs, begin, end), state, delta, log', group, kind, id - begin);
    CompactionPreservesMeaning(AllItems(log, attrs), group, kind, id, begin, end);
  }

  // ---------- the number of files ----------

  /** No name is so long that its size reads as a delete: names are capped below that. */
  predicate NamesAreWhole(items: seq<Item>) {
    forall i :: 0 <= i < |items| && IsName(items[i].tag) ==> !items[i].tag.IsDelete()
  }

  predicate EntriesAreWhole(entries: seq<Entry>) {
    forall i :: 0 <= i < |entries| && IsName(entries[i].tag) ==> !entries[i].tag.IsDelete()
  }

  predicate EndsInFiles(items: seq<Item>, end: nat) {
    CanTakeAll(EMPTY_DIR, items) && end <= |TakeAll(EMPTY_DIR, items).slots|
  }

  /** The last of the files begin..end is there and has a name, or there are no files. */
  predicate LastIsNamed(items: seq<Item>, begin: nat, end: nat) {
    && EndsInFiles(items, end)
    && (begin >= end || TagLog.Lookup(TakeAll(EMPTY_DIR, items), But8, TYPE_NAME, end - 1).Some?)
  }

  lemma {:induction false} LastForExists(log: seq<Entry>, id: nat)
    ensures LastFor(log, But8, TYPE_NAME, id).Some? <==>
              exists i :: 0 <= i < |log| && IsName(log[i].tag) && log[i].tag.id == id
    decreases |log|
  {
    if log != [] {
      var front, e := log[..|log| - 1], log[|log| - 1];
      LastForExists(front, id);
      assert forall i :: 0 <= i < |front| ==> front[i] == log[i];
      if IsName(e.tag) && e.tag.id == id {
        assert log[|log| - 1] == e;
      }
    }
  }

  lemma {:induction false} LastForIsWhole(log: seq<Entry>, id: nat)
    requires EntriesAreWhole(log)
    ensures LastFor(log, But8, TYPE_NAME, id) == Live(LastFor(log, But8, TYPE_NAME, id))
    decreases |log|
  {
    if log != [] {
      var front := log[..|log| - 1];
      assert forall i :: 0 <= i < |front| ==> front[i] == log[i];
      LastForIsWhole(front, id);
    }
  }

  lemma {:induction false} CompactIsWhole(items: seq<Item>, begin: nat, end: nat)
    requires NamesAreWhole(items)
    ensures EntriesAreWhole(Compaction.Compact(items, begin, end))
    decreases |items|
  {
    if items != [] {
      assert forall i :: 0 <= i < |items[1..]| ==> items[1..][i] == items[i + 1];
      CompactIsWhole(items[1..], begin, end);
      KeptIsWhole(items[0], items[1..], begin, end);
    }
  }

  lemma KeptIsWhole(x: Item, later: seq<Item>, begin: nat, end: nat)
    requires IsName(x.tag) ==> !x.tag.IsDelete()
    ensures EntriesAreWhole(Kept(x, later, begin, end))
  {
  }

  /**
   How many files a fetch of the compacted log will count: as many as there are, if and only if the last one has a
   name.
   */
  lemma CountIsNamed(items: seq<Item>, begin: nat, end: nat)
    requires EndsInFiles(items, end) && begin < end
    requires forall i :: 0 <= i < |Compaction.Compact(items, begin, end)| ==>
               Compaction.Compact(items, begin, end)[i].tag.id < end - begin
    ensures LastIsNamed(items, begin, end) ==> CountOf(Compaction.Compact(items, begin, end)) == end - begin
    ensures NamesAreWhole(items) && CountOf(Compaction.Compact(items, begin, end)) == end - begin ==>
              LastIsNamed(items, begin, end)
  {
    hide Compaction.Compact, TakeAll, CanTakeAll, LastFor, LastOf, TagLog.Lookup, Written, Live, At, CountOf,
         NamesAreWhole;
    var entries, last := Compaction.Compact(items, begin, end), end - 1;
    CountIsRight(entries, end - begin);
    LastForExists(entries, last - begin);
    var found, kept := LookBackCompact(items, But8, TYPE_NAME, last - begin, begin, end);
    NameIsClass();
    CompactionPreservesClasses(items, TYPE_NAME, last, begin, end);
    LiveIsThere(kept);
    AtIsThere(TagLog.Lookup(TakeAll(EMPTY_DIR, items), But8, TYPE_NAME, last), last - begin);
    if NamesAreWhole(items) {
      CompactIsWhole(items, begin, end);
      LastForIsWhole(entries, last - begin);
    }
  }

  lemma NameIsClass()
    ensures MaskOf(TYPE_NAME) == But8 && IsFileKind(TYPE_NAME)
  {
  }

  lemma LiveIsThere(e: Option<Entry>)
    ensures Live(e).Some? ==> e.Some?
  {
  }

  lemma AtIsThere(e: Option<Entry>, id: nat)
    ensures At(e, id).Some? <==> e.Some?
  {
  }

  lemma CountIsInput(log: seq<Raw>, attrs: seq<Raw>, begin: nat, end: nat)
    requires IsRawLog(log) && AreAttributes(attrs) && begin <= end <= NO_ID
    ensures LastIsNamed(AllItems(log, attrs), begin, end) ==>
              CountOf(CompactedEntries(log, attrs, begin, end)) == end - begin
    ensures NamesAreWhole(AllItems(log, attrs)) && EndsInFiles(AllItems(log, attrs), end) ==>
              (CountOf(CompactedEntries(log, attrs, begin, end)) == end - begin <==>
                 LastIsNamed(AllItems(log, attrs), begin, end))
  {
    hide Compaction.Compact, TakeAll, CanTakeAll, CountOf, NamesAreWhole, AllItems;
    AllSized(log, attrs);
    CompactIsFileEntries(AllItems(log, attrs), begin, end);
    if begin == end {
      CountIsRight(CompactedEntries(log, attrs, begin, end), 0);
    } else if EndsInFiles(AllItems(log, attrs), end) {
      CountIsNamed(AllItems(log, attrs), begin, end);
    }
  }
}
