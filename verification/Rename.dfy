/**
 Renaming a regular file: one commit when both names are in one pair, and otherwise two, with the move noted in the
 global state in between. At every commit boundary users see the file under exactly one of its names.
 */
module Rename {
  import opened Options
  import opened Words
  import opened Tags
  import opened TagLog
  import opened Compaction
  import opened Traverse
  import opened GlobalState

  // ---------- what a move takes along ----------

  /** (LFS_MKTAG(0x600, 0, 0) & tag) == LFS_MKTAG(LFS_TYPE_STRUCT, 0, 0): structs and user attributes */
  predicate IsMoved(kind: nat) { kind / 0x200 == 1 }

  /** The entries that LFS_FROM_MOVE copies from file `from` of a log, under their new id. */
  function Moved(kept: seq<Entry>, to: nat): (moved: seq<Entry>)
    decreases |kept|
  {
    if kept == [] then []
    else
      var e := kept[|kept| - 1];
      Moved(kept[..|kept| - 1], to) + if IsMoved(e.tag.kind) then [e.(tag := e.tag.(id := to))] else []
  }

  /** The part of lfs_dir_traverse that handles LFS_FROM_MOVE */
  method TraverseMove(log: seq<Item>, from: nat, to: nat) returns (moved: seq<Entry>)
    requires CanTraverse(log)
    ensures moved == Moved(Compact(log, from, from + 1), to)
  {
    hide CanTraverse, Compact, IsMoved;
    var kept := Traverse.Traverse(log, from, from + 1);
    moved := [];
    for i := 0 to |kept|
      invariant moved == Moved(kept[..i], to)
    {
      if IsMoved(kept[i].tag.kind) {
        moved := moved + [kept[i].(tag := kept[i].tag.(id := to))];
      }
      assert kept[..i + 1][..i] == kept[..i];
    }
    assert kept[..|kept|] == kept;
  }

  lemma MovedKinds(kind: nat, kind': nat)
    requires IsMoved(kind)
    ensures IsFileKind(kind) && (MaskOf(kind).Same(kind', kind) ==> IsMoved(kind'))
  {
    Halves(kind);
    Halves(kind');
  }

  lemma Halves(kind: nat)
    ensures kind / 0x200 == kind / 0x100 / 2
  {
  }

  lemma AtTwice(e: Option<Entry>, id: nat, id': nat)
    ensures At(At(e, id), id') == At(e, id') && Live(At(e, id)) == At(Live(e), id)
  {
  }

  /** What was moved, looked up in a slot, is what the traversal kept. */
  lemma {:induction false} MovedLooksUp(kept: seq<Entry>, to: nat, kind: nat)
    requires IsMoved(kind) && forall i :: 0 <= i < |kept| ==> kept[i].tag.id == 0
    ensures LastOf(Moved(kept, to), MaskOf(kind), kind) == At(LastFor(kept, MaskOf(kind), kind, 0), to)
    decreases |kept|
  {
    hide IsMoved, MaskOf;
    if kept != [] {
      var front, e := kept[..|kept| - 1], kept[|kept| - 1];
      assert forall i :: 0 <= i < |front| ==> front[i] == kept[i];
      MovedLooksUp(front, to, kind);
      MovedKinds(kind, e.tag.kind);
      LastOfAppend(Moved(front, to), e.(tag := e.tag.(id := to)), MaskOf(kind), kind);
      assert Moved(front, to) + [] == Moved(front, to);
    }
  }

  lemma {:induction false} KeptBelow(items: seq<Item>, begin: nat, end: nat)
    ensures forall i :: 0 <= i < |Compact(items, begin, end)| ==> Compact(items, begin, end)[i].tag.id < end - begin
    decreases |items|
  {
    if items != [] {
      KeptBelow(items[1..], begin, end);
      KeptOneBelow(items[0], items[1..], begin, end);
    }
  }

  lemma KeptOneBelow(x: Item, later: seq<Item>, begin: nat, end: nat)
    ensures forall i :: 0 <= i < |Kept(x, later, begin, end)| ==> Kept(x, later, begin, end)[i].tag.id < end - begin
  {
    hide Filter;
  }

  /** Looked up as files are, the entries tell what the file tells: its struct, and every single user attribute. */
  ghost predicate HasAllOf(slot: Slot, d: Dir, from: nat, to: nat) {
    && Live(LastOf(slot, But8, TYPE_INLINESTRUCT)) == At(TagLog.Lookup(d, But8, TYPE_INLINESTRUCT, from), to)
    && forall kind: nat :: 0x300 <= kind < 0x400 ==>
         Live(LastOf(slot, Exact, kind)) == At(TagLog.Lookup(d, Exact, kind, from), to)
  }

  lemma MovedMasks(kind: nat)
    ensures IsMoved(kind) <==> 0x200 <= kind < 0x400
    ensures IsMoved(kind) ==> MaskOf(kind) == if kind < 0x300 then But8 else Exact
  {
  }

  lemma HasEach(slot: Slot, d: Dir, from: nat, to: nat)
    requires forall kind: nat :: IsMoved(kind) ==>
               Live(LastOf(slot, MaskOf(kind), kind)) == At(TagLog.Lookup(d, MaskOf(kind), kind, from), to)
    ensures HasAllOf(slot, d, from, to)
  {
    hide IsMoved, MaskOf, LastOf, Live, At, TagLog.Lookup;
    MovedMasks(TYPE_INLINESTRUCT);
    forall kind: nat | 0x300 <= kind < 0x400
      ensures Live(LastOf(slot, Exact, kind)) == At(TagLog.Lookup(d, Exact, kind, from), to)
    {
      MovedMasks(kind);
    }
  }

  /**
   From a log that can be compacted a move takes along everything there is of the file: its struct and its user
   attributes.
   */
  lemma MovedIsWhole(log: seq<Entry>, from: nat, to: nat)
    requires Compactable(log) && WellFormed(log) && from < |Replay(log).slots|
    ensures HasAllOf(Moved(Compact(OnDisk(log), from, from + 1), to), Replay(log), from, to)
  {
    hide *;
    var moved := Moved(Compact(OnDisk(log), from, from + 1), to);
    forall kind: nat | IsMoved(kind)
      ensures Live(LastOf(moved, MaskOf(kind), kind)) == At(TagLog.Lookup(Replay(log), MaskOf(kind), kind, from), to)
    {
      MovedGroup(log, from, to, kind);
    }
    HasEach(moved, Replay(log), from, to);
  }

  lemma MovedGroup(log: seq<Entry>, from: nat, to: nat, kind: nat)
    requires Compactable(log) && WellFormed(log) && from < |Replay(log).slots| && IsMoved(kind)
    ensures Live(LastOf(Moved(Compact(OnDisk(log), from, from + 1), to), MaskOf(kind), kind))
         == At(TagLog.Lookup(Replay(log), MaskOf(kind), kind, from), to)
  {
    hide Compact, LookBack, LastFor, LastOf, TagLog.Lookup, At, Live, Moved, IsMoved, Replay, WellFormed, Compactable,
         TakeAll, CanTakeAll;
    var kept := Compact(OnDisk(log), from, from + 1);
    MovedKinds(kind, kind);
    OnDiskIsReplay(log);
    KeptBelow(OnDisk(log), from, from + 1);
    MovedLooksUp(kept, to, kind);
    var found, last := LookBackCompact(OnDisk(log), MaskOf(kind), kind, 0, from, from + 1);
    CompactionPreservesClasses(OnDisk(log), kind, from, from, from + 1);
    AtTwice(last, to, to);
    AtTwice(TagLog.Lookup(Replay(log), MaskOf(kind), kind, from), 0, to);
  }

  // ---------- where it does not ----------

  /** Moving the file takes along all there is of it, whatever is looked up. */
  ghost predicate MoveIsWhole(log: seq<Entry>, from: nat)
    requires WellFormed(log)
  {
    forall to: nat :: MoveIsWholeTo(log, from, to)
  }

  ghost predicate MoveIsWholeTo(log: seq<Entry>, from: nat, to: nat)
    requires WellFormed(log)
  {
    HasAllOf(Moved(Compact(OnDisk(log), from, from + 1), to), Replay(log), from, to)
  }

  ghost predicate MovesAreWhole(log: seq<Entry>)
    requires WellFormed(log)
  {
    forall from: nat :: from < |Replay(log).slots| ==> MoveIsWhole(log, from)
  }

  lemma CompactableMovesAreWhole(log: seq<Entry>)
    requires Compactable(log) && WellFormed(log)
    ensures MovesAreWhole(log)
  {
    hide Compactable, Replay, WellFormed, HasAllOf, Compact, Moved;
    forall from: nat, to: nat | from < |Replay(log).slots|
      ensures MoveIsWholeTo(log, from, to)
    {
      MovedIsWhole(log, from, to);
    }
  }

  /** A file of which nothing is kept is moved without its struct. */
  lemma NothingIsMoved(log: seq<Entry>, from: nat)
    requires WellFormed(log) && from < |Replay(log).slots|
    requires TagLog.Lookup(Replay(log), But8, TYPE_INLINESTRUCT, from).Some?
    requires NothingUnder(OnDisk(log), from, from, from + 1)
    ensures !MovesAreWhole(log)
  {
    hide Replay, WellFormed, Compact, Moved, NothingUnder, TagLog.Lookup;
    var items, kind := OnDisk(log), TYPE_INLINESTRUCT;
    StructIsMoved();
    DiskCompactIds(items, from, from + 1, from, But8, kind);
    KeptBelow(items, from, from + 1);
    MovedLooksUp(Compact(items, from, from + 1), from, kind);
    assert !MoveIsWholeTo(log, from, from);
    assert !MoveIsWhole(log, from);
  }

  lemma StructIsMoved()
    ensures IsMoved(TYPE_INLINESTRUCT) && IsFileKind(TYPE_INLINESTRUCT) && MaskOf(TYPE_INLINESTRUCT) == But8
  {
  }

  /**
   After one file was created on disk in a log that could be compacted, every file can be moved whole if and only if it
   was created at the end of the list.
   */
  lemma MovesSurviveCreateIffLast(older: seq<Entry>, x: Entry, tail: seq<Entry>)
    requires Compactable(older) && WellFormed(older) && AllHave(Replay(older), TYPE_INLINESTRUCT)
    requires WellFormed(older + [x]) && WellFormed(older + [x] + tail)
    requires x.tag.kind == TYPE_CREATE
    requires forall i :: 0 <= i < |tail| ==>
               tail[i].tag.id == x.tag.id && IsFileKind(tail[i].tag.kind) && tail[i].tag.kind != FROM_NOOP
    ensures MovesAreWhole(older + [x] + tail) <==> x.tag.id == |Replay(older).slots|
  {
    hide Compactable, MovesAreWhole, AllHave, TagLog.Lookup, NothingUnder;
    var log, n := older + [x] + tail, |Replay(older).slots|;
    assert (older + [x])[..|older|] == older;
    if x.tag.id == n {
      EndSpliceIsCompactable(older, x);
      TailCompactable(older + [x], tail);
      CompactableMovesAreWhole(log);
    } else {
      assert log == older + ([x] + tail);
      StructIsMoved();
      LastFileMoves(older, x, tail, TYPE_INLINESTRUCT);
      NothingMoves(older, x, tail, n, n + 1);
      NothingIsMoved(log, n);
    }
  }

  /** The same after one file was deleted on disk: it must have been the last one. */
  lemma MovesSurviveDeleteIffLast(older: seq<Entry>, x: Entry)
    requires Compactable(older) && WellFormed(older) && AllHave(Replay(older), TYPE_INLINESTRUCT)
    requires x.tag.kind == TYPE_DELETE && WellFormed(older + [x])
    ensures MovesAreWhole(older + [x]) <==> x.tag.id + 1 == |Replay(older).slots|
  {
    hide Compactable, MovesAreWhole, AllHave, TagLog.Lookup, NothingUnder;
    var log, id := older + [x], x.tag.id;
    assert (older + [x])[..|older|] == older;
    if id + 1 == |Replay(older).slots| {
      EndSpliceIsCompactable(older, x);
      CompactableMovesAreWhole(log);
    } else {
      StructIsMoved();
      NextFileMoves(older, x, TYPE_INLINESTRUCT);
      DeletedIsDropped(older, x, id, id + 1);
      NothingIsMoved(log, id);
    }
  }

  lemma {:induction false} FilterPassesOther(t: Tag, later: seq<Item>, y: Item)
    requires !t.IsDelete() && forall i :: 0 <= i < |later| ==> later[i].disk
    requires y.disk && y.tag.id != t.id && !y.IsNoop()
    ensures Filter(t, later + [y]) == Filter(t, later)
    decreases |later|
  {
    if later == [] {
      assert [] + [y] == [y] && [y][1..] == [];
    } else {
      assert (later + [y])[1..] == later[1..] + [y];
      FilterPassesOther(t, later[1..], y);
    }
  }

  /** What is kept under an id does not depend on what was written to disk later under other ids. */
  lemma {:induction false} OthersDoNotMatter(items: seq<Item>, y: Item, id: nat)
    requires forall i :: 0 <= i < |items| ==> items[i].disk && (items[i].tag.id == id ==> !items[i].tag.IsDelete())
    requires y.disk && y.tag.id != id && !y.IsNoop()
    ensures Compact(items + [y], id, id + 1) == Compact(items, id, id + 1)
    decreases |items|
  {
    hide Filter;
    if items == [] {
      assert [] + [y] == [y] && [y][1..] == [];
      DiskKeepsId(y.tag, []);
      assert Kept(y, [], id, id + 1) == [];
    } else {
      var x, later := items[0], items[1..];
      assert (items + [y])[1..] == later + [y];
      OthersDoNotMatter(later, y, id);
      DiskKeepsId(x.tag, later);
      DiskKeepsId(x.tag, later + [y]);
      if x.tag.id == id {
        FilterPassesOther(x.tag, later, y);
      }
    }
  }

  lemma {:induction false} OthersDoNotMatterAll(log: seq<Entry>, tail: seq<Entry>, id: nat)
    requires forall i :: 0 <= i < |log| && log[i].tag.id == id ==> !log[i].tag.IsDelete()
    requires forall i :: 0 <= i < |tail| ==> tail[i].tag.id != id && tail[i].tag.kind != FROM_NOOP
    ensures Compact(OnDisk(log + tail), id, id + 1) == Compact(OnDisk(log), id, id + 1)
    decreases |tail|
  {
    hide Compact;
    if tail == [] {
      assert log + tail == log;
    } else {
      var front, e := tail[..|tail| - 1], tail[|tail| - 1];
      OthersDoNotMatterAll(log, front, id);
      assert OnDisk(log + tail) == OnDisk(log + front) + [Item(e.tag, e.data, true)];
      OthersDoNotMatter(OnDisk(log + front), Item(e.tag, e.data, true), id);
    }
  }

  /**
   What a move takes along after a file was created on disk before the one that is moved: all there is of the file that
   comes next, and nothing of its own. If none comes next it takes nothing, as MovesSurviveCreateIffLast needs.
   */
  lemma MoveTakesNext(older: seq<Entry>, x: Entry, tail: seq<Entry>, from: nat, to: nat)
    requires Compactable(older) && WellFormed(older) && WellFormed(older + [x]) && WellFormed(older + [x] + tail)
    requires x.tag.kind == TYPE_CREATE && x.tag.id < from < |Replay(older).slots|
    requires forall i :: 0 <= i < |tail| ==>
               tail[i].tag.id == x.tag.id && IsFileKind(tail[i].tag.kind) && tail[i].tag.kind != FROM_NOOP
    requires forall i :: 0 <= i < |older| && older[i].tag.id == from ==> !older[i].tag.IsDelete()
    ensures var log := older + [x] + tail;
            HasAllOf(Moved(Compact(OnDisk(log), from, from + 1), to), Replay(log), from + 1, to)
  {
    hide Compact, Moved, Compactable, TagLog.Lookup, LastOf, At, Replay, WellFormed, Live, IsFileKind;
    var log := older + [x] + tail;
    assert log == older + ([x] + tail);
    OthersDoNotMatterAll(older, [x] + tail, from);
    MovedIsWhole(older, from, to);
    FilesAboveShift(older, x, tail, from, But8, TYPE_INLINESTRUCT);
    forall kind: nat | 0x300 <= kind < 0x400
      ensures TagLog.Lookup(Replay(log), Exact, kind, from + 1) == TagLog.Lookup(Replay(older), Exact, kind, from)
    {
      FilesAboveShift(older, x, tail, from, Exact, kind);
    }
  }

  lemma CanAppend(older: seq<Entry>, x: Entry)
    requires WellFormed(older) && WellFormed(older + [x])
    ensures CanApply(Replay(older), x.tag)
  {
    assert (older + [x])[..|older|] == older;
  }

  lemma OneMore(d: Dir, x: Entry)
    requires CanApply(d, x.tag) && x.tag.kind == TYPE_CREATE
    ensures |Apply(d, x).slots| == |d.slots| + 1 < 0x3ff
  {
  }

  /** Files above one that was created are found under the next id. */
  lemma FilesAboveShift(older: seq<Entry>, x: Entry, tail: seq<Entry>, id: nat, group: Group, kind: nat)
    requires WellFormed(older) && WellFormed(older + [x]) && WellFormed(older + [x] + tail)
    requires x.tag.kind == TYPE_CREATE && x.tag.id < id < |Replay(older).slots|
    requires forall i :: 0 <= i < |tail| ==> tail[i].tag.id == x.tag.id && IsFileKind(tail[i].tag.kind)
    ensures TagLog.Lookup(Replay(older + [x] + tail), group, kind, id + 1)
            == TagLog.Lookup(Replay(older), group, kind, id)
  {
    hide *;
    var d := Replay(older);
    CanAppend(older, x);
    ReplayAppend(older, x, d);
    LookupCreated(d, x, group, kind, id + 1);
    OneMore(d, x);
    TailElsewhere(older + [x], tail, x.tag.id, id + 1, group, kind);
  }

  const INLINE_A := Entry(Tag(TYPE_INLINESTRUCT, 0, 1), [49])
  const INLINE_B := Entry(Tag(TYPE_INLINESTRUCT, 0, 1), [50])
  const CREATE_SECOND := Entry(Tag(TYPE_CREATE, 1, 0), [])
  const NAME_C := Entry(Tag(TYPE_REG, 1, 1), [99])
  const INLINE_C := Entry(Tag(TYPE_INLINESTRUCT, 1, 1), [51])

  /** "b" is created with its struct, then "c" after it, then "a" before both. */
  const SPLICED := [CREATE_FIRST, NAME_B, INLINE_B, CREATE_SECOND, NAME_C, INLINE_C, CREATE_FIRST, NAME_A, INLINE_A]

  lemma AddsFile(log: seq<Entry>, d: Dir, e: Entry, slots: seq<Slot>) returns (d': Dir)
    requires WellFormed(log) && Replay(log) == d && e.tag.kind == TYPE_CREATE && CanApply(d, e.tag)
    requires slots == InsertAt(d.slots, e.tag.id, [])
    ensures WellFormed(log + [e]) && Replay(log + [e]) == d' && d'.slots == slots
  {
    d' := Apply(d, e);
    ReplayAppend(log, e, d);
  }

  lemma AddsEntry(log: seq<Entry>, d: Dir, e: Entry, slots: seq<Slot>) returns (d': Dir)
    requires WellFormed(log) && Replay(log) == d && IsFileKind(e.tag.kind) && CanApply(d, e.tag) && e.tag.id < |d.slots|
    requires e.tag.id != NO_ID && slots == d.slots[e.tag.id := d.slots[e.tag.id] + [e]]
    ensures WellFormed(log + [e]) && Replay(log + [e]) == d' && d'.slots == slots
  {
    d' := Apply(d, e);
    ReplayAppend(log, e, d);
  }

  /** A file that is created on disk, with its name and its struct. */
  lemma AddsWhole(log: seq<Entry>, d: Dir, e: Entry, n: Entry, s: Entry) returns (d': Dir)
    requires WellFormed(log) && Replay(log) == d && |d.slots| < 4 && e.tag.id == n.tag.id == s.tag.id <= |d.slots|
    requires e.tag == Tag(TYPE_CREATE, e.tag.id, 0) && n.tag.kind == TYPE_REG && s.tag.kind == TYPE_INLINESTRUCT
    requires n.tag.Valid() && s.tag.Valid()
    ensures WellFormed(log + [e, n, s]) && Replay(log + [e, n, s]) == d'
    ensures d'.slots == InsertAt(d.slots, e.tag.id, [n, s])
  {
    hide Replay, WellFormed, CanApply, InsertAt;
    var i := e.tag.id;
    InsertedAt(d.slots, i, []);
    CanBeAdded(d, e);
    var d1 := AddsFile(log, d, e, InsertAt(d.slots, i, []));
    CanBeAdded(d1, n);
    assert [] + [n] == [n];
    var d2 := AddsEntry(log + [e], d1, n, d1.slots[i := [n]]);
    CanBeAdded(d2, s);
    assert [n] + [s] == [n, s];
    d' := AddsEntry(log + [e] + [n], d2, s, d2.slots[i := [n, s]]);
    assert log + [e] + [n] + [s] == log + [e, n, s];
    InsertedThen(d.slots, i, [n], [n, s]);
  }

  lemma CanBeAdded(d: Dir, e: Entry)
    requires |d.slots| < 8 && e.tag.Valid() && e.tag.id <= |d.slots|
    requires e.tag.kind == TYPE_CREATE || (IsFileKind(e.tag.kind) && e.tag.id < |d.slots|)
    ensures CanApply(d, e.tag)
  {
  }

  lemma InsertedAt(slots: seq<Slot>, i: nat, slot: Slot)
    requires i <= |slots|
    ensures |InsertAt(slots, i, slot)| == |slots| + 1 && InsertAt(slots, i, slot)[i] == slot
  {
  }

  lemma InsertedThen(slots: seq<Slot>, i: nat, slot: Slot, slot': Slot)
    requires i <= |slots|
    ensures |InsertAt(slots, i, [])| == |slots| + 1
    ensures InsertAt(slots, i, [])[i := slot][i := slot'] == InsertAt(slots, i, slot')
  {
  }

  lemma SplicedReplays()
    ensures WellFormed(SPLICED) && Replay(SPLICED).slots == [[NAME_A, INLINE_A], [NAME_B, INLINE_B], [NAME_C, INLINE_C]]
  {
    hide Replay, WellFormed, CanApply;
    NothingReplays();
    var first := [CREATE_FIRST, NAME_B, INLINE_B];
    var d1 := AddsWhole([], EMPTY_DIR, CREATE_FIRST, NAME_B, INLINE_B);
    assert [] + first == first;
    var second := [CREATE_SECOND, NAME_C, INLINE_C];
    var d2 := AddsWhole(first, d1, CREATE_SECOND, NAME_C, INLINE_C);
    var d3 := AddsWhole(first + second, d2, CREATE_FIRST, NAME_A, INLINE_A);
    assert first + second + [CREATE_FIRST, NAME_A, INLINE_A] == SPLICED;
  }

  lemma NothingReplays()
    ensures WellFormed([]) && Replay([]) == EMPTY_DIR
  {
  }

  /** Of entries that were read under another id nothing is kept. */
  lemma OtherIdIsNotKept(items: seq<Item>, i: nat, id: nat)
    requires i < |items| && forall j :: 0 <= j < |items| ==> items[j].disk
    requires items[i].tag.id != id || items[i].tag.kind >= TYPE_SPLICE
    ensures Compact(items[i..], id, id + 1) == Compact(items[i + 1..], id, id + 1)
  {
    DiskKeepsId(items[i].tag, items[i + 1..]);
    CompactRest(items, i, id, id + 1);
    assert [] + Compact(items[i + 1..], id, id + 1) == Compact(items[i + 1..], id, id + 1);
  }

  /**
   Where another file comes next, its entries are taken: "b" is moved with the struct of "c". Whoever had the id on disk
   before "a" was created gets moved.
   */
  lemma SplicedLogMovesAnother(to: nat)
    ensures WellFormed(SPLICED) && Replay(SPLICED).slots == [[NAME_A, INLINE_A], [NAME_B, INLINE_B], [NAME_C, INLINE_C]]
    ensures Moved(Compact(OnDisk(SPLICED), 1, 2), to) == [INLINE_C.(tag := INLINE_C.tag.(id := to))]
  {
    hide Compact, Filter, Replay, WellFormed;
    SplicedReplays();
    var items := OnDisk(SPLICED);
    var name, struct := NAME_C.(tag := NAME_C.tag.(id := 0)), INLINE_C.(tag := INLINE_C.tag.(id := 0));
    SplicedTail(items);
    OtherIdIsNotKept(items, 3, 1);
    OtherIdIsNotKept(items, 2, 1);
    OtherIdIsNotKept(items, 1, 1);
    OtherIdIsNotKept(items, 0, 1);
    assert items[0..] == items;
    MovesStruct(name, struct, to);
  }

  lemma SplicedTail(items: seq<Item>)
    requires items == OnDisk(SPLICED)
    ensures Compact(items[4..], 1, 2)
            == [NAME_C.(tag := NAME_C.tag.(id := 0)), INLINE_C.(tag := INLINE_C.tag.(id := 0))]
  {
    hide Compact;
    NothingLeft(items[9..], 1, 2);
    OtherIdIsNotKept(items, 8, 1);
    OtherIdIsNotKept(items, 7, 1);
    OtherIdIsNotKept(items, 6, 1);
    PassesFilter(items[5].tag, items[6..]);
    PassesFilter(items[4].tag, items[5..]);
    CompactRest(items, 5, 1, 2);
    CompactRest(items, 4, 1, 2);
  }

  lemma {:induction false} PassesFilter(t: Tag, later: seq<Item>)
    requires !t.IsDelete()
    requires forall i :: 0 <= i < |later| ==>
               later[i].disk && (later[i].tag.id != t.id || (later[i].tag.kind != TYPE_DELETE &&
                                                             !MaskOf(later[i].tag.kind).Same(later[i].tag.kind,
                                                                                             t.kind)))
    ensures Filter(t, later) == Some(t)
    decreases |later|
  {
    if later != [] {
      PassesFilter(t, later[1..]);
    }
  }

  lemma MovesStruct(name: Entry, struct: Entry, to: nat)
    requires !IsMoved(name.tag.kind) && IsMoved(struct.tag.kind)
    ensures Moved([name, struct], to) == [struct.(tag := struct.tag.(id := to))]
  {
    assert [name, struct][..1] == [name] && [name][..0] == [];
    assert Moved([], to) == [];
    assert Moved([name], to) == [];
  }

  lemma KeepsThree(name: Entry, struct: Entry, attribute: Entry)
    requires name.tag == Tag(TYPE_REG, 0, 1) && struct.tag == Tag(TYPE_INLINESTRUCT, 0, 1)
    requires attribute.tag == Tag(0x374, 0, 1)
    ensures Compact(OnDisk([name, struct, attribute]), 0, 1) == [name, struct, attribute]
  {
    hide Compact, Filter;
    var items := OnDisk([name, struct, attribute]);
    NothingLeft(items[3..], 0, 1);
    PassesFilter(items[2].tag, items[3..]);
    PassesFilter(items[1].tag, items[2..]);
    PassesFilter(items[0].tag, items[1..]);
    CompactRest(items, 2, 0, 1);
    CompactRest(items, 1, 0, 1);
    CompactRest(items, 0, 0, 1);
    assert items[0..] == items;
  }

  /** A file with a name, a struct and a user attribute: the struct and the attribute are moved. */
  lemma AttributeIsMoved(name: Entry, struct: Entry, attribute: Entry, to: nat)
    requires name.tag == Tag(TYPE_REG, 0, 1) && struct.tag == Tag(TYPE_INLINESTRUCT, 0, 1)
    requires attribute.tag == Tag(0x374, 0, 1)
    ensures Moved(Compact(OnDisk([name, struct, attribute]), 0, 1), to)
         == [struct.(tag := struct.tag.(id := to)), attribute.(tag := attribute.tag.(id := to))]
  {
    hide Compact;
    KeepsThree(name, struct, attribute);
    assert [name, struct, attribute][..2] == [name, struct];
    MovesStruct(name, struct, to);
  }

  /** Where none comes next nothing is taken: "b" is created with its struct, then "a" before it, then "b" is moved. */
  lemma SplicedLogMovesNothing()
    ensures Compact(OnDisk([CREATE_FIRST, NAME_B, INLINE_B, CREATE_FIRST, NAME_A, INLINE_A]), 1, 2) == []
  {
    hide Compact;
    var items := OnDisk([CREATE_FIRST, NAME_B, INLINE_B, CREATE_FIRST, NAME_A, INLINE_A]);
    NothingLeft(items[6..], 1, 2);
    OtherIdIsNotKept(items, 5, 1);
    OtherIdIsNotKept(items, 4, 1);
    OtherIdIsNotKept(items, 3, 1);
    OtherIdIsNotKept(items, 2, 1);
    OtherIdIsNotKept(items, 1, 1);
    OtherIdIsNotKept(items, 0, 1);
    assert items[0..] == items;
  }

  // ---------- the commits ----------

  /** An attribute in memory. */
  function Pending(kind: nat, id: nat, data: seq<byte>): Item {
    Item(Tag(kind, id, |data|), data, false)
  }

  function PendingEntry(e: Entry): Item { Item(e.tag, e.data, false) }

  function PendingEntries(entries: seq<Entry>): (items: seq<Item>)
    ensures |items| == |entries|
    ensures forall i :: 0 <= i < |items| ==> items[i] == PendingEntry(entries[i])
  {
    seq(|entries|, i requires 0 <= i < |entries| => PendingEntry(entries[i]))
  }

  /** The file under its new name. */
  function NewSlot(kind: nat, id: nat, name: seq<byte>, moved: seq<Entry>): Slot {
    [Entry(Tag(kind, id, |name|), name)] + moved
  }

  /**
   The files after the commit that brings in the new name, where an entry of that name was replaced if there was one.
   */
  function Brought(slots: seq<Slot>, replace: bool, id: nat, slot: Slot): seq<Slot>
    requires id <= |slots| && (replace ==> id < |slots|)
  {
    InsertAt(if replace then RemoveAt(slots, id) else slots, id, slot)
  }

  /** lfs_raw_rename's attributes for the pair with the new name */
  function NameItems(replace: bool, kind: nat, id: nat, name: seq<byte>, moved: seq<Entry>): seq<Item> {
    (if replace then [Pending(TYPE_DELETE, id, [])] else [])
    + [Pending(TYPE_CREATE, id, []), Pending(kind, id, name)]
    + PendingEntries(moved)
  }

  /** Entries of one file that was just created and named. */
  predicate AreOf(entries: seq<Entry>, id: nat) {
    forall i :: 0 <= i < |entries| ==> entries[i].tag.Valid() && entries[i].tag.id == id && IsMoved(entries[i].tag.kind)
  }

  lemma {:induction false} WriteMany(d: Dir, entries: seq<Entry>, id: nat)
    requires AreOf(entries, id) && id < |d.slots| < NO_ID
    ensures CanTakeAll(d, PendingEntries(entries))
    ensures TakeAll(d, PendingEntries(entries)) == d.(slots := d.slots[id := d.slots[id] + entries])
    decreases |entries|
  {
    if entries == [] {
      assert d.slots[id] + [] == d.slots[id];
    } else {
      var e := entries[0];
      assert PendingEntries(entries)[1..] == PendingEntries(entries[1..]);
      MovedKinds(e.tag.kind, e.tag.kind);
      TakesOne(d, e, id);
      var d1 := d.(slots := d.slots[id := d.slots[id] + [e]]);
      WriteMany(d1, entries[1..], id);
      assert d.slots[id] + entries == d.slots[id] + [e] + entries[1..];
    }
  }

  lemma TakesOne(d: Dir, e: Entry, id: nat)
    requires e.tag.Valid() && e.tag.id == id && id < |d.slots| < NO_ID && IsFileKind(e.tag.kind)
    requires e.tag.kind != FROM_NOOP
    ensures CanTake(d, PendingEntry(e)) && Take(d, PendingEntry(e)) == d.(slots := d.slots[id := d.slots[id] + [e]])
  {
    assert PendingEntry(e).Entry() == e;
  }

  lemma TakesCreate(d: Dir, id: nat)
    requires id <= |d.slots| && |d.slots| + 1 < NO_ID
    ensures CanTake(d, Pending(TYPE_CREATE, id, []))
    ensures Take(d, Pending(TYPE_CREATE, id, [])) == Dir(InsertAt(d.slots, id, []), d.globals, true)
  {
  }

  lemma TakesDelete(d: Dir, id: nat)
    requires id < |d.slots| < NO_ID
    ensures CanTake(d, Pending(TYPE_DELETE, id, []))
    ensures Take(d, Pending(TYPE_DELETE, id, [])) == Dir(RemoveAt(d.slots, id), d.globals, true)
  {
  }

  lemma TakesCreated(d: Dir, kind: nat, id: nat, name: seq<byte>, moved: seq<Entry>)
    requires id <= |d.slots| && |d.slots| + 1 < NO_ID && 0 < kind < 0x80 && |name| < NO_ID && AreOf(moved, id)
    ensures var items := [Pending(TYPE_CREATE, id, []), Pending(kind, id, name)] + PendingEntries(moved);
            CanTakeAll(d, items)
            && TakeAll(d, items) == Dir(InsertAt(d.slots, id, NewSlot(kind, id, name, moved)), d.globals, true)
  {
    hide CanTake, Take;
    var rest := PendingEntries(moved);
    var items := [Pending(TYPE_CREATE, id, []), Pending(kind, id, name)] + rest;
    var e := Entry(Tag(kind, id, |name|), name);
    TakesCreate(d, id);
    var d1 := Dir(InsertAt(d.slots, id, []), d.globals, true);
    TakesOne(d1, e, id);
    var d2 := Dir(d1.slots[id := [] + [e]], d.globals, true);
    WriteMany(d2, moved, id);
    assert [] + [e] == [e];
    assert items[1..] == [Pending(kind, id, name)] + rest && items[1..][1..] == rest;
    assert d2.slots[id := [e] + moved] == InsertAt(d.slots, id, [e] + moved);
  }

  lemma TakesFirst(d: Dir, x: Item, rest: seq<Item>)
    requires CanTake(d, x) && CanTakeAll(Take(d, x), rest)
    ensures CanTakeAll(d, [x] + rest) && TakeAll(d, [x] + rest) == TakeAll(Take(d, x), rest)
  {
    assert ([x] + rest)[1..] == rest;
  }

  /** Bringing in the new name does just that. */
  lemma TakesName(d: Dir, replace: bool, kind: nat, id: nat, name: seq<byte>, moved: seq<Entry>)
    requires id <= |d.slots| && |d.slots| + 1 < NO_ID && (replace ==> id < |d.slots|)
    requires 0 < kind < 0x80 && |name| < NO_ID && AreOf(moved, id)
    ensures CanTakeAll(d, NameItems(replace, kind, id, name, moved))
    ensures TakeAll(d, NameItems(replace, kind, id, name, moved))
         == Dir(Brought(d.slots, replace, id, NewSlot(kind, id, name, moved)), d.globals, true)
  {
    hide CanTake, Take, CanTakeAll, TakeAll, NewSlot, AreOf, PendingEntries, Pending;
    var created := [Pending(TYPE_CREATE, id, []), Pending(kind, id, name)] + PendingEntries(moved);
    if replace {
      TakesDelete(d, id);
      var d1 := Dir(RemoveAt(d.slots, id), d.globals, true);
      TakesCreated(d1, kind, id, name, moved);
      TakesFirst(d, Pending(TYPE_DELETE, id, []), created);
      assert NameItems(replace, kind, id, name, moved) == [Pending(TYPE_DELETE, id, [])] + created;
    } else {
      TakesCreated(d, kind, id, name, moved);
      assert NameItems(replace, kind, id, name, moved) == created;
    }
  }

  // ---------- what users see ----------

  /** The files of a pair as users see them: one that is being moved away is not there any more. */
  function VisibleSlots(d: Dir, g: Gstate, pair: (address, address)): seq<Slot> {
    Seen(d, HasMoveHere(g, pair), IdOf(g.tag)).slots
  }

  datatype View = View(oldFiles: seq<Slot>, newFiles: seq<Slot>)

  /** The id of the file to delete, after the commit that brings in the new name: a create before it moves it by one. */
  function DeletedId(replace: bool, from: nat, to: nat): nat {
    if !replace && to <= from then from + 1 else from
  }

  /** Both names in one pair: the file under its new name, and not under the old one. */
  function RenamedHere(slots: seq<Slot>, replace: bool, from: nat, to: nat, slot: Slot): seq<Slot>
    requires from < |slots| && to <= |slots| && (replace ==> to < |slots|)
  {
    RemoveAt(Brought(slots, replace, to, slot), DeletedId(replace, from, to))
  }

  /** What users are to see after the rename. */
  function Renamed(samePair: bool, before: View, replace: bool, from: nat, to: nat, slot: Slot): View
    requires from < |before.oldFiles| && to <= |before.newFiles| && (replace ==> to < |before.newFiles|)
    requires samePair ==> before.newFiles == before.oldFiles
  {
    if samePair then
      var files := RenamedHere(before.oldFiles, replace, from, to, slot);
      View(files, files)
    else View(RemoveAt(before.oldFiles, from), Brought(before.newFiles, replace, to, slot))
  }

  /** Where a file ends up in the pair that gets the new name, if it is not the one that is replaced. */
  function BroughtTo(replace: bool, to: nat, i: nat): nat {
    if !replace && to <= i then i + 1 else i
  }

  function RemovedTo(at: nat, i: nat): int {
    if at < i then i - 1 else i
  }

  /** The id under which users find the file once it has been renamed. */
  function NewPlace(samePair: bool, replace: bool, from: nat, to: nat): int {
    if samePair then RemovedTo(DeletedId(replace, from, to), to) else to
  }

  /** The file has the new name, and every lookup of anything else finds what it found under the old name. */
  ghost predicate IsRenamed(log: seq<Entry>, from: nat, slot: Slot, to: nat, nameKind: nat, name: seq<byte>)
    requires WellFormed(log)
  {
    && LastOf(slot, But8, TYPE_NAME) == Some(Entry(Tag(nameKind, to, |name|), name))
    && HasAllOf(slot, Replay(log), from, to)
  }

  lemma {:induction false} MovedAreOf(kept: seq<Entry>, to: nat)
    requires to < NO_ID && forall i :: 0 <= i < |kept| ==> kept[i].tag.Valid()
    ensures AreOf(Moved(kept, to), to)
    decreases |kept|
  {
    if kept != [] {
      var front, e := kept[..|kept| - 1], kept[|kept| - 1];
      assert forall i :: 0 <= i < |front| ==> front[i] == kept[i];
      MovedAreOf(front, to);
    }
  }

  lemma {:induction false} CompactIsValid(items: seq<Item>, begin: nat, end: nat)
    requires forall i :: 0 <= i < |items| ==> IsProper(items[i])
    requires end <= NO_ID
    ensures forall i :: 0 <= i < |Compact(items, begin, end)| ==> Compact(items, begin, end)[i].tag.Valid()
    decreases |items|
  {
    hide Filter;
    if items != [] {
      assert IsProper(items[0]);
      CompactIsValid(items[1..], begin, end);
      assert forall i :: 0 <= i < |Kept(items[0], items[1..], begin, end)| ==>
               Kept(items[0], items[1..], begin, end)[i].tag.Valid();
    }
  }

  lemma RenamedIsThere(samePair: bool, before: View, replace: bool, from: nat, to: nat, slot: Slot)
    requires from < |before.oldFiles| && to <= |before.newFiles| && (replace ==> to < |before.newFiles|)
    requires samePair ==> before.newFiles == before.oldFiles && (replace ==> to != from)
    ensures var v, at := Renamed(samePair, before, replace, from, to, slot), NewPlace(samePair, replace, from, to);
            0 <= at < |v.newFiles| && v.newFiles[at] == slot
  {
    if samePair {
      OthersStayHere(before.oldFiles, replace, from, to, slot);
    } else {
      OthersStay(before.oldFiles, before.newFiles, replace, from, to, slot);
    }
  }

  /** Two pairs: the file is where it was looked for, it has left its old pair, and all others are as they were. */
  lemma OthersStay(oldFiles: seq<Slot>, newFiles: seq<Slot>, replace: bool, from: nat, to: nat, slot: Slot)
    requires from < |oldFiles| && to <= |newFiles| && (replace ==> to < |newFiles|)
    ensures var v := Renamed(false, View(oldFiles, newFiles), replace, from, to, slot);
            && v.newFiles[to] == slot
            && |v.oldFiles| == |oldFiles| - 1 && |v.newFiles| == |newFiles| + (if replace then 0 else 1)
            && (forall i :: 0 <= i < |oldFiles| && i != from ==> v.oldFiles[RemovedTo(from, i)] == oldFiles[i])
            && (forall i :: 0 <= i < |newFiles| && !(replace && i == to) ==>
                  v.newFiles[BroughtTo(replace, to, i)] == newFiles[i])
  {
  }

  lemma BroughtKeeps(slots: seq<Slot>, replace: bool, to: nat, slot: Slot)
    requires to <= |slots| && (replace ==> to < |slots|)
    ensures var r := Brought(slots, replace, to, slot);
            && |r| == |slots| + (if replace then 0 else 1) && r[to] == slot
            && (forall i :: 0 <= i < |slots| && !(replace && i == to) ==> r[BroughtTo(replace, to, i)] == slots[i])
  {
  }

  lemma RemovedKeeps(slots: seq<Slot>, at: nat, i: nat)
    requires at < |slots| && i < |slots| && i != at
    ensures 0 <= RemovedTo(at, i) < |RemoveAt(slots, at)| && RemoveAt(slots, at)[RemovedTo(at, i)] == slots[i]
  {
  }

  /** One pair: the same, with the ids that shift under both the create and the delete. */
  lemma OthersStayHere(slots: seq<Slot>, replace: bool, from: nat, to: nat, slot: Slot)
    requires from < |slots| && to <= |slots| && (replace ==> to < |slots| && to != from)
    ensures var files, at := RenamedHere(slots, replace, from, to, slot), DeletedId(replace, from, to);
            && 0 <= RemovedTo(at, to) < |files| && files[RemovedTo(at, to)] == slot
            && |files| == |slots| - (if replace then 1 else 0)
            && (forall i :: 0 <= i < |slots| && i != from && !(replace && i == to) ==>
                 0 <= RemovedTo(at, BroughtTo(replace, to, i)) < |files|
                 && files[RemovedTo(at, BroughtTo(replace, to, i))] == slots[i])
  {
    hide RemovedTo, Brought, RemoveAt;
    var files, at := RenamedHere(slots, replace, from, to, slot), DeletedId(replace, from, to);
    var brought := Brought(slots, replace, to, slot);
    BroughtKeeps(slots, replace, to, slot);
    RemovedKeeps(brought, at, to);
    forall i | 0 <= i < |slots| && i != from && !(replace && i == to)
      ensures 0 <= RemovedTo(at, BroughtTo(replace, to, i)) < |files|
              && files[RemovedTo(at, BroughtTo(replace, to, i))] == slots[i]
    {
      RemovedKeeps(brought, at, BroughtTo(replace, to, i));
    }
  }

  /** The file under its new name has all that it had under its old one. */
  lemma NewFileIsOld(log: seq<Entry>, from: nat, to: nat, nameKind: nat, name: seq<byte>)
    requires Compactable(log) && WellFormed(log) && from < |Replay(log).slots|
    requires 0 < nameKind < 0x80
    ensures IsRenamed(log, from, NewSlot(nameKind, to, name, Moved(Compact(OnDisk(log), from, from + 1), to)), to,
                      nameKind, name)
  {
    hide Compact, TagLog.Lookup, At, IsMoved, Replay, WellFormed, Compactable, LastOf, HasAllOf, Live, Moved;
    var e := Entry(Tag(nameKind, to, |name|), name);
    var moved := Moved(Compact(OnDisk(log), from, from + 1), to);
    NoNamesMoved(Compact(OnDisk(log), from, from + 1), to);
    LastOfPrepend(e, moved, But8, TYPE_NAME);
    forall kind: nat | IsMoved(kind)
      ensures Live(LastOf([e] + moved, MaskOf(kind), kind))
           == At(TagLog.Lookup(Replay(log), MaskOf(kind), kind, from), to)
    {
      MovedKinds(kind, nameKind);
      NameIsNotMoved(nameKind);
      LastOfPrepend(e, moved, MaskOf(kind), kind);
      MovedGroup(log, from, to, kind);
    }
    HasEach([e] + moved, Replay(log), from, to);
  }

  lemma NameIsNotMoved(kind: nat)
    requires kind < 0x80
    ensures !IsMoved(kind)
  {
  }

  lemma {:induction false} NoNamesMoved(kept: seq<Entry>, to: nat)
    ensures LastOf(Moved(kept, to), But8, TYPE_NAME) == None
    decreases |kept|
  {
    if kept != [] {
      var e := kept[|kept| - 1];
      NoNamesMoved(kept[..|kept| - 1], to);
      Halves(e.tag.kind);
      LastOfAppend(Moved(kept[..|kept| - 1], to), e.(tag := e.tag.(id := to)), But8, TYPE_NAME);
      assert Moved(kept[..|kept| - 1], to) + [] == Moved(kept[..|kept| - 1], to);
    }
  }

  // ---------- the protocol ----------

  predicate Apart(a: (address, address), b: (address, address)) {
    a.0 != b.0 && a.0 != b.1 && a.1 != b.0 && a.1 != b.1
  }

  lemma MoveElsewhere(g: Gstate, id: nat, a: (address, address), b: (address, address))
    requires id < NO_ID && Apart(a, b)
    ensures !HasMoveHere(PrepMove(g, id, a), b)
  {
  }

  /** The pairs that hold the two names, each with what its log says, and the global state. */
  class Mover {
    const samePair: bool
    const oldPair: (address, address)
    const newPair: (address, address)
    var oldDir: Dir
    var newDir: Dir
    var gstate: Gstate
    var gdisk: Gstate

    // what users saw at every commit boundary
    ghost var seen: seq<View>

    predicate Valid()
      reads this
    {
      && |oldDir.slots| + 1 < NO_ID && |newDir.slots| + 1 < NO_ID
      && (if samePair then newPair == oldPair && newDir == oldDir else Apart(oldPair, newPair))
    }

    function Now(): View
      reads this
    {
      View(VisibleSlots(oldDir, gdisk, oldPair), VisibleSlots(newDir, gdisk, newPair))
    }

    constructor (samePair: bool, oldPair: (address, address), newPair: (address, address), oldDir: Dir, newDir: Dir,
                 g: Gstate)
      requires |oldDir.slots| + 1 < NO_ID && |newDir.slots| + 1 < NO_ID
      requires if samePair then newPair == oldPair && newDir == oldDir else Apart(oldPair, newPair)
      ensures Valid() && this.samePair == samePair && this.oldPair == oldPair && this.newPair == newPair
      ensures this.oldDir == oldDir && this.newDir == newDir && gstate == gdisk == g && seen == []
    {
      this.samePair, this.oldPair, this.newPair, this.oldDir, this.newDir := samePair, oldPair, newPair, oldDir, newDir;
      gstate, gdisk, seen := g, g, [];
    }

    /** lfs_dir_commit to the pair with the new name: the attributes and the global state take effect at once */
    method CommitNew(items: seq<Item>)
      requires CanTakeAll(newDir, items)
      modifies this`oldDir, this`newDir, this`gdisk, this`seen
      ensures newDir == TakeAll(old(newDir), items) && oldDir == if samePair then newDir else old(oldDir)
      ensures gdisk == gstate && seen == old(seen) + [Now()]
    {
      newDir := TakeAll(newDir, items);
      if samePair {
        oldDir := newDir;
      }
      gdisk := gstate;
      seen := seen + [Now()];
    }

    /** lfs_dir_commit to the pair with the old name */
    method CommitOld(items: seq<Item>)
      requires CanTakeAll(oldDir, items)
      modifies this`oldDir, this`newDir, this`gdisk, this`seen
      ensures oldDir == TakeAll(old(oldDir), items) && newDir == if samePair then oldDir else old(newDir)
      ensures gdisk == gstate && seen == old(seen) + [Now()]
    {
      oldDir := TakeAll(oldDir, items);
      if samePair {
        newDir := oldDir;
      }
      gdisk := gstate;
      seen := seen + [Now()];
    }

    /** lfs_fs_demove: finishes a move that was cut short. Users see no difference. */
    method Demove()
      requires Valid() && !samePair && IsValid(gdisk.tag) && gstate == gdisk && |newDir.slots| + 1 < NO_ID
      requires HasMove(gdisk) ==>
                 HasMoveHere(gdisk, oldPair) && !HasMoveHere(gdisk, newPair) && IdOf(gdisk.tag) < |oldDir.slots|
      modifies this`oldDir, this`newDir, this`gstate, this`gdisk, this`seen
      ensures Valid() && gstate == gdisk && !HasMove(gdisk)
      ensures Now() == old(Now()) && forall i :: |old(seen)| <= i < |seen| ==> seen[i] == old(Now())
      ensures old(seen) <= seen
    {
      if !HasMove(gdisk) {
        return;
      }
      // prep gstate and delete move id
      var moveId := IdOf(gdisk.tag);
      PrepMoveClears(gdisk, (0, 0));
      gstate := PrepMove(gstate, NO_ID, (0, 0));
      var items := [Pending(TYPE_DELETE, moveId, [])];
      TakesDeleteOnly(oldDir, moveId);
      CommitOld(items);
    }

    /** A move out of the old pair is noted on disk, and nothing else is pending. */
    ghost predicate Moving(from: nat)
      reads this
    {
      && Valid() && gstate == gdisk && IsValid(gdisk.tag)
      && HasMoveHere(gdisk, oldPair) && !HasMoveHere(gdisk, newPair) && IdOf(gdisk.tag) == from < |oldDir.slots|
    }

    /**
     The first commit of a rename: all attributes get to the new name. With two pairs the move is noted in the same
     commit.
     */
    method FirstCommit(from: nat, to: nat, replace: bool, kind: nat, name: seq<byte>, moved: seq<Entry>)
      requires Valid() && gstate == gdisk && !HasMove(gdisk)
      requires from < |oldDir.slots| && to <= |newDir.slots| && (replace ==> to < |newDir.slots|)
      requires samePair && replace ==> to != from
      requires 0 < kind < 0x80 && |name| < NO_ID && AreOf(moved, to)
      requires |newDir.slots| + 2 < NO_ID
      modifies this`oldDir, this`newDir, this`gstate, this`gdisk, this`seen
      ensures if samePair then Valid() && gstate == gdisk && !HasMove(gdisk) else Moving(from)
      ensures !samePair ==> gdisk == PrepMove(old(gdisk), from, oldPair)
      ensures Now() == Renamed(samePair, old(Now()), replace, from, to, NewSlot(kind, to, name, moved))
              && seen == old(seen) + [Now()]
    {
      hide NewSlot, NameItems, CanTakeAll, TakeAll, IdOf, PrepMove;
      var deletedId := from;
      if !replace && samePair && to <= from {
        // the global update to handle this is a bit messy
        deletedId := from + 1;
      }
      if !samePair {
        PrepMoveSets(gstate, deletedId, oldPair);
        MoveElsewhere(gstate, deletedId, oldPair, newPair);
        gstate := PrepMove(gstate, deletedId, oldPair);
      }
      // move over all attributes
      TakesName(newDir, replace, kind, to, name, moved);
      if samePair {
        TakesNameHere(newDir, replace, kind, to, name, moved, deletedId);
        CommitNew(NameItems(replace, kind, to, name, moved) + [Pending(TYPE_DELETE, deletedId, [])]);
      } else {
        CommitNew(NameItems(replace, kind, to, name, moved));
      }
    }

    /**
     lfs_raw_rename of a regular file, from its name in the old pair to a name that belongs at `to` in the new pair,
     where an entry of that name is replaced if there is one. At every commit boundary users see the file under its new
     name only.
     */
    method Rename(from: nat, to: nat, replace: bool, kind: nat, name: seq<byte>, moved: seq<Entry>)
      requires Valid() && gstate == gdisk && !HasMove(gdisk)
      requires from < |oldDir.slots| && to <= |newDir.slots| && (replace ==> to < |newDir.slots|)
      requires 0 < kind < 0x80 && |name| < NO_ID && AreOf(moved, to)
      requires |newDir.slots| + 2 < NO_ID
      modifies this`oldDir, this`newDir, this`gstate, this`gdisk, this`seen
      ensures Valid() && gstate == gdisk && !HasMove(gdisk)
      ensures samePair && replace && to == from ==> seen == old(seen) && Now() == old(Now())
      ensures !(samePair && replace && to == from) ==>
                var after := Renamed(samePair, old(Now()), replace, from, to, NewSlot(kind, to, name, moved));
                Now() == after && seen == old(seen) + if samePair then [after] else [after, after]
    {
      hide NewSlot, CanTakeAll, TakeAll, IdOf, PrepMove, Renamed;
      if samePair && replace && to == from {
        // we're renaming to ourselves??
        return;
      }
      FirstCommit(from, to, replace, kind, name, moved);
      // let commit clean up after move (if we're different! otherwise move logic already fixed it for us)
      if !samePair && HasMove(gstate) {
        // prep gstate and delete move id
        PrepMoveClears(gstate, (0, 0));
        gstate := PrepMove(gstate, NO_ID, (0, 0));
        TakesDeleteOnly(oldDir, from);
        CommitOld([Pending(TYPE_DELETE, from, [])]);
      }
    }

    /**
     The whole of lfs_raw_rename, with what it takes along from the log of the old pair: whatever could be looked up at
     the old name before is what is looked up at the new name, at every commit boundary and in the end.
     */
    method RenameFile(log: seq<Entry>, from: nat, to: nat, replace: bool, kind: nat, name: seq<byte>)
      requires Valid() && gstate == gdisk && !HasMove(gdisk)
      requires Compactable(log) && WellFormed(log) && oldDir == Replay(log) && CanTraverse(OnDisk(log))
      requires from < |oldDir.slots| && to <= |newDir.slots| && (replace ==> to < |newDir.slots|)
      requires 0 < kind < 0x80 && |name| < NO_ID && |newDir.slots| + 2 < NO_ID
      modifies this`oldDir, this`newDir, this`gstate, this`gdisk, this`seen
      ensures Valid() && gstate == gdisk && !HasMove(gdisk)
      ensures old(seen) <= seen && forall i :: |old(seen)| <= i < |seen| ==> seen[i] == Now()
      ensures samePair && replace && to == from ==> seen == old(seen) && Now() == old(Now())
      ensures !(samePair && replace && to == from) ==>
                var at := NewPlace(samePair, replace, from, to);
                && 0 <= at < |Now().newFiles| && IsRenamed(log, from, Now().newFiles[at], to, kind, name)
                && Now() == Renamed(samePair, old(Now()), replace, from, to, Now().newFiles[at])
    {
      hide NewSlot, CanTraverse, Compactable, WellFormed, Replay, IdOf, PrepMove, Renamed, IsRenamed, AreOf, Compact,
           Moved, NewPlace;
      var moved := TraverseMove(OnDisk(log), from, to);
      ItemsAreProper(OnDisk(log));
      CompactIsValid(OnDisk(log), from, from + 1);
      MovedAreOf(Compact(OnDisk(log), from, from + 1), to);
      NewFileIsOld(log, from, to, kind, name);
      ghost var before, slot := Now(), NewSlot(kind, to, name, moved);
      if !(samePair && replace && to == from) {
        NothingHidden(oldDir, newDir, gdisk, oldPair, newPair);
        RenamedIsThere(samePair, before, replace, from, to, slot);
      }
      Rename(from, to, replace, kind, name, moved);
    }

    /** Mounting after a crash: what the pairs store is put together again, up to the count of orphans. */
    method Remount(mounted: Gstate)
      requires Drop(mounted) == Drop(gdisk)
      modifies this`gstate, this`gdisk
      ensures gstate == gdisk == mounted && Now() == old(Now())
      ensures forall pair: (address, address) :: HasMoveHere(gdisk, pair) == HasMoveHere(old(gdisk), pair)
      ensures HasMove(gdisk) == HasMove(old(gdisk)) && IdOf(gdisk.tag) == IdOf(old(gdisk.tag))
    {
      hide Drop, HasMoveHere, HasMove, IdOf;
      forall pair: (address, address)
        ensures HasMoveHere(mounted, pair) == HasMoveHere(gdisk, pair) && HasMove(mounted) == HasMove(gdisk)
        ensures IdOf(mounted.tag) == IdOf(gdisk.tag)
      {
        DropKeepsMove(mounted, pair);
        DropKeepsMove(gdisk, pair);
      }
      DropKeepsMove(mounted, (0, 0));
      DropKeepsMove(gdisk, (0, 0));
      gstate, gdisk := mounted, mounted;
    }

    /**
     A rename that is cut short after its first commit, the mount that follows, and the repair: users see the rename
     done.
     */
    method CrashedRename(from: nat, to: nat, replace: bool, kind: nat, name: seq<byte>, moved: seq<Entry>,
                         mounted: Gstate)
      requires Valid() && gstate == gdisk && !HasMove(gdisk) && !samePair
      requires from < |oldDir.slots| && to <= |newDir.slots| && (replace ==> to < |newDir.slots|)
      requires 0 < kind < 0x80 && |name| < NO_ID && AreOf(moved, to)
      requires |newDir.slots| + 2 < NO_ID
      requires IsValid(mounted.tag) && Drop(mounted) == Drop(PrepMove(gdisk, from, oldPair))
      modifies this`oldDir, this`newDir, this`gstate, this`gdisk, this`seen
      ensures Valid() && gstate == gdisk && !HasMove(gdisk)
      ensures var after := Renamed(false, old(Now()), replace, from, to, NewSlot(kind, to, name, moved));
              Now() == after && old(seen) <= seen && forall i :: |old(seen)| <= i < |seen| ==> seen[i] == after
    {
      hide NewSlot, IdOf, PrepMove, Drop, Renamed, HasMoveHere;
      FirstCommit(from, to, replace, kind, name, moved);
      Remount(mounted);
      Demove();
    }
  }

  lemma ItemsAreProper(items: seq<Item>)
    requires CanTraverse(items)
    ensures forall i :: 0 <= i < |items| ==> IsProper(items[i])
  {
  }

  /** While no move is pending users see all files. */
  lemma NothingHidden(oldDir: Dir, newDir: Dir, g: Gstate, oldPair: (address, address), newPair: (address, address))
    requires !HasMove(g)
    ensures VisibleSlots(oldDir, g, oldPair) == oldDir.slots && VisibleSlots(newDir, g, newPair) == newDir.slots
  {
  }

  lemma TakesDeleteOnly(d: Dir, id: nat)
    requires id < |d.slots| < NO_ID
    ensures CanTakeAll(d, [Pending(TYPE_DELETE, id, [])])
    ensures TakeAll(d, [Pending(TYPE_DELETE, id, [])]) == Dir(RemoveAt(d.slots, id), d.globals, true)
  {
    hide CanTake, Take;
    TakesDelete(d, id);
    assert [Pending(TYPE_DELETE, id, [])][1..] == [];
  }

  /** Both names in one pair: the old one is deleted in the same commit. */
  lemma TakesNameHere(d: Dir, replace: bool, kind: nat, id: nat, name: seq<byte>, moved: seq<Entry>, deletedId: nat)
    requires id <= |d.slots| && |d.slots| + 1 < NO_ID && (replace ==> id < |d.slots|)
    requires 0 < kind < 0x80 && |name| < NO_ID && AreOf(moved, id)
    requires deletedId < |Brought(d.slots, replace, id, NewSlot(kind, id, name, moved))|
    ensures var items := NameItems(replace, kind, id, name, moved) + [Pending(TYPE_DELETE, deletedId, [])];
            CanTakeAll(d, items)
            && TakeAll(d, items)
               == Dir(RemoveAt(Brought(d.slots, replace, id, NewSlot(kind, id, name, moved)), deletedId), d.globals,
                      true)
  {
    hide CanTakeAll, TakeAll, NameItems, NewSlot, Take, CanTake;
    var d1 := Dir(Brought(d.slots, replace, id, NewSlot(kind, id, name, moved)), d.globals, true);
    TakesName(d, replace, kind, id, name, moved);
    TakesDelete(d1, deletedId);
    TakeAllAppend(d, NameItems(replace, kind, id, name, moved), Pending(TYPE_DELETE, deletedId, []));
  }
}
