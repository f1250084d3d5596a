/**
 Compaction of a metadata pair: the entries that still matter are rewritten into a fresh log.
 One pass over the old log and the pending attributes decides, for every entry, whether a later
 one makes it redundant and which id its file ends up with.
 */
module Compaction {
  import opened Options
  import opened Words
  import opened Tags
  import opened TagLog

  // A pending attribute that was switched off by its caller.
  const FROM_NOOP: nat := 0x000

  /** An entry of the log on disk, or a pending attribute in memory. */
  datatype Item = Item(tag: Tag, data: seq<byte>, disk: bool) {
    function Entry(): Entry { TagLog.Entry(tag, data) }

    predicate IsNoop() { tag.kind == FROM_NOOP }

    /** An entry that belongs to one file. */
    predicate Writes() { !IsNoop() && !IsSplice(tag) && tag.id != NO_ID }
  }

  // ---------- what the items mean ----------

  /** On disk, files may only have been created and deleted at the end: see SplicedLogLosesNames. */
  predicate CanTake(d: Dir, x: Item) {
    && |d.slots| < NO_ID
    && (x.IsNoop() ==> !x.disk)
    && (!x.IsNoop() ==> CanApply(d, x.tag))
    && (x.Writes() ==> IsFileKind(x.tag.kind))
    && (x.tag.id == NO_ID ==> TYPE_SPLICE <= x.tag.kind)
    && (x.disk && x.tag.kind == TYPE_CREATE ==> x.tag.id == |d.slots|)
    && (x.disk && x.tag.kind == TYPE_DELETE ==> x.tag.id + 1 == |d.slots|)
  }

  function Take(d: Dir, x: Item): (r: Dir)
    requires CanTake(d, x)
    ensures |r.slots| < NO_ID
  {
    if x.IsNoop() then d else Apply(d, x.Entry())
  }

  predicate CanTakeAll(d: Dir, items: seq<Item>)
    decreases |items|
  {
    items == [] || (CanTake(d, items[0]) && CanTakeAll(Take(d, items[0]), items[1..]))
  }

  function TakeAll(d: Dir, items: seq<Item>): Dir
    requires CanTakeAll(d, items)
    decreases |items|
  {
    if items == [] then d else TakeAll(Take(d, items[0]), items[1..])
  }

  // ---------- what compaction does ----------

  /** The mask under which an entry replaces earlier ones: name and struct as a class, attributes one by one. */
  function MaskOf(kind: nat): Group {
    if kind / 0x100 % 2 == 1 then Exact else But8
  }

  /** lfs_dir_traverse_filter: what becomes of the tag `f` when the later tag `t` is met. */
  function FilterStep(f: Tag, t: Tag, disk: bool): (r: Option<Tag>)
  {
    if (MaskOf(t.kind).Same(t.kind, f.kind) && t.id == f.id)
       || f.IsDelete()
       || (t.kind == TYPE_DELETE && t.id == f.id) then None
    else if !disk && IsSplice(t) && t.id <= f.id && f.id + t.Splice() >= 0 then
      // the type of an entry read from disk keeps its valid bit, so only attributes in memory shift ids
      Some(f.(id := f.id + t.Splice()))
    else Some(f)
  }

  function Filter(f: Tag, later: seq<Item>): (r: Option<Tag>)
    ensures r.Some? ==> r.value == f.(id := r.value.id)
    decreases |later|
  {
    if later == [] then Some(f)
    else if later[0].IsNoop() then Filter(f, later[1..])
    else
      var r := FilterStep(f, later[0].tag, later[0].disk);
      if r.None? then None else Filter(r.value, later[1..])
  }

  /** What one item contributes to the compacted log of the ids in [begin, end). */
  function Kept(x: Item, later: seq<Item>, begin: nat, end: nat): seq<Entry> {
    if x.IsNoop() || x.tag.kind >= TYPE_SPLICE then []
    else
      var r := Filter(x.tag, later);
      if r.Some? && begin <= r.value.id < end then [Entry(r.value.(id := r.value.id - begin), x.data)] else []
  }

  function Compact(items: seq<Item>, begin: nat, end: nat): seq<Entry> {
    if items == [] then [] else Kept(items[0], items[1..], begin, end) + Compact(items[1..], begin, end)
  }

  predicate AllNoops(items: seq<Item>) {
    forall i :: 0 <= i < |items| ==> items[i].IsNoop()
  }

  /** An entry that removes something is itself removed by whatever follows it. */
  lemma {:induction false} DeletionIsFiltered(f: Tag, later: seq<Item>)
    requires f.IsDelete()
    ensures Filter(f, later) == if AllNoops(later) then Some(f) else None
    decreases |later|
  {
    if later != [] && later[0].IsNoop() {
      DeletionIsFiltered(f, later[1..]);
      assert AllNoops(later) <==> AllNoops(later[1..]) by {
        assert forall i :: 0 < i < |later| ==> later[i] == later[1..][i - 1];
      }
    }
  }

  /** An item that removes something of a file begin..end, with nothing after it. */
  predicate RemovesLast(items: seq<Item>, i: nat, begin: nat, end: nat) {
    && i < |items| && !items[i].IsNoop() && items[i].tag.kind < TYPE_SPLICE && items[i].tag.IsDelete()
    && begin <= items[i].tag.id < end && AllNoops(items[i + 1..])
  }

  predicate Removes(entries: seq<Entry>) {
    exists k :: 0 <= k < |entries| && entries[k].tag.IsDelete()
  }

  lemma RemovesConcat(a: seq<Entry>, b: seq<Entry>)
    ensures Removes(a + b) <==> Removes(a) || Removes(b)
  {
    if k :| 0 <= k < |a| && a[k].tag.IsDelete() {
      assert (a + b)[k] == a[k];
    }
    if k :| 0 <= k < |b| && b[k].tag.IsDelete() {
      assert (a + b)[|a| + k] == b[k];
    }
  }

  lemma RemovesLastLater(items: seq<Item>, i: nat, begin: nat, end: nat)
    requires items != []
    ensures RemovesLast(items, i + 1, begin, end) <==> RemovesLast(items[1..], i, begin, end)
  {
    if i + 1 < |items| {
      assert items[i + 2..] == items[1..][i + 1..];
    }
  }

  lemma RemovalOfFirst(items: seq<Item>, begin: nat, end: nat)
    requires items != []
    ensures Removes(Kept(items[0], items[1..], begin, end)) <==> RemovesLast(items, 0, begin, end)
  {
    var x, later := items[0], items[1..];
    if x.tag.IsDelete() {
      DeletionIsFiltered(x.tag, later);
    }
    if RemovesLast(items, 0, begin, end) {
      assert Kept(x, later, begin, end)[0].tag.IsDelete();
    }
  }

  /** Removals do not last: a compacted log has one if and only if it was the very last thing to happen. */
  lemma {:induction false} RemovalIsKeptIffLast(items: seq<Item>, begin: nat, end: nat)
    ensures Removes(Compact(items, begin, end)) <==> exists i :: RemovesLast(items, i, begin, end)
    decreases |items|
  {
    if items != [] {
      hide Filter, AllNoops, Removes, Kept;
      var x, later := items[0], items[1..];
      RemovalIsKeptIffLast(later, begin, end);
      RemovesConcat(Kept(x, later, begin, end), Compact(later, begin, end));
      RemovalOfFirst(items, begin, end);
      if i: nat :| RemovesLast(items, i, begin, end) && i > 0 {
        RemovesLastLater(items, i - 1, begin, end);
      }
      if i: nat :| RemovesLast(later, i, begin, end) {
        RemovesLastLater(items, i, begin, end);
      }
    }
  }

  // ---------- following a file through the items ----------

  /** The id, before the items, of the file that has id j after them; None if it did not exist. */
  function Origin(d: Dir, items: seq<Item>, j: nat): (r: Option<nat>)
    requires CanTakeAll(d, items)
    requires j < |TakeAll(d, items).slots|
    ensures r.Some? ==> r.value < |d.slots|
    decreases |items|
  {
    if items == [] then Some(j)
    else
      var r := Origin(Take(d, items[0]), items[1..], j);
      if r.None? then None else OriginOne(d, items[0], r.value)
  }

  function OriginOne(d: Dir, x: Item, i: nat): (r: Option<nat>)
    requires CanTake(d, x) && i < |Take(d, x).slots|
    ensures r.Some? ==> r.value < |d.slots|
  {
    if x.IsNoop() then Some(i)
    else if x.tag.kind == TYPE_CREATE && x.tag.id == i then None
    else if OlderId(x.tag, i) < |d.slots| then Some(OlderId(x.tag, i))
    else None
  }

  /** What the items write to the file that has id j after them. */
  function Written(d: Dir, items: seq<Item>, j: nat): Slot
    requires CanTakeAll(d, items)
    requires j < |TakeAll(d, items).slots|
    decreases |items|
  {
    if items == [] then []
    else
      var x, d1 := items[0], Take(d, items[0]);
      var rest := Written(d1, items[1..], j);
      if x.Writes() && Origin(d1, items[1..], j) == Some(x.tag.id) then [x.Entry()] + rest else rest
  }

  function SlotOf(d: Dir, i: Option<nat>): Slot
    requires i.Some? ==> i.value < |d.slots|
  {
    if i.Some? then d.slots[i.value] else []
  }

  lemma TakeOne(d: Dir, x: Item, i: nat)
    requires CanTake(d, x) && i < |Take(d, x).slots|
    ensures Take(d, x).slots[i] == SlotOf(d, OriginOne(d, x, i)) + if x.Writes() && i == x.tag.id then [x.Entry()]
              else []
  {
    if x.Writes() && i == x.tag.id && i >= |d.slots| {
      assert Grow(d.slots, i + 1)[i] == [];
    }
  }

  /** Taking the first item, and then the rest. */
  lemma TakeRest(d: Dir, items: seq<Item>)
    requires CanTakeAll(d, items) && items != []
    ensures CanTake(d, items[0]) && CanTakeAll(Take(d, items[0]), items[1..])
    ensures TakeAll(d, items) == TakeAll(Take(d, items[0]), items[1..])
  {
  }

  lemma NoHistory(d: Dir, j: nat)
    requires CanTakeAll(d, []) && j < |TakeAll(d, []).slots|
    ensures TakeAll(d, []) == d && SlotOf(d, Origin(d, [], j)) + Written(d, [], j) == d.slots[j]
  {
  }

  /** After the items a file holds what it held before and then what they wrote to it. */
  lemma {:induction false} History(d: Dir, items: seq<Item>, j: nat)
    requires CanTakeAll(d, items)
    requires j < |TakeAll(d, items).slots|
    ensures TakeAll(d, items).slots[j] == SlotOf(d, Origin(d, items, j)) + Written(d, items, j)
    decreases |items|
  {
    hide CanTake, OriginOne, Take, CanTakeAll, TakeAll;
    if items == [] {
      NoHistory(d, j);
    } else {
      TakeRest(d, items);
      var x, d1 := items[0], Take(d, items[0]);
      History(d1, items[1..], j);
      var r := Origin(d1, items[1..], j);
      if r.Some? {
        TakeOne(d, x, r.value);
      }
    }
  }

  lemma OriginOneUnique(d: Dir, x: Item, i: nat, i': nat)
    requires CanTake(d, x) && i < |Take(d, x).slots| && i' < |Take(d, x).slots|
    requires OriginOne(d, x, i).Some? && OriginOne(d, x, i) == OriginOne(d, x, i')
    ensures i == i'
  {
  }

  lemma {:induction false} OriginUnique(d: Dir, items: seq<Item>, j: nat, j': nat)
    requires CanTakeAll(d, items)
    requires j < |TakeAll(d, items).slots| && j' < |TakeAll(d, items).slots|
    requires Origin(d, items, j).Some? && Origin(d, items, j) == Origin(d, items, j')
    ensures j == j'
    decreases |items|
  {
    if items != [] {
      var d1 := Take(d, items[0]);
      OriginOneUnique(d, items[0], Origin(d1, items[1..], j).value, Origin(d1, items[1..], j').value);
      OriginUnique(d1, items[1..], j, j');
    }
  }

  lemma LastOfPrepend(e: Entry, slot: Slot, group: Group, kind: nat)
    ensures LastOf([e] + slot, group, kind)
         == if LastOf(slot, group, kind).Some? then LastOf(slot, group, kind)
            else if group.Same(e.tag.kind, kind) then Some(e) else None
    decreases |slot|
  {
    if slot != [] {
      LastOfPrepend(e, slot[..|slot| - 1], group, kind);
      assert ([e] + slot)[..|slot|] == [e] + slot[..|slot| - 1];
    }
  }

  // ---------- the filter follows a file ----------

  lemma {:induction false} LastOfSameKey(slot: Slot, kind: nat, kind': nat)
    requires MaskOf(kind) == MaskOf(kind') && MaskOf(kind).Same(kind, kind')
    ensures LastOf(slot, MaskOf(kind), kind) == LastOf(slot, MaskOf(kind'), kind')
    decreases |slot|
  {
    if slot != [] {
      LastOfSameKey(slot[..|slot| - 1], kind, kind');
    }
  }

  lemma SameMask(kind: nat, kind': nat)
    requires IsFileKind(kind) && IsFileKind(kind')
    ensures MaskOf(kind').Same(kind', kind) <==> MaskOf(kind).Same(kind', kind)
    ensures MaskOf(kind).Same(kind', kind) ==> MaskOf(kind) == MaskOf(kind')
  {
  }

  lemma FilterOne(t: Tag, d: Dir, x: Item)
    requires CanTake(d, x) && !x.IsNoop() && t.id < |d.slots| && IsFileKind(t.kind)
    ensures FilterStep(t, x.tag, x.disk).Some? ==>
              var t' := FilterStep(t, x.tag, x.disk).value;
              t'.id < |Take(d, x).slots| && OriginOne(d, x, t'.id) == Some(t.id)
              && !(x.Writes() && t'.id == x.tag.id && MaskOf(t.kind).Same(x.tag.kind, t.kind))
    ensures FilterStep(t, x.tag, x.disk).None? && !t.IsDelete() ==>
              (x.tag.kind == TYPE_DELETE && x.tag.id == t.id)
              || (x.Writes() && x.tag.id == t.id && MaskOf(t.kind).Same(x.tag.kind, t.kind))
  {
    if x.Writes() {
      SameMask(t.kind, x.tag.kind);
    }
    ApplyCount(d, x.Entry());
  }

  /** An entry that survives ends up at the id of its file, and nothing later replaced it. */
  lemma {:induction false} SurvivorIsLast(t: Tag, d: Dir, later: seq<Item>)
    requires CanTakeAll(d, later) && t.id < |d.slots| && IsFileKind(t.kind)
    requires Filter(t, later).Some?
    ensures var j := Filter(t, later).value.id;
            j < |TakeAll(d, later).slots|
            && Origin(d, later, j) == Some(t.id)
            && LastOf(Written(d, later, j), MaskOf(t.kind), t.kind) == None
    decreases |later|
  {
    if later != [] {
      var x, d1 := later[0], Take(d, later[0]);
      if x.IsNoop() {
        SurvivorIsLast(t, d1, later[1..]);
      } else {
        FilterOne(t, d, x);
        var t' := FilterStep(t, x.tag, x.disk).value;
        SurvivorIsLast(t', d1, later[1..]);
        var j := Filter(t, later).value.id;
        if x.Writes() && t'.id == x.tag.id {
          LastOfPrepend(x.Entry(), Written(d1, later[1..], j), MaskOf(t.kind), t.kind);
        }
      }
    }
  }

  /** An entry is only dropped for a later one that replaces it, or with its file. */
  lemma {:induction false} DroppedIsReplaced(t: Tag, d: Dir, later: seq<Item>, j: nat)
    requires CanTakeAll(d, later) && t.id < |d.slots| && IsFileKind(t.kind) && !t.IsDelete()
    requires Filter(t, later).None?
    requires j < |TakeAll(d, later).slots| && Origin(d, later, j) == Some(t.id)
    ensures LastOf(Written(d, later, j), MaskOf(t.kind), t.kind).Some?
    decreases |later|
  {
    var x, d1 := later[0], Take(d, later[0]);
    if x.IsNoop() {
      DroppedIsReplaced(t, d1, later[1..], j);
    } else {
      FilterOne(t, d, x);
      var i := Origin(d1, later[1..], j).value;
      if x.Writes() && i == x.tag.id {
        LastOfPrepend(x.Entry(), Written(d1, later[1..], j), MaskOf(t.kind), t.kind);
      }
      var r := FilterStep(t, x.tag, x.disk);
      if r.Some? {
        OriginOneUnique(d, x, i, r.value.id);
        DroppedIsReplaced(r.value, d1, later[1..], j);
      }
    }
  }

  // ---------- compaction keeps the meaning ----------

  /** Walking back through a log without splices: the last entry for the id, whether it sets or deletes. */
  function LastFor(log: seq<Entry>, group: Group, kind: nat, id: nat): Option<Entry>
    decreases |log|
  {
    if log == [] then None
    else
      var e := log[|log| - 1];
      if e.tag.id == id && group.Same(e.tag.kind, kind) then Some(e) else LastFor(log[..|log| - 1], group, kind, id)
  }

  lemma {:induction false} LastForConcat(a: seq<Entry>, b: seq<Entry>, group: Group, kind: nat, id: nat)
    ensures LastFor(a + b, group, kind, id)
         == if LastFor(b, group, kind, id).Some? then LastFor(b, group, kind, id) else LastFor(a, group, kind, id)
    decreases |b|
  {
    if b == [] {
      assert a + b == a;
    } else {
      LastForConcat(a, b[..|b| - 1], group, kind, id);
      assert (a + b)[..|a + b| - 1] == a + b[..|b| - 1];
    }
  }

  /** The first item writes, in the asked group, to the file that ends up with id j. */
  predicate WritesFor(x: Item, d1: Dir, later: seq<Item>, kind: nat, j: nat)
    requires CanTakeAll(d1, later) && j < |TakeAll(d1, later).slots|
  {
    x.Writes() && Origin(d1, later, j) == Some(x.tag.id) && MaskOf(kind).Same(x.tag.kind, kind)
  }

  /** The last entry of the asked kind among what the items write to a file, one item at a time. */
  lemma WrittenStep(d: Dir, items: seq<Item>, kind: nat, j: nat)
    requires CanTakeAll(d, items) && items != [] && j < |TakeAll(d, items).slots|
    ensures var x, d1, rest :=
              items[0], Take(d, items[0]), LastOf(Written(Take(d, items[0]), items[1..], j), MaskOf(kind), kind);
            LastOf(Written(d, items, j), MaskOf(kind), kind)
            == if rest.Some? then rest else if WritesFor(x, d1, items[1..], kind, j) then Some(x.Entry()) else None
  {
    var x, d1 := items[0], Take(d, items[0]);
    LastOfPrepend(x.Entry(), Written(d1, items[1..], j), MaskOf(kind), kind);
  }

  lemma CompactStep(items: seq<Item>, group: Group, kind: nat, id: nat, begin: nat, end: nat)
    requires items != []
    ensures var rest := LastFor(Compact(items[1..], begin, end), group, kind, id);
            LastFor(Compact(items, begin, end), group, kind, id)
            == if rest.Some? then rest else LastFor(Kept(items[0], items[1..], begin, end), group, kind, id)
  {
    LastForConcat(Kept(items[0], items[1..], begin, end), Compact(items[1..], begin, end), group, kind, id);
  }

  /** What was kept under an id stands for the last entry written: it is the same entry, or both delete. */
  predicate Stands(kept: Option<Entry>, last: Option<Entry>, id: nat) {
    Live(kept) == At(Live(last), id) && (last == None ==> kept == None)
  }

  lemma StandsStep(all: Option<Entry>, kept: Option<Entry>, here: Option<Entry>,
                   allLast: Option<Entry>, last: Option<Entry>, writes: bool, e: Entry, id: nat)
    requires all == if kept.Some? then kept else here
    requires allLast == if last.Some? then last else if writes then Some(e) else None
    requires Stands(kept, last, id)
    requires if writes && last == None then Live(here) == At(Live(Some(e)), id) else here == None
    ensures Stands(all, allLast, id)
  {
  }

  /** A file that an item writes to is there then. */
  lemma FirstWrites(d: Dir, x: Item)
    requires CanTake(d, x)
    ensures x.Writes() ==> x.tag.id < |Take(d, x).slots| && IsFileKind(x.tag.kind)
    ensures x.tag.id == NO_ID ==> TYPE_SPLICE <= x.tag.kind
  {
  }

  lemma NothingStands(d: Dir, items: seq<Item>, kind: nat, j: nat, begin: nat, end: nat)
    requires items == [] && CanTakeAll(d, items) && j < |TakeAll(d, items).slots| && begin <= j
    ensures Stands(LastFor(Compact(items, begin, end), MaskOf(kind), kind, j - begin),
                   LastOf(Written(d, items, j), MaskOf(kind), kind), j - begin)
  {
  }

  lemma {:induction false} CompactedSlot(d: Dir, items: seq<Item>, kind: nat, j: nat, begin: nat, end: nat)
    requires CanTakeAll(d, items) && IsFileKind(kind)
    requires j < |TakeAll(d, items).slots| && begin <= j < end
    ensures Stands(LastFor(Compact(items, begin, end), MaskOf(kind), kind, j - begin),
                   LastOf(Written(d, items, j), MaskOf(kind), kind), j - begin)
    decreases |items|
  {
    hide *;
    if items == [] {
      NothingStands(d, items, kind, j, begin, end);
    } else {
      TakeRest(d, items);
      CompactedSlot(Take(d, items[0]), items[1..], kind, j, begin, end);
      FirstStands(d, items, kind, j, begin, end);
    }
  }

  /** Two entries of which one replaces the other: names of a file, structs of a file, one of its user attributes. */
  predicate Replaces(t: Tag, t': Tag) {
    t.id == t'.id && (t.kind == t'.kind || (t.kind / 0x100 == t'.kind / 0x100 && t.kind / 0x100 != 3))
  }

  lemma {:induction false} LastForFinds(log: seq<Entry>, group: Group, kind: nat, id: nat, k: nat)
    requires k < |log| && log[k].tag.id == id && group.Same(log[k].tag.kind, kind)
    ensures LastFor(log, group, kind, id).Some?
    decreases |log|
  {
    if k < |log| - 1 {
      LastForFinds(log[..|log| - 1], group, kind, id, k);
    }
  }

  /** Nothing that is rewritten after an entry that was kept replaces it. */
  lemma KeptIsNotReplaced(d: Dir, x: Item, later: seq<Item>, begin: nat, end: nat, k: nat)
    requires CanTake(d, x) && CanTakeAll(Take(d, x), later)
    requires Kept(x, later, begin, end) != [] && k < |Compact(later, begin, end)|
    ensures !Replaces(Kept(x, later, begin, end)[0].tag, Compact(later, begin, end)[k].tag)
  {
    hide Filter, TakeAll, CanTakeAll, Compact, Stands;
    var t, t', j := Kept(x, later, begin, end)[0].tag, Compact(later, begin, end)[k].tag, Filter(x.tag, later).value.id;
    FirstWrites(d, x);
    SurvivorIsLast(x.tag, Take(d, x), later);
    CompactedSlot(Take(d, x), later, x.tag.kind, j, begin, end);
    NothingStandsForNothing(LastFor(Compact(later, begin, end), MaskOf(x.tag.kind), x.tag.kind, j - begin), j - begin);
    if Replaces(t, t') {
      LastForFinds(Compact(later, begin, end), MaskOf(x.tag.kind), x.tag.kind, j - begin, k);
    }
  }

  lemma NothingStandsForNothing(kept: Option<Entry>, id: nat)
    ensures Stands(kept, None, id) ==> kept == None
  {
  }

  /** A compacted log has one name, one struct and one entry of each user attribute for a file. */
  lemma {:induction false} NothingTwice(d: Dir, items: seq<Item>, begin: nat, end: nat, i: nat, k: nat)
    requires CanTakeAll(d, items) && i < k < |Compact(items, begin, end)|
    ensures !Replaces(Compact(items, begin, end)[i].tag, Compact(items, begin, end)[k].tag)
    decreases |items|
  {
    hide Kept, Take, CanTake, Replaces;
    var x, later := items[0], items[1..];
    var first := Kept(x, later, begin, end);
    AtMostOne(x, later, begin, end);
    if |first| <= i {
      NothingTwice(Take(d, x), later, begin, end, i - |first|, k - |first|);
    } else {
      KeptIsNotReplaced(d, x, later, begin, end, k - 1);
    }
  }

  lemma AtMostOne(x: Item, later: seq<Item>, begin: nat, end: nat)
    ensures |Kept(x, later, begin, end)| <= 1
  {
  }

  lemma FirstStands(d: Dir, items: seq<Item>, kind: nat, j: nat, begin: nat, end: nat)
    requires CanTakeAll(d, items) && IsFileKind(kind) && items != []
    requires j < |TakeAll(d, items).slots| && begin <= j < end
    requires CanTake(d, items[0]) && CanTakeAll(Take(d, items[0]), items[1..])
    requires j < |TakeAll(Take(d, items[0]), items[1..]).slots|
    requires Stands(LastFor(Compact(items[1..], begin, end), MaskOf(kind), kind, j - begin),
                    LastOf(Written(Take(d, items[0]), items[1..], j), MaskOf(kind), kind), j - begin)
    ensures Stands(LastFor(Compact(items, begin, end), MaskOf(kind), kind, j - begin),
                   LastOf(Written(d, items, j), MaskOf(kind), kind), j - begin)
  {
    hide *;
    var here, writes := FirstItem(d, items, kind, j, begin, end);
    StandsStep(LastFor(Compact(items, begin, end), MaskOf(kind), kind, j - begin),
               LastFor(Compact(items[1..], begin, end), MaskOf(kind), kind, j - begin), here,
               LastOf(Written(d, items, j), MaskOf(kind), kind),
               LastOf(Written(Take(d, items[0]), items[1..], j), MaskOf(kind), kind), writes, items[0].Entry(),
               j - begin);
  }

  /** What the first item adds to what is kept, and to what is written. */
  lemma FirstItem(d: Dir, items: seq<Item>, kind: nat, j: nat, begin: nat, end: nat)
    returns (here: Option<Entry>, writes: bool)
    requires CanTakeAll(d, items) && IsFileKind(kind) && items != []
    requires j < |TakeAll(d, items).slots| && begin <= j < end
    ensures var kept := LastFor(Compact(items[1..], begin, end), MaskOf(kind), kind, j - begin);
            LastFor(Compact(items, begin, end), MaskOf(kind), kind, j - begin) == if kept.Some? then kept else here
    ensures var last := LastOf(Written(Take(d, items[0]), items[1..], j), MaskOf(kind), kind);
            && LastOf(Written(d, items, j), MaskOf(kind), kind)
               == (if last.Some? then last else if writes then Some(items[0].Entry()) else None)
            && if writes && last == None then Live(here) == At(Live(Some(items[0].Entry())), j - begin)
                 else here == None
  {
    hide Written, Compact, Kept, LastFor, LastOf, Live, At, Origin, CanTake, CanTakeAll, TakeAll, IsFileKind, MaskOf,
         Take;
    TakeRest(d, items);
    FirstWrites(d, items[0]);
    WrittenStep(d, items, kind, j);
    CompactStep(items, MaskOf(kind), kind, j - begin, begin, end);
    KeptSlot(Take(d, items[0]), items[0], items[1..], kind, j, begin, end);
    here := LastFor(Kept(items[0], items[1..], begin, end), MaskOf(kind), kind, j - begin);
    writes := WritesFor(items[0], Take(d, items[0]), items[1..], kind, j);
  }

  /**
   What one entry contributes to the file with final id j: itself if it is the last of its kind there, else nothing.
   */
  lemma KeptSlot(d1: Dir, x: Item, later: seq<Item>, kind: nat, j: nat, begin: nat, end: nat)
    requires CanTakeAll(d1, later) && IsFileKind(kind)
    requires x.Writes() ==> x.tag.id < |d1.slots| && IsFileKind(x.tag.kind)
    requires x.tag.id == NO_ID ==> TYPE_SPLICE <= x.tag.kind
    requires j < |TakeAll(d1, later).slots| && begin <= j < end
    ensures var kept := LastFor(Kept(x, later, begin, end), MaskOf(kind), kind, j - begin);
            if WritesFor(x, d1, later, kind, j) && LastOf(Written(d1, later, j), MaskOf(kind), kind) == None
            then Live(kept) == At(Live(Some(x.Entry())), j - begin)
            else kept == None
  {
    var kept := Kept(x, later, begin, end);
    if x.Writes() {
      SameMask(kind, x.tag.kind);
      if MaskOf(kind).Same(x.tag.kind, kind) {
        LastOfSameKey(Written(d1, later, j), kind, x.tag.kind);
      }
      if Filter(x.tag, later).Some? {
        SurvivorIsLast(x.tag, d1, later);
        var f := Filter(x.tag, later).value;
        if Origin(d1, later, j) == Some(x.tag.id) {
          OriginUnique(d1, later, j, f.id);
        }
      } else if Origin(d1, later, j) == Some(x.tag.id) && !x.tag.IsDelete() {
        DroppedIsReplaced(x.tag, d1, later, j);
      }
    }
  }

  /** A compacted log has no splices, so looking back through it is finding the last entry for the id. */
  predicate Plain(log: seq<Entry>) {
    forall i :: 0 <= i < |log| ==> !IsSplice(log[i].tag)
  }

  lemma {:induction false} CompactIsPlain(items: seq<Item>, begin: nat, end: nat)
    ensures Plain(Compact(items, begin, end))
    decreases |items|
  {
    if items != [] {
      CompactIsPlain(items[1..], begin, end);
    }
  }

  lemma {:induction false} LookBackPlain(log: seq<Entry>, group: Group, kind: nat, id: nat)
    requires Plain(log)
    ensures LookBack(log, group, kind, id) == Live(LastFor(log, group, kind, id))
    decreases |log|
  {
    if log != [] {
      assert log[|log| - 1] in log;
      LookBackPlain(log[..|log| - 1], group, kind, id);
    }
  }

  lemma SlotIsWritten(items: seq<Item>, id: nat)
    requires CanTakeAll(EMPTY_DIR, items) && id < |TakeAll(EMPTY_DIR, items).slots|
    ensures TakeAll(EMPTY_DIR, items).slots[id] == Written(EMPTY_DIR, items, id)
  {
    History(EMPTY_DIR, items, id);
    assert [] + Written(EMPTY_DIR, items, id) == Written(EMPTY_DIR, items, id);
  }

  /** One group of types is at least as fine as another. */
  predicate Finer(group: Group, than: Group) {
    group == than || than == But8 || group == Exact
  }

  lemma FinerSame(group: Group, than: Group, kind: nat, kind': nat)
    requires Finer(group, than) && group.Same(kind, kind')
    ensures than.Same(kind, kind')
  {
    TwiceHalf(kind);
    TwiceHalf(kind');
  }

  lemma TwiceHalf(kind: nat)
    ensures kind / 0x100 == kind / 0x80 / 2
  {
  }

  /** The entry, if the asked group has it. */
  function Narrow(e: Option<Entry>, group: Group, kind: nat): Option<Entry> {
    if e.Some? && group.Same(e.value.tag.kind, kind) then e else None
  }

  lemma {:induction false} LastOfNarrow(slot: Slot, group: Group, kind: nat)
    requires Finer(group, MaskOf(kind))
    ensures LastOf(slot, MaskOf(kind), kind) == None ==> LastOf(slot, group, kind) == None
    ensures Narrow(LastOf(slot, MaskOf(kind), kind), group, kind).Some? ==>
              LastOf(slot, group, kind) == LastOf(slot, MaskOf(kind), kind)
    decreases |slot|
  {
    if slot != [] {
      var e := slot[|slot| - 1];
      if group.Same(e.tag.kind, kind) {
        FinerSame(group, MaskOf(kind), e.tag.kind, kind);
      }
      LastOfNarrow(slot[..|slot| - 1], group, kind);
    }
  }

  lemma KeptNarrow(x: Item, later: seq<Item>, begin: nat, end: nat, group: Group, kind: nat, id: nat)
    requires Finer(group, MaskOf(kind))
    ensures var kept := Kept(x, later, begin, end);
            LastFor(kept, group, kind, id) == Narrow(LastFor(kept, MaskOf(kind), kind, id), group, kind)
  {
    hide Filter;
    var kept := Kept(x, later, begin, end);
    if kept != [] && group.Same(kept[0].tag.kind, kind) {
      FinerSame(group, MaskOf(kind), kept[0].tag.kind, kind);
    }
  }

  /** Of a file and a class of types at most one entry is kept, so a finer group has that entry or nothing. */
  lemma {:induction false} CompactedGroup(d: Dir, items: seq<Item>, group: Group, kind: nat, j: nat, begin: nat,
                                          end: nat)
    requires CanTakeAll(d, items) && IsFileKind(kind) && Finer(group, MaskOf(kind))
    requires j < |TakeAll(d, items).slots| && begin <= j < end
    ensures LastFor(Compact(items, begin, end), group, kind, j - begin)
         == Narrow(LastFor(Compact(items, begin, end), MaskOf(kind), kind, j - begin), group, kind)
    decreases |items|
  {
    if items != [] {
      hide Compact, Written, LastFor, LastOf, Live, At, Origin, Kept, CanTake, CanTakeAll, TakeAll, IsFileKind, MaskOf,
           Take, Finer;
      TakeRest(d, items);
      FirstWrites(d, items[0]);
      var d1, id := Take(d, items[0]), j - begin;
      CompactedGroup(d1, items[1..], group, kind, j, begin, end);
      CompactedSlot(d1, items[1..], kind, j, begin, end);
      CompactStep(items, group, kind, id, begin, end);
      CompactStep(items, MaskOf(kind), kind, id, begin, end);
      KeptSlot(d1, items[0], items[1..], kind, j, begin, end);
      KeptNarrow(items[0], items[1..], begin, end, group, kind, id);
    } else {
      assert Compact(items, begin, end) == [];
    }
  }

  lemma LookBackCompact(items: seq<Item>, group: Group, kind: nat, id: nat, begin: nat, end: nat)
    returns (found: Option<Entry>, kept: Option<Entry>)
    ensures found == LookBack(Compact(items, begin, end), group, kind, id)
    ensures kept == LastFor(Compact(items, begin, end), group, kind, id)
    ensures found == Live(kept)
  {
    CompactIsPlain(items, begin, end);
    LookBackPlain(Compact(items, begin, end), group, kind, id);
    found, kept :=
      LookBack(Compact(items, begin, end), group, kind, id), LastFor(Compact(items, begin, end), group, kind, id);
  }

  lemma StandsNarrow(kept: Option<Entry>, last: Option<Entry>, group: Group, kind: nat, id: nat)
    requires Stands(kept, last, id)
    ensures Live(Narrow(kept, group, kind)) == At(Live(Narrow(last, group, kind)), id)
  {
  }

  /** Looking anything up in the compacted log finds the last entry of its class, if the asked group has it. */
  lemma CompactedLookup(items: seq<Item>, group: Group, kind: nat, id: nat, begin: nat, end: nat)
    requires CanTakeAll(EMPTY_DIR, items) && IsFileKind(kind) && Finer(group, MaskOf(kind))
    requires begin <= id < end && id < |TakeAll(EMPTY_DIR, items).slots|
    ensures LookBack(Compact(items, begin, end), group, kind, id - begin)
         == At(Live(Narrow(LastOf(TakeAll(EMPTY_DIR, items).slots[id], MaskOf(kind), kind), group, kind)), id - begin)
  {
    hide TakeAll, CanTakeAll, Compact, Written, LookBack, LastFor, LastOf, Live, At, Narrow, Stands;
    var found, kept := LookBackCompact(items, group, kind, id - begin, begin, end);
    CompactedSlot(EMPTY_DIR, items, kind, id, begin, end);
    CompactedGroup(EMPTY_DIR, items, group, kind, id, begin, end);
    SlotIsWritten(items, id);
    StandsNarrow(LastFor(Compact(items, begin, end), MaskOf(kind), kind, id - begin),
                 LastOf(Written(EMPTY_DIR, items, id), MaskOf(kind), kind), group, kind, id - begin);
  }

  /** What the group asks for is not hidden behind a later entry of the same class. */
  predicate Shows(slot: Slot, group: Group, kind: nat) {
    var last := LastOf(slot, MaskOf(kind), kind);
    last.None? || group.Same(last.value.tag.kind, kind) || Live(LastOf(slot, group, kind)) == None
  }

  /**
   Compaction preserves meaning: for every id that is kept, looking anything up in the compacted log finds
   what the old log followed by the pending attributes says, renumbered, exactly unless what was asked for is
   hidden behind a later entry of its class.
   */
  lemma CompactionPreservesMeaning(items: seq<Item>, group: Group, kind: nat, id: nat, begin: nat, end: nat)
    requires CanTakeAll(EMPTY_DIR, items) && IsFileKind(kind) && Finer(group, MaskOf(kind))
    requires begin <= id < end && id < |TakeAll(EMPTY_DIR, items).slots|
    ensures LookBack(Compact(items, begin, end), group, kind, id - begin)
            == At(Lookup(TakeAll(EMPTY_DIR, items), group, kind, id), id - begin)
       <==> Shows(TakeAll(EMPTY_DIR, items).slots[id], group, kind)
  {
    hide TakeAll, CanTakeAll, Compact, LookBack, LastOf;
    CompactedLookup(items, group, kind, id, begin, end);
    LastOfNarrow(TakeAll(EMPTY_DIR, items).slots[id], group, kind);
  }

  /** Names and structs looked up as a class, and user attributes, are never hidden. */
  lemma ClassShows(slot: Slot, kind: nat)
    ensures Shows(slot, MaskOf(kind), kind)
  {
    LastOfGroup(slot, MaskOf(kind), kind);
  }

  lemma {:induction false} LastOfGroup(slot: Slot, group: Group, kind: nat)
    ensures LastOf(slot, group, kind).Some? ==> group.Same(LastOf(slot, group, kind).value.tag.kind, kind)
    decreases |slot|
  {
    if slot != [] {
      LastOfGroup(slot[..|slot| - 1], group, kind);
    }
  }

  /** The class lookups that the file system makes of files find in the compacted log what they should. */
  lemma CompactionPreservesClasses(items: seq<Item>, kind: nat, id: nat, begin: nat, end: nat)
    requires CanTakeAll(EMPTY_DIR, items) && IsFileKind(kind)
    requires begin <= id < end && id < |TakeAll(EMPTY_DIR, items).slots|
    ensures LookBack(Compact(items, begin, end), MaskOf(kind), kind, id - begin)
         == At(Lookup(TakeAll(EMPTY_DIR, items), MaskOf(kind), kind, id), id - begin)
  {
    hide TakeAll, CanTakeAll, Compact, LookBack, LastOf, Lookup, At, Shows;
    ClassShows(TakeAll(EMPTY_DIR, items).slots[id], kind);
    CompactionPreservesMeaning(items, MaskOf(kind), kind, id, begin, end);
  }

  lemma MasksOfFiles(kind: nat)
    requires IsFileKind(kind)
    ensures MaskOf(kind) == if kind < 0x300 then But8 else Exact
  {
  }

  /** Names and structs are found as a class, and each of the 256 user attributes by itself, as before. */
  lemma CompactionPreservesFiles(items: seq<Item>, kind: nat, id: nat, begin: nat, end: nat)
    requires CanTakeAll(EMPTY_DIR, items) && begin <= id < end && id < |TakeAll(EMPTY_DIR, items).slots|
    ensures kind < 0x100 || 0x200 <= kind < 0x300 ==>
              LookBack(Compact(items, begin, end), But8, kind, id - begin)
              == At(Lookup(TakeAll(EMPTY_DIR, items), But8, kind, id), id - begin)
    ensures 0x300 <= kind < 0x400 ==>
              LookBack(Compact(items, begin, end), Exact, kind, id - begin)
              == At(Lookup(TakeAll(EMPTY_DIR, items), Exact, kind, id), id - begin)
  {
    hide TakeAll, CanTakeAll, Compact, LookBack, Lookup, At, MaskOf;
    if IsFileKind(kind) {
      MasksOfFiles(kind);
      CompactionPreservesClasses(items, kind, id, begin, end);
    }
  }

  // ---------- the log on disk as items ----------

  function OnDisk(log: seq<Entry>): (items: seq<Item>)
    ensures |items| == |log|
    ensures forall i :: 0 <= i < |log| ==> items[i] == Item(log[i].tag, log[i].data, true)
  {
    seq(|log|, i requires 0 <= i < |log| => Item(log[i].tag, log[i].data, true))
  }

  /** A well-formed log whose creates and deletes, if any, only touched the end of the list of files. */
  predicate Compactable(log: seq<Entry>)
    decreases |log|
  {
    log == [] || (
      && var e, older := log[|log| - 1], log[..|log| - 1];
      && Compactable(older)
      && WellFormed(older)
      && CanTake(Replay(older), Item(e.tag, e.data, true)))
  }

  lemma {:induction false} TakeAllAppend(d: Dir, items: seq<Item>, x: Item)
    requires CanTakeAll(d, items) && CanTake(TakeAll(d, items), x)
    ensures CanTakeAll(d, items + [x])
    ensures TakeAll(d, items + [x]) == Take(TakeAll(d, items), x)
    decreases |items|
  {
    if items == [] {
      assert [x][1..] == [];
      assert items + [x] == [x];
    } else {
      TakeAllAppend(Take(d, items[0]), items[1..], x);
      assert (items + [x])[1..] == items[1..] + [x];
    }
  }

  lemma {:induction false} TakeAllConcat(d: Dir, a: seq<Item>, b: seq<Item>)
    requires CanTakeAll(d, a) && CanTakeAll(TakeAll(d, a), b)
    ensures CanTakeAll(d, a + b)
    ensures TakeAll(d, a + b) == TakeAll(TakeAll(d, a), b)
    decreases |b|
  {
    if b == [] {
      assert a + b == a;
    } else {
      TakeAllAppend(d, a, b[0]);
      TakeAllConcat(d, a + [b[0]], b[1..]);
      assert a + [b[0]] + b[1..] == a + b;
    }
  }

  lemma OnDiskStep(log: seq<Entry>, older: seq<Entry>, e: Entry, x: Item, d: Dir)
    requires log != [] && older == log[..|log| - 1] && e == log[|log| - 1] && x == Item(e.tag, e.data, true)
    requires WellFormed(older) && Replay(older) == d && CanTake(d, x)
    ensures WellFormed(log) && Replay(log) == Take(d, x)
    ensures OnDisk(log) == OnDisk(older) + [x]
  {
    assert x.Entry() == e;
  }

  /** Reading the log from the front is replaying it. */
  lemma {:induction false} OnDiskIsReplay(log: seq<Entry>)
    requires Compactable(log)
    ensures WellFormed(log) && CanTakeAll(EMPTY_DIR, OnDisk(log))
    ensures TakeAll(EMPTY_DIR, OnDisk(log)) == Replay(log)
    decreases |log|
  {
    if log != [] {
      var e, older := log[|log| - 1], log[..|log| - 1];
      var x := Item(e.tag, e.data, true);
      OnDiskIsReplay(older);
      OnDiskStep(log, older, e, x, Replay(older));
      TakeAllAppend(EMPTY_DIR, OnDisk(older), x);
    }
  }

  /** Everything a caller of compaction relies on: the old log, then what is pending, then the lookup. */
  lemma CompactedLogAnswersAlike(log: seq<Entry>, attrs: seq<Item>, group: Group, kind: nat, id: nat, begin: nat,
                                 end: nat)
    requires Compactable(log) && WellFormed(log)
    requires CanTakeAll(Replay(log), attrs) && IsFileKind(kind) && Finer(group, MaskOf(kind))
    requires begin <= id < end && id < |TakeAll(Replay(log), attrs).slots|
    ensures LookBack(Compact(OnDisk(log) + attrs, begin, end), group, kind, id - begin)
            == At(Lookup(TakeAll(Replay(log), attrs), group, kind, id), id - begin)
       <==> Shows(TakeAll(Replay(log), attrs).slots[id], group, kind)
  {
    OnDiskIsReplay(log);
    TakeAllConcat(EMPTY_DIR, OnDisk(log), attrs);
    CompactionPreservesMeaning(OnDisk(log) + attrs, group, kind, id, begin, end);
  }

  // ---------- where it does not ----------

  lemma {:induction false} DiskKeepsId(t: Tag, later: seq<Item>)
    requires forall i :: 0 <= i < |later| ==> later[i].disk
    ensures Filter(t, later).Some? ==> Filter(t, later).value.id == t.id
    decreases |later|
  {
    if later != [] && !later[0].IsNoop() && FilterStep(t, later[0].tag, later[0].disk).Some? {
      DiskKeepsId(FilterStep(t, later[0].tag, later[0].disk).value, later[1..]);
    } else if later != [] && later[0].IsNoop() {
      DiskKeepsId(t, later[1..]);
    }
  }

  /** Entries read from disk keep their id, whatever was created or deleted after them. */
  lemma {:induction false} DiskCompactIds(items: seq<Item>, begin: nat, end: nat, id: nat, group: Group, kind: nat)
    requires forall i :: 0 <= i < |items| ==> items[i].disk
    requires NothingUnder(items, id, begin, end) && begin <= id
    ensures LastFor(Compact(items, begin, end), group, kind, id - begin) == None
    decreases |items|
  {
    if items != [] {
      var x, later := items[0], items[1..];
      forall i | 0 <= i < |later| && later[i].tag.id == id
        ensures Kept(later[i], later[i + 1..], begin, end) == []
      {
        assert items[i + 1] == later[i] && items[i + 1 + 1..] == later[i + 1..];
      }
      DiskCompactIds(later, begin, end, id, group, kind);
      DiskKeepsId(x.tag, later);
      LastForConcat(Kept(x, later, begin, end), Compact(later, begin, end), group, kind, id - begin);
    }
  }

  /** Compacting the log of a pair with nothing pending answers a lookup as the log does. */
  predicate AnswersAlikeAt(log: seq<Entry>, kind: nat, id: nat)
    requires WellFormed(log)
  {
    LookBack(Compact(OnDisk(log), 0, |Replay(log).slots|), MaskOf(kind), kind, id)
    == At(Lookup(Replay(log), MaskOf(kind), kind, id), id)
  }

  ghost predicate AnswersAlike(log: seq<Entry>)
    requires WellFormed(log)
  {
    forall kind: nat, id: nat :: id < |Replay(log).slots| && IsFileKind(kind) ==> AnswersAlikeAt(log, kind, id)
  }

  lemma CompactableAnswersAt(log: seq<Entry>, kind: nat, id: nat)
    requires Compactable(log) && WellFormed(log) && id < |Replay(log).slots| && IsFileKind(kind)
    ensures AnswersAlikeAt(log, kind, id)
  {
    hide Compact, LookBack, Lookup, At, MaskOf, IsFileKind, Replay, TakeAll, CanTakeAll;
    OnDiskIsReplay(log);
    CompactionPreservesClasses(OnDisk(log), kind, id, 0, |Replay(log).slots|);
  }

  lemma CompactableAnswersAlike(log: seq<Entry>)
    requires Compactable(log) && WellFormed(log)
    ensures AnswersAlike(log)
  {
    hide AnswersAlikeAt, Replay, IsFileKind;
    forall kind: nat, id: nat | id < |Replay(log).slots| && IsFileKind(kind)
      ensures AnswersAlikeAt(log, kind, id)
    {
      CompactableAnswersAt(log, kind, id);
    }
  }

  /** No entry with this id is kept. */
  predicate NothingUnder(items: seq<Item>, id: nat, begin: nat, end: nat) {
    forall i :: 0 <= i < |items| && items[i].tag.id == id ==> Kept(items[i], items[i + 1..], begin, end) == []
  }

  lemma NothingKeptFor(log: seq<Entry>, id: nat, end: nat)
    requires NothingUnder(OnDisk(log), id, 0, end)
    ensures LookBack(Compact(OnDisk(log), 0, end), But8, TYPE_NAME, id) == None
  {
    DiskCompactIds(OnDisk(log), 0, end, id, But8, TYPE_NAME);
    CompactIsPlain(OnDisk(log), 0, end);
    LookBackPlain(Compact(OnDisk(log), 0, end), But8, TYPE_NAME, id);
  }

  /** A name that replay finds and the compacted log does not is lost. */
  lemma LostName(log: seq<Entry>, id: nat)
    requires WellFormed(log) && id < |Replay(log).slots|
    requires Lookup(Replay(log), But8, TYPE_NAME, id).Some?
    requires LookBack(Compact(OnDisk(log), 0, |Replay(log).slots|), But8, TYPE_NAME, id) == None
    ensures !AnswersAlike(log)
  {
    assert MaskOf(TYPE_NAME) == But8;
    assert !AnswersAlikeAt(log, TYPE_NAME, id);
  }

  /** Every file has an entry of the class: a name, or a struct. */
  predicate AllHave(d: Dir, kind: nat) {
    forall i :: 0 <= i < |d.slots| ==> Lookup(d, But8, kind, i).Some?
  }

  lemma {:induction false} DiskDeleteDrops(t: Tag, later: seq<Item>, k: nat)
    requires forall i :: 0 <= i < |later| ==> later[i].disk
    requires k < |later| && later[k].tag.kind == TYPE_DELETE && later[k].tag.id == t.id
    ensures Filter(t, later).None?
    decreases |later|
  {
    if k > 0 {
      if later[0].IsNoop() {
        DiskDeleteDrops(t, later[1..], k - 1);
      } else if FilterStep(t, later[0].tag, later[0].disk).Some? {
        DiskDeleteDrops(t, later[1..], k - 1);
      }
    }
  }

  /** Nothing is kept under the id of a file that was deleted on disk. */
  lemma DeletedIsDropped(older: seq<Entry>, x: Entry, begin: nat, end: nat)
    requires x.tag.kind == TYPE_DELETE
    ensures NothingUnder(OnDisk(older + [x]), x.tag.id, begin, end)
  {
    var items := OnDisk(older + [x]);
    forall i | 0 <= i < |items| && items[i].tag.id == x.tag.id
      ensures Kept(items[i], items[i + 1..], begin, end) == []
    {
      if i < |older| {
        DiskDeleteDrops(items[i].tag, items[i + 1..], |older| - i - 1);
      }
    }
  }

  /** The file above one that was deleted is found under its id. */
  lemma NextFileMoves(older: seq<Entry>, x: Entry, kind: nat)
    requires WellFormed(older) && AllHave(Replay(older), kind) && WellFormed(older + [x]) && IsFileKind(kind)
    requires x.tag.kind == TYPE_DELETE && x.tag.id + 1 < |Replay(older).slots|
    ensures x.tag.id < |Replay(older + [x]).slots| && Lookup(Replay(older + [x]), But8, kind, x.tag.id).Some?
  {
    hide Lookup;
    var d, id := Replay(older), x.tag.id;
    assert (older + [x])[..|older|] == older;
    LookupDeleted(d, x, But8, kind, id);
    assert Lookup(d, But8, kind, id + 1).Some?;
  }

  lemma MidDeleteLosesName(older: seq<Entry>, x: Entry)
    requires WellFormed(older) && AllHave(Replay(older), TYPE_NAME)
    requires x.tag.kind == TYPE_DELETE && WellFormed(older + [x])
    requires x.tag.id + 1 < |Replay(older).slots|
    ensures !AnswersAlike(older + [x])
  {
    hide Lookup, Replay, WellFormed, Kept, Compact, LookBack, AnswersAlike, AllHave;
    var log, id := older + [x], x.tag.id;
    NextFileMoves(older, x, TYPE_NAME);
    DeletedIsDropped(older, x, 0, |Replay(log).slots|);
    NothingKeptFor(log, id, |Replay(log).slots|);
    LostName(log, id);
  }

  /** Creates and deletes at the end of the list can be compacted. */
  lemma EndSpliceIsCompactable(older: seq<Entry>, x: Entry)
    requires Compactable(older) && WellFormed(older) && WellFormed(older + [x])
    requires (x.tag.kind == TYPE_DELETE && x.tag.id + 1 == |Replay(older).slots|)
          || (x.tag.kind == TYPE_CREATE && x.tag.id == |Replay(older).slots|)
    ensures Compactable(older + [x])
  {
    assert (older + [x])[..|older|] == older;
  }

  /**
   A delete on disk survives the next compaction exactly when it removed the last file:
   otherwise the files above it are kept under the ids they had before.
   */
  lemma DeleteSurvivesIffLast(older: seq<Entry>, x: Entry)
    requires Compactable(older) && WellFormed(older) && AllHave(Replay(older), TYPE_NAME)
    requires x.tag.kind == TYPE_DELETE && WellFormed(older + [x])
    ensures AnswersAlike(older + [x]) <==> x.tag.id + 1 == |Replay(older).slots|
  {
    hide Compactable, AnswersAlike, AllHave;
    if x.tag.id + 1 == |Replay(older).slots| {
      EndSpliceIsCompactable(older, x);
      CompactableAnswersAlike(older + [x]);
    } else {
      assert (older + [x])[..|older|] == older;
      MidDeleteLosesName(older, x);
    }
  }

  lemma {:induction false} TailElsewhere(older: seq<Entry>, tail: seq<Entry>, c: nat, id: nat, group: Group, kind: nat)
    requires WellFormed(older) && WellFormed(older + tail) && c < |Replay(older).slots| && c != id && id < NO_ID
    requires forall i :: 0 <= i < |tail| ==> tail[i].tag.id == c && IsFileKind(tail[i].tag.kind)
    ensures Lookup(Replay(older + tail), group, kind, id) == Lookup(Replay(older), group, kind, id)
    ensures |Replay(older + tail).slots| == |Replay(older).slots|
    decreases |tail|
  {
    if tail == [] {
      assert older + tail == older;
    } else {
      var e, front := tail[|tail| - 1], tail[..|tail| - 1];
      assert (older + tail)[..|older + tail| - 1] == older + front;
      TailElsewhere(older, front, c, id, group, kind);
      LookupWritten(Replay(older + front), e, group, kind, id);
    }
  }

  lemma {:induction false} TailCompactable(older: seq<Entry>, tail: seq<Entry>)
    requires Compactable(older) && WellFormed(older + tail)
    requires forall i :: 0 <= i < |tail| ==>
               tail[i].tag.id != NO_ID && IsFileKind(tail[i].tag.kind) && tail[i].tag.kind != FROM_NOOP
    ensures Compactable(older + tail)
    decreases |tail|
  {
    if tail == [] {
      assert older + tail == older;
    } else {
      var front := tail[..|tail| - 1];
      assert (older + tail)[..|older + tail| - 1] == older + front;
      TailCompactable(older, front);
    }
  }

  /** An entry on disk under an id that no file has any more was followed by the delete of that id. */
  lemma {:induction false} BeyondIsDeleted(log: seq<Entry>, i: nat) returns (k: nat)
    requires Compactable(log) && WellFormed(log) && i < |log|
    requires Item(log[i].tag, log[i].data, true).Writes() && |Replay(log).slots| <= log[i].tag.id
    ensures i < k < |log| && log[k].tag.kind == TYPE_DELETE && log[k].tag.id == log[i].tag.id
    decreases |log|
  {
    var e, older := log[|log| - 1], log[..|log| - 1];
    ApplyCount(Replay(older), e);
    if i < |older| && |Replay(older).slots| <= log[i].tag.id {
      k := BeyondIsDeleted(older, i);
    } else {
      k := |log| - 1;
    }
  }

  lemma BeyondIsNotKept(older: seq<Entry>, later: seq<Entry>, i: nat, begin: nat, end: nat)
    requires Compactable(older) && WellFormed(older) && i < |older| && |Replay(older).slots| <= older[i].tag.id
    requires older[i].tag.id < NO_ID
    ensures Kept(OnDisk(older + later)[i], OnDisk(older + later)[i + 1..], begin, end) == []
  {
    var items := OnDisk(older + later);
    assert items[i] == Item(older[i].tag, older[i].data, true);
    if items[i].Writes() {
      var k := BeyondIsDeleted(older, i);
      assert items[i + 1..][k - i - 1] == items[k] && (older + later)[k] == older[k];
      DiskDeleteDrops(items[i].tag, items[i + 1..], k - i - 1);
    }
  }

  /** Nothing is kept under the id that the last file moved to. */
  lemma NothingMoves(older: seq<Entry>, x: Entry, tail: seq<Entry>, begin: nat, end: nat)
    requires Compactable(older) && WellFormed(older) && |Replay(older).slots| < NO_ID
    requires x.tag.id < |Replay(older).slots| && forall i :: 0 <= i < |tail| ==> tail[i].tag.id == x.tag.id
    ensures NothingUnder(OnDisk(older + ([x] + tail)), |Replay(older).slots|, begin, end)
  {
    hide Kept, Replay, WellFormed, Compactable;
    var log := older + ([x] + tail);
    forall i | 0 <= i < |log| && log[i].tag.id == |Replay(older).slots|
      ensures Kept(OnDisk(log)[i], OnDisk(log)[i + 1..], begin, end) == []
    {
      if i < |older| {
        BeyondIsNotKept(older, [x] + tail, i, begin, end);
      }
    }
  }

  /** The last file before the create is found under the next id after it. */
  lemma LastFileMoves(older: seq<Entry>, x: Entry, tail: seq<Entry>, kind: nat)
    requires WellFormed(older) && WellFormed(older + [x]) && WellFormed(older + [x] + tail)
    requires AllHave(Replay(older), kind) && IsFileKind(kind)
    requires x.tag.kind == TYPE_CREATE && x.tag.id < |Replay(older).slots|
    requires forall i :: 0 <= i < |tail| ==> tail[i].tag.id == x.tag.id && IsFileKind(tail[i].tag.kind)
    ensures var n := |Replay(older).slots|;
            n < |Replay(older + [x] + tail).slots| && Lookup(Replay(older + [x] + tail), But8, kind, n).Some?
  {
    hide Lookup;
    var d, n := Replay(older), |Replay(older).slots|;
    assert (older + [x])[..|older|] == older;
    assert Replay(older + [x]) == Apply(d, x);
    TailElsewhere(older + [x], tail, x.tag.id, n, But8, kind);
    LookupCreated(d, x, But8, kind, n);
    assert Lookup(d, But8, kind, n - 1).Some?;
  }

  lemma MidCreateLosesName(older: seq<Entry>, x: Entry, tail: seq<Entry>)
    requires Compactable(older) && WellFormed(older) && AllHave(Replay(older), TYPE_NAME)
    requires WellFormed(older + [x]) && WellFormed(older + [x] + tail)
    requires x.tag.kind == TYPE_CREATE && x.tag.id < |Replay(older).slots|
    requires forall i :: 0 <= i < |tail| ==> tail[i].tag.id == x.tag.id && IsFileKind(tail[i].tag.kind)
    ensures !AnswersAlike(older + [x] + tail)
  {
    hide Lookup, Replay, WellFormed, Compactable, Kept, Compact, LookBack, AnswersAlike, AllHave;
    var log, n := older + [x] + tail, |Replay(older).slots|;
    assert log == older + ([x] + tail);
    LastFileMoves(older, x, tail, TYPE_NAME);
    NothingMoves(older, x, tail, 0, |Replay(log).slots|);
    NothingKeptFor(log, n, |Replay(log).slots|);
    LostName(log, n);
  }

  /**
   A file created on disk since the last compaction survives the next one exactly when it was
   created at the end of the list: otherwise the files above it are kept under the ids they had
   before, where they take each other for replaced.
   */
  lemma CreateSurvivesIffLast(older: seq<Entry>, x: Entry, tail: seq<Entry>)
    requires Compactable(older) && WellFormed(older) && AllHave(Replay(older), TYPE_NAME)
    requires WellFormed(older + [x]) && WellFormed(older + [x] + tail)
    requires x.tag.kind == TYPE_CREATE
    requires forall i :: 0 <= i < |tail| ==>
               tail[i].tag.id == x.tag.id && IsFileKind(tail[i].tag.kind) && tail[i].tag.kind != FROM_NOOP
    ensures AnswersAlike(older + [x] + tail) <==> x.tag.id == |Replay(older).slots|
  {
    hide Compactable, AnswersAlike, AllHave;
    if x.tag.id == |Replay(older).slots| {
      EndSpliceIsCompactable(older, x);
      TailCompactable(older + [x], tail);
      CompactableAnswersAlike(older + [x] + tail);
    } else {
      assert (older + [x])[..|older|] == older;
      MidCreateLosesName(older, x, tail);
    }
  }

  lemma ReplayAppend(log: seq<Entry>, e: Entry, d: Dir)
    requires WellFormed(log) && Replay(log) == d && CanApply(d, e.tag)
    ensures WellFormed(log + [e]) && Replay(log + [e]) == Apply(d, e)
  {
    assert (log + [e])[..|log|] == log;
  }

  const CREATE_FIRST := Entry(Tag(TYPE_CREATE, 0, 0), [])
  const NAME_A := Entry(Tag(TYPE_REG, 0, 1), [97])
  const NAME_B := Entry(Tag(TYPE_REG, 0, 1), [98])

  lemma ReplayOfExample()
    ensures var log := [CREATE_FIRST, NAME_B, CREATE_FIRST, NAME_A];
            WellFormed(log) && Replay(log).slots == [[NAME_A], [NAME_B]]
  {
    var c, b, a := CREATE_FIRST, NAME_B, NAME_A;
    var d1 := Apply(EMPTY_DIR, c);
    assert d1.slots == [[]];
    var d2 := Apply(d1, b);
    assert d1.slots[0] + [b] == [b];
    assert d2.slots == [[b]];
    var d3 := Apply(d2, c);
    assert d3.slots == [[], [b]];
    var d4 := Apply(d3, a);
    assert d3.slots[0] + [a] == [a];
    assert d4.slots == [[a], [b]];
    assert [] + [c] == [c] && [c] + [b] == [c, b] && [c, b] + [c] == [c, b, c] && [c, b, c] + [a] == [c, b, c, a];
    ReplayAppend([], c, EMPTY_DIR);
    ReplayAppend([c], b, d1);
    ReplayAppend([c, b], c, d2);
    ReplayAppend([c, b, c], a, d3);
  }

  lemma CompactOfExample()
    ensures Compact(OnDisk([CREATE_FIRST, NAME_B, CREATE_FIRST, NAME_A]), 0, 2) == [NAME_A]
  {
    var items := OnDisk([CREATE_FIRST, NAME_B, CREATE_FIRST, NAME_A]);
    var i1, i2, i3 := items[1], items[2], items[3];
    assert items[1..] == [i1, i2, i3] && [i1, i2, i3][1..] == [i2, i3] && [i2, i3][1..] == [i3] && [i3][1..] == [];
    assert Compact([], 0, 2) == [];
    assert Kept(i3, [], 0, 2) == [NAME_A];
    assert Compact([i3], 0, 2) == [NAME_A];
    assert Compact([i2, i3], 0, 2) == [NAME_A];
    assert Filter(i1.tag, [i2, i3]) == None;
    assert Compact([i1, i2, i3], 0, 2) == [NAME_A];
  }

  /** The smallest case: "b" is created, then "a" before it; compaction drops "b". */
  lemma SplicedLogLosesNames()
    ensures var log := [CREATE_FIRST, NAME_B, CREATE_FIRST, NAME_A];
            WellFormed(log)
            && Replay(log).slots == [[NAME_A], [NAME_B]]
            && Compact(OnDisk(log), 0, 2) == [NAME_A]
  {
    ReplayOfExample();
    CompactOfExample();
  }

  const NAME := Entry(Tag(TYPE_REG, 0, 1), [97])
  const INLINE := Entry(Tag(TYPE_INLINESTRUCT, 0, 1), [120])
  const CTZ := Entry(Tag(TYPE_CTZSTRUCT, 0, 2), [1, 2])

  lemma CompactableAppend(log: seq<Entry>, e: Entry, d: Dir)
    requires Compactable(log) && WellFormed(log) && Replay(log) == d && CanTake(d, Item(e.tag, e.data, true))
    ensures Compactable(log + [e]) && WellFormed(log + [e]) && Replay(log + [e]) == Apply(d, e)
  {
    assert (log + [e])[..|log|] == log;
  }

  lemma WriteFirst(d: Dir, slot: Slot, e: Entry)
    requires d.slots == [slot] && e.tag.Valid() && e.tag.id == 0 && IsFileKind(e.tag.kind) && e.tag.kind != FROM_NOOP
    ensures CanTake(d, Item(e.tag, e.data, true)) && Apply(d, e).slots == [slot + [e]]
  {
  }

  lemma ReplayOfOutlined()
    ensures WellFormed([CREATE_FIRST, NAME, INLINE, CTZ]) && Compactable([CREATE_FIRST, NAME, INLINE, CTZ])
    ensures Replay([CREATE_FIRST, NAME, INLINE, CTZ]).slots == [[NAME, INLINE, CTZ]]
  {
    hide WellFormed, Replay, Apply, CanTake;
    var c, n, i, z := CREATE_FIRST, NAME, INLINE, CTZ;
    var d1 := CreateFirst();
    WriteFirst(d1, [], n);
    CompactableAppend([c], n, d1);
    assert [c] + [n] == [c, n] && [] + [n] == [n];
    var d2 := Apply(d1, n);
    WriteFirst(d2, [n], i);
    CompactableAppend([c, n], i, d2);
    assert [c, n] + [i] == [c, n, i] && [n] + [i] == [n, i];
    var d3 := Apply(d2, i);
    WriteFirst(d3, [n, i], z);
    CompactableAppend([c, n, i], z, d3);
    assert [c, n, i] + [z] == [c, n, i, z] && [n, i] + [z] == [n, i, z];
  }

  lemma CreateFirst() returns (d: Dir)
    ensures WellFormed([CREATE_FIRST]) && Compactable([CREATE_FIRST]) && Replay([CREATE_FIRST]) == d && d.slots == [[]]
  {
    d := Apply(EMPTY_DIR, CREATE_FIRST);
    CompactableAppend([], CREATE_FIRST, EMPTY_DIR);
    assert [] + [CREATE_FIRST] == [CREATE_FIRST];
    assert d.slots == [[]];
  }

  /**
   Where it matters: an inline struct that a later ctz struct replaced can still be found by its exact type
   before compaction, but not after.
   */
  lemma OutlinedFileForgetsInline()
    ensures var log := [CREATE_FIRST, NAME, INLINE, CTZ];
            && WellFormed(log) && Compactable(log)
            && Lookup(Replay(log), Exact, TYPE_INLINESTRUCT, 0) == Some(INLINE)
            && LookBack(Compact(OnDisk(log), 0, 1), Exact, TYPE_INLINESTRUCT, 0) == None
  {
    hide Replay, WellFormed, Compactable, CanTakeAll, TakeAll, Compact, LookBack;
    var log, slot := [CREATE_FIRST, NAME, INLINE, CTZ], [NAME, INLINE, CTZ];
    ReplayOfOutlined();
    OnDiskIsReplay(log);
    assert slot[..2] == [NAME, INLINE];
    var kind := TYPE_INLINESTRUCT;
    assert LastOf([NAME, INLINE], Exact, kind) == Some(INLINE);
    assert LastOf(slot, Exact, kind) == Some(INLINE);
    CompactedLookup(OnDisk(log), Exact, TYPE_INLINESTRUCT, 0, 0, 1);
  }
}
