/**
 Looking for a name in a directory that was split over several pairs, as lfs_dir_find does, and reading what belongs to
 the file that was found.
 */
module Find {
  import opened Options
  import opened Words
  import opened Tags
  import opened TagLog
  import opened RawLog
  import opened Lookup
  import opened Match
  import opened Fetch
  import Compaction
  import opened Commit
  import opened Pairs
  import opened FetchMatch
  import opened GlobalState
  import opened Mounting

  /** The addresses of the two blocks of a pair */
  function PairAt(a: seq<byte>): (address, address)
    requires |a| == PAIR_SIZE
  {
    (FromLE64(a[..8]), FromLE64(a[8..]))
  }

  /** The list of pairs begins with blocks 0 and 1. */
  lemma FirstPairIs()
    ensures PairAt(FIRST_PAIR) == (0, 1)
  {
    forall k: nat | k < 8
      ensures ByteOf(0, k) == FIRST_PAIR[..8][k] && ByteOf(1, k) == FIRST_PAIR[8..][k]
    {
      BytesOfByte(0, k);
      BytesOfByte(1, k);
    }
    assert FIRST_PAIR[..8] == ToLE(0, 8) && FIRST_PAIR[8..] == ToLE(1, 8);
    EightBytesFit();
    LERoundTrip(0, 8);
    LERoundTrip(1, 8);
  }

  /** A pair that can be searched: its names are in order, and if a file is being moved out of it, that is there. */
  ghost predicate Searchable(disk: Disk, a: seq<byte>, gdisk: Gstate) {
    && |a| == PAIR_SIZE && a in disk && disk[a].Valid() && Active(disk[a]).Some?
    && var log := LogOf(disk[a]);
    && Robust(log) && WellFormed(ViewLog(log)) && Ordered(ViewLog(log))
    && (HasMoveHere(gdisk, PairAt(a)) ==>
          IdOf(gdisk.tag) < |Replay(ViewLog(log)).slots| && Filled(NamesOf(Replay(ViewLog(log)))))
  }

  ghost function DirAt(disk: Disk, a: seq<byte>, gdisk: Gstate): Dir
    requires Searchable(disk, a, gdisk)
  {
    Replay(ViewLog(LogOf(disk[a])))
  }

  /** A pair as its users see it, without the file that is being moved out of it. */
  ghost function SeenAt(disk: Disk, a: seq<byte>, gdisk: Gstate): Dir
    requires Searchable(disk, a, gdisk)
  {
    Seen(DirAt(disk, a, gdisk), HasMoveHere(gdisk, PairAt(a)), IdOf(gdisk.tag))
  }

  /** The search of a pair may end there although the name is in a pair that follows. */
  ghost predicate OverlooksAt(disk: Disk, a: seq<byte>, gdisk: Gstate, name: seq<byte>)
    requires Searchable(disk, a, gdisk)
  {
    Overlooks(LogOf(disk[a]), name, HasMoveHere(gdisk, PairAt(a)))
  }

  /** All names of one pair are less than all those of another. */
  predicate Before(ns: seq<SlotName>, ns': seq<SlotName>) {
    forall i, j :: 0 <= i < |ns| && 0 <= j < |ns'| && ns[i].Named? && ns'[j].Named? ==>
      FindMatch(ns[i].name, ns'[j].name) == Less
  }

  predicate AllGreater(ns: seq<SlotName>, name: seq<byte>) {
    forall i :: 0 <= i < |ns| && ns[i].Named? ==> FindMatch(ns[i].name, name) == Greater
  }

  // ---------- from pair to pair ----------

  /**
   A pair of the directory, for a search: all names in it, those that users see, and whether the search of it may end
   although what is looked for is in a pair that follows.
   */
  datatype Part = Part(all: seq<SlotName>, seen: seq<SlotName>, overlooks: bool) {
    predicate Valid() { forall x :: x in seen ==> x in all }
  }

  /** The names are in order over all pairs. */
  predicate InOrder(parts: seq<Part>) {
    forall i, k :: 0 <= i < k < |parts| ==> Before(parts[i].all, parts[k].all)
  }

  /** The first pairs have nothing but smaller names, and none of them keeps the search from going on. */
  predicate PassedBy(parts: seq<Part>, name: seq<byte>, k: nat)
    requires k <= |parts|
  {
    forall i :: 0 <= i < k ==> AllLess(parts[i].all, name) && !parts[i].overlooks
  }

  /** Users see a file of that name in the pair, and no pair before it keeps the search from getting there. */
  predicate Reachable(parts: seq<Part>, name: seq<byte>, j: nat) {
    && j < |parts| && Named(name) in parts[j].seen
    && forall i :: 0 <= i < j ==> !parts[i].overlooks
  }

  lemma SeenIsThere(d: Dir, moveHere: bool, moveId: nat)
    ensures forall x :: x in NamesOf(Seen(d, moveHere, moveId)) ==> x in NamesOf(d)
  {
    hide NameOf;
    var s := Seen(d, moveHere, moveId);
    forall x | x in NamesOf(s)
      ensures x in NamesOf(d)
    {
      var i :| 0 <= i < |s.slots| && NamesOf(s)[i] == x;
      var k := if moveHere && moveId < |d.slots| && moveId <= i then i + 1 else i;
      assert s.slots[i] == d.slots[k];
      assert NamesOf(d)[k] == x;
    }
  }

  lemma NotAllLess(ns: seq<SlotName>, name: seq<byte>)
    requires Named(name) in ns
    ensures !AllLess(ns, name)
  {
    hide FindMatch;
    EqualIsSame(name, name);
  }

  /** What follows a pair with a name that is not less has greater names only. */
  lemma RestIsGreater(ns: seq<SlotName>, ns': seq<SlotName>, name: seq<byte>)
    requires Before(ns, ns') && !AllLess(ns, name)
    ensures AllGreater(ns', name)
  {
    hide FindMatch;
    var i :| 0 <= i < |ns| && ns[i].Named? && FindMatch(ns[i].name, name) != Less;
    forall j | 0 <= j < |ns'| && ns'[j].Named?
      ensures FindMatch(ns'[j].name, name) == Greater
    {
      assert FindMatch(ns[i].name, ns'[j].name) == Less;
      Mirrored(name, ns[i].name);
      Mirrored(name, ns'[j].name);
      EqualIsSame(ns[i].name, name);
      if FindMatch(name, ns[i].name) == Less {
        Transitive(name, ns[i].name, ns'[j].name);
      }
    }
  }

  lemma GreaterIsNot(ns: seq<SlotName>, name: seq<byte>)
    requires AllGreater(ns, name)
    ensures Named(name) !in ns
  {
    hide FindMatch;
    EqualIsSame(name, name);
  }

  /** Where the search ends without a match: what follows is greater, unless the pair keeps it from going on. */
  lemma EndsRight(parts: seq<Part>, name: seq<byte>, k: nat)
    requires InOrder(parts) && (forall i :: 0 <= i < |parts| ==> parts[i].Valid())
    requires k < |parts| && PassedBy(parts, name, k) && Named(name) !in parts[k].seen
    requires k + 1 == |parts| || !AllLess(parts[k].all, name) || parts[k].overlooks
    ensures !parts[k].overlooks ==> forall i :: k < i < |parts| ==> AllGreater(parts[i].all, name)
    ensures forall j :: !Reachable(parts, name, j)
  {
    hide FindMatch, AllLess, AllGreater, Before;
    if !parts[k].overlooks {
      forall i | k < i < |parts|
        ensures AllGreater(parts[i].all, name)
      {
        RestIsGreater(parts[k].all, parts[i].all, name);
      }
    }
    forall j: nat
      ensures !Reachable(parts, name, j)
    {
      if Reachable(parts, name, j) {
        assert Named(name) in parts[j].all;
        NotAllLess(parts[j].all, name);
        GreaterIsNot(parts[j].all, name);
      }
    }
  }

  // ---------- the pairs on disk ----------

  ghost predicate AreSearchable(disk: Disk, list: seq<seq<byte>>, gdisk: Gstate) {
    forall k :: 0 <= k < |list| ==> Searchable(disk, list[k], gdisk)
  }

  ghost function PartAt(disk: Disk, a: seq<byte>, gdisk: Gstate, name: seq<byte>): Part
    requires Searchable(disk, a, gdisk)
  {
    Part(NamesOf(DirAt(disk, a, gdisk)), NamesOf(SeenAt(disk, a, gdisk)), OverlooksAt(disk, a, gdisk, name))
  }

  ghost function PartsOf(disk: Disk, list: seq<seq<byte>>, gdisk: Gstate, name: seq<byte>): (parts: seq<Part>)
    requires AreSearchable(disk, list, gdisk)
    ensures |parts| == |list|
    ensures forall k :: 0 <= k < |list| ==>
              Searchable(disk, list[k], gdisk) && parts[k] == PartAt(disk, list[k], gdisk, name)
  {
    seq(|list|, k requires 0 <= k < |list| => PartAt(disk, list[k], gdisk, name))
  }

  /** Where a fetch of a pair says that the directory goes on. */
  ghost predicate GoesOn(disk: Disk, a: seq<byte>, rest: seq<seq<byte>>)
    requires a in disk && disk[a].Valid()
  {
    var dir := FetchedDir(disk[a]);
    dir.Some? && if rest == [] then !dir.value.state.split else dir.value.state.split && dir.value.state.tail == rest[0]
  }

  /** The pairs of a directory: each but the last says that the directory goes on in the next. */
  ghost predicate IsDirectory(disk: Disk, list: seq<seq<byte>>, gdisk: Gstate) {
    && list != [] && AreSearchable(disk, list, gdisk)
    && forall k :: 0 <= k < |list| ==> Searchable(disk, list[k], gdisk) && GoesOn(disk, list[k], list[k + 1..])
  }

  /** A name is seen in one of the pairs under that id. */
  ghost predicate IsAt(parts: seq<Part>, name: seq<byte>, k: nat, id: nat) {
    k < |parts| && id < |parts[k].seen| && parts[k].seen[id] == Named(name)
  }

  /** A file of that name belongs there: all names are on the right side of it. */
  predicate Belongs(parts: seq<Part>, name: seq<byte>, k: nat, id: nat) {
    && k < |parts|
    && (forall i :: 0 <= i < k ==> AllLess(parts[i].all, name))
    && Sorted(InsertAt(parts[k].seen, Min(id, |parts[k].seen|), Named(name)))
    && (forall i :: k < i < |parts| ==> AllGreater(parts[i].all, name))
  }

  /** What the search of one pair means for the whole of it. */
  ghost predicate FoundIn(part: Part, name: seq<byte>, r: Search, id: nat) {
    && !r.Corrupt?
    && (r.Hitting? <==> Named(name) in part.seen)
    && (r.Hitting? ==> IsValid(r.tag) && id == IdOf(r.tag) < |part.seen| && part.seen[id] == Named(name))
    && (!r.Hitting? ==> Sorted(InsertAt(part.seen, Min(id, |part.seen|), Named(name))))
    && (r.Beyond? <==> AllLess(part.all, name) && !part.overlooks)
  }

  /** One round of the loop: the search of one pair. */
  method FindInPair(disk: Disk, a: seq<byte>, name: seq<byte>, gdisk: Gstate)
    returns (r: Search, id: nat, dir: Option<Mdir>)
    requires Searchable(disk, a, gdisk)
    ensures dir.Some? && dir == FetchedDir(disk[a])
    ensures FoundIn(PartAt(disk, a, gdisk, name), name, r, id)
  {
    hide Active, Fetched, Robust, WellFormed, Ordered, Replay, NamesOf, Filled, FetchedDir, IdOf, HasMoveHere, FromLE64,
         AllLess, Overlooks, Seen, Sorted;
    r, id, dir := FetchMatch.FetchMatch(disk[a], name, HasMoveHere(gdisk, PairAt(a)), gdisk.tag);
  }

  lemma PartIsValid(disk: Disk, a: seq<byte>, gdisk: Gstate, name: seq<byte>)
    requires Searchable(disk, a, gdisk)
    ensures PartAt(disk, a, gdisk, name).Valid()
  {
    hide Seen, NamesOf, HasMoveHere, FromLE64, Searchable, LogOf, Replay, Overlooks, IdOf;
    assert |a| == PAIR_SIZE by {
      SearchablePair(disk, a, gdisk);
    }
    SeenIsThere(DirAt(disk, a, gdisk), HasMoveHere(gdisk, PairAt(a)), IdOf(gdisk.tag));
  }

  lemma SearchablePair(disk: Disk, a: seq<byte>, gdisk: Gstate)
    requires Searchable(disk, a, gdisk)
    ensures |a| == PAIR_SIZE && a in disk && disk[a].Valid() && Active(disk[a]).Some?
  {
  }

  lemma PassOne(parts: seq<Part>, name: seq<byte>, k: nat, r: Search, id: nat)
    requires InOrder(parts) && (forall i :: 0 <= i < |parts| ==> parts[i].Valid())
    requires k < |parts| && PassedBy(parts, name, k) && FoundIn(parts[k], name, r, id)
    ensures r.Beyond? ==> PassedBy(parts, name, k + 1)
    ensures r.Hitting? ==> Reachable(parts, name, k) && IsAt(parts, name, k, id)
    ensures !r.Hitting? && (r.Beyond? ==> k + 1 == |parts|) ==>
              (forall j :: !Reachable(parts, name, j)) && (parts[k].overlooks || Belongs(parts, name, k, id))
  {
    hide AllLess, AllGreater, Before, Sorted;
    if !r.Hitting? && (r.Beyond? ==> k + 1 == |parts|) {
      EndsRight(parts, name, k);
    }
  }

  /**
   The loop of lfs_dir_find over the pairs of a directory. A file that users see is found exactly if no pair before it
   overlooks what follows it; and if there is none, a place is found where the name belongs, unless the search ended at
   a pair that does.
   */
  method FindName(disk: Disk, from: seq<byte>, name: seq<byte>, gdisk: Gstate, ghost list: seq<seq<byte>>)
    returns (r: Search, id: nat, at: seq<byte>, dir: Option<Mdir>, ghost k: nat)
    requires IsDirectory(disk, list, gdisk) && from == list[0]
    requires InOrder(PartsOf(disk, list, gdisk, name))
    ensures k < |list| && at == list[k] && at in disk && disk[at].Valid() && dir.Some? && dir == FetchedDir(disk[at])
    ensures r.Hitting? || r.Missing?
    ensures var parts := PartsOf(disk, list, gdisk, name);
            && (r.Hitting? <==> exists j :: Reachable(parts, name, j))
            && (r.Hitting? ==> id == IdOf(r.tag) && IsAt(parts, name, k, id))
            && (r.Missing? ==> parts[k].overlooks || Belongs(parts, name, k, id))
  {
    hide Searchable, FetchedDir, IdOf, InOrder, Reachable, IsAt, Belongs, PassedBy, PartAt, FoundIn;
    ghost var parts := PartsOf(disk, list, gdisk, name);
    at, k := from, 0;
    NonePassed(parts, name);
    forall i | 0 <= i < |list|
      ensures parts[i].Valid()
    {
      PartIsValid(disk, list[i], gdisk, name);
    }
    while true
      invariant k < |list| && at == list[k] && PassedBy(parts, name, k)
      decreases |list| - k
    {
      SearchablePair(disk, at, gdisk);
      r, id, dir := FindInPair(disk, at, name, gdisk);
      PassOne(parts, name, k, r, id);
      FoundParts(parts[k], name, r, id);
      if !r.Beyond? {
        return;
      }
      assert GoesOn(disk, list[k], list[k + 1..]);
      if !dir.value.state.split {
        r := Missing;
        return;
      }
      at, k := dir.value.state.tail, k + 1;
    }
  }

  // ---------- what belongs to the file ----------

  lemma SortedRemoves(ns: seq<SlotName>, i: nat)
    requires Sorted(ns) && i < |ns|
    ensures Sorted(RemoveAt(ns, i))
  {
    hide FindMatch;
    var ns' := RemoveAt(ns, i);
    assert forall k :: 0 <= k < i ==> ns'[k] == ns[k];
    assert forall k :: i <= k < |ns'| ==> ns'[k] == ns[k + 1];
  }

  lemma SeenIsSorted(d: Dir, moveHere: bool, moveId: nat)
    requires Sorted(NamesOf(d))
    ensures Sorted(NamesOf(Seen(d, moveHere, moveId)))
  {
    hide Sorted, NameOf;
    if moveHere && moveId < |d.slots| {
      SortedRemoves(NamesOf(d), moveId);
      assert NamesOf(Seen(d, moveHere, moveId)) == RemoveAt(NamesOf(d), moveId);
    } else {
      assert Seen(d, moveHere, moveId) == d;
    }
  }

  lemma OrderedIsSorted(log: seq<Raw>)
    requires IsRawLog(log) && WellFormed(ViewLog(log)) && Ordered(ViewLog(log))
    ensures Sorted(NamesOf(Replay(ViewLog(log))))
  {
    hide Sorted, NamesOf, Ordered, BestOf, Replay, WellFormed;
    BestIsGood(log, []);
    TidyIsSorted(NamesOf(Replay(ViewLog(log))), Replay(ViewLog(log)).spliced);
  }

  lemma TidyIsSorted(ns: seq<SlotName>, spliced: bool)
    ensures Tidy(ns, spliced) ==> Sorted(ns)
  {
  }

  /** The answer to a lookup: the entry under the id it was asked for, as much of it as there is room for. */
  predicate Gets(e: Found, x: Option<Entry>, id: nat, size: nat) {
    match x
    case None => e == NoEntry
    case Some(y) => e.Found? && Unpack(e.tag) == y.tag.(id := id) && e.buffer == Slice(y.data, 0, size)
  }

  /** The lookup of something that belongs to the one file of a name. */
  ghost predicate GetsFor(e: Found, d: Dir, name: seq<byte>, group: Group, kind: nat, size: nat) {
    && Named(name) in NamesOf(d)
    && forall j :: 0 <= j < |d.slots| && NamesOf(d)[j] == Named(name) ==>
         Gets(e, TagLog.Lookup(d, group, kind, j), j, size)
  }

  lemma GetsForOne(e: Found, d: Dir, name: seq<byte>, group: Group, kind: nat, size: nat, id: nat)
    requires Sorted(NamesOf(d)) && id < |d.slots| && NamesOf(d)[id] == Named(name)
    requires Gets(e, TagLog.Lookup(d, group, kind, id), id, size)
    ensures GetsFor(e, d, name, group, kind, size)
  {
    hide NameOf, Gets, Sorted, TagLog.Lookup;
    forall j | 0 <= j < |d.slots| && NamesOf(d)[j] == Named(name)
      ensures Gets(e, TagLog.Lookup(d, group, kind, j), j, size)
    {
      SortedIsUnique(NamesOf(d), name, id, j);
    }
  }

  /** What users can see is in reach of a lookup. */
  lemma SeenInReach(log: seq<Entry>, moveHere: bool, moveTag: word, gtag: word)
    requires WellFormed(log) && IdOf(gtag) < |Seen(Replay(log), moveHere, IdOf(moveTag)).slots|
    ensures InReach(log, WantedId(gtag, moveHere, moveTag))
  {
    hide Replay, IdOf;
  }

  lemma TagFields(kind: nat, id: nat, size: nat)
    requires kind < 0x800 && id < 0x400 && size < 0x400
    ensures TypeOf(Pack(Tag(kind, id, size))) == kind && IdOf(Pack(Tag(kind, id, size))) == id
    ensures SizeOf(Pack(Tag(kind, id, size))) == size
  {
    hide TypeOf, IdOf, SizeOf;
    PackUnpacks(Tag(kind, id, size));
    assert Unpack(Pack(Tag(kind, id, size))) == Tag(kind, id, size);
  }

  /** lfs_dir_get of something that belongs to a file that was found. */
  method GetAt(disk: Disk, a: seq<byte>, dir: Mdir, name: seq<byte>, gdisk: Gstate, gmask: word, kind: nat, size: nat,
               id: nat)
    returns (e: Found)
    requires Searchable(disk, a, gdisk) && FetchedDir(disk[a]) == Some(dir) && CreatesAreEmpty(LogOf(disk[a]))
    requires IsLookupMask(gmask) && IsFileKind(kind) && size < 0x400
    requires id < |SeenAt(disk, a, gdisk).slots| && NamesOf(SeenAt(disk, a, gdisk))[id] == Named(name)
    ensures GetsFor(e, SeenAt(disk, a, gdisk), name, GroupOf(gmask), kind, size)
  {
    hide FetchedDir, Active, Fetched, Robust, Ordered, NamesOf, Filled, HasMoveHere, FromLE64, Seen, WellFormed, Replay,
         GetsFor, InReach, WantedId, TypeOf, IdOf, SizeOf, Pack, Holds, CreatesAreEmpty, TagLog.Lookup;
    ghost var log := LogOf(disk[a]);
    var moveHere := HasMoveHere(gdisk, PairAt(a));
    FetchedParts(disk[a], Some(dir));
    FewFiles(ViewLog(log), moveHere, IdOf(gdisk.tag));
    TagFields(kind, id, size);
    var gtag := Pack(Tag(kind, id, size));
    SeenInReach(ViewLog(log), moveHere, gdisk.tag, gtag);
    e := Lookup.Get(disk[a].Block(dir.active), dir.offset, dir.etag, gmask, gtag, moveHere, gdisk.tag, log);
    HeldIsRaw(disk[a].Block(dir.active), log);
    OrderedIsSorted(log);
    SeenIsSorted(Replay(ViewLog(log)), moveHere, IdOf(gdisk.tag));
    GetsForOne(e, SeenAt(disk, a, gdisk), name, GroupOf(gmask), kind, size, id);
  }

  lemma HeldIsRaw(block: seq<byte>, log: seq<Raw>)
    requires Holds(block, log)
    ensures IsRawLog(log)
  {
  }

  lemma FewFiles(log: seq<Entry>, moveHere: bool, moveId: nat)
    requires WellFormed(log)
    ensures |Seen(Replay(log), moveHere, moveId).slots| < NO_ID
  {
    hide WellFormed;
  }

  lemma AtIsSeen(disk: Disk, list: seq<seq<byte>>, gdisk: Gstate, name: seq<byte>, k: nat, id: nat)
    requires IsDirectory(disk, list, gdisk) && IsAt(PartsOf(disk, list, gdisk, name), name, k, id)
    ensures k < |list| && Searchable(disk, list[k], gdisk) && id < |SeenAt(disk, list[k], gdisk).slots|
    ensures NamesOf(SeenAt(disk, list[k], gdisk))[id] == Named(name)
  {
    hide Searchable, NameOf, Seen;
  }

  /** lfs_dir_find and then lfs_dir_get under the id that was found: the entry of the file with that name. */
  method GetByName(disk: Disk, from: seq<byte>, name: seq<byte>, gdisk: Gstate, gmask: word, kind: nat, size: nat,
                   ghost list: seq<seq<byte>>)
    returns (found: bool, e: Found, ghost k: nat)
    requires IsDirectory(disk, list, gdisk) && from == list[0]
    requires InOrder(PartsOf(disk, list, gdisk, name))
    requires forall i :: 0 <= i < |list| ==> Searchable(disk, list[i], gdisk) && CreatesAreEmpty(LogOf(disk[list[i]]))
    requires IsLookupMask(gmask) && IsFileKind(kind) && size < 0x400
    ensures found <==> exists j :: Reachable(PartsOf(disk, list, gdisk, name), name, j)
    ensures found ==> k < |list| && GetsFor(e, SeenAt(disk, list[k], gdisk), name, GroupOf(gmask), kind, size)
  {
    hide *;
    var r, id, at, dir;
    r, id, at, dir, k := FindName(disk, from, name, gdisk, list);
    found, e := r.Hitting?, NoEntry;
    if found {
      AtIsSeen(disk, list, gdisk, name, k, id);
      e := GetAt(disk, at, dir.value, name, gdisk, gmask, kind, size, id);
    }
  }

  // ---------- a file that is overlooked ----------

  lemma OverlookedTags()
    ensures var a, c, x := 0x0010_0001, 0x0010_0401, 0x4ff0_0400;
            && Unpack(a) == Tag(1, 0, 1) && Unpack(c) == Tag(1, 1, 1) && Unpack(x) == Tag(TYPE_DELETE, 1, 0)
            && IsValid(a) && IsValid(c) && IsValid(x)
  {
  }

  lemma OverlookedSteps(a: Entry, c: Entry, x: Entry)
    requires a.tag == Tag(1, 0, 1) && c.tag == Tag(1, 1, 1) && x.tag == Tag(TYPE_DELETE, 1, 0)
    ensures CanApply(EMPTY_DIR, a.tag) && Apply(EMPTY_DIR, a) == Dir([[a]], [], false)
    ensures CanApply(Dir([[a]], [], false), c.tag) && Apply(Dir([[a]], [], false), c) == Dir([[a], [c]], [], false)
    ensures CanApply(Dir([[a], [c]], [], false), x.tag)
    ensures Apply(Dir([[a], [c]], [], false), x).slots == [[a]]
  {
    assert Grow([], 1) == [[]] && Grow([[a]], 2) == [[a], []];
    assert [] + [a] == [a] && [] + [c] == [c];
  }

  lemma OverlookedReplay(a: Entry, c: Entry, x: Entry)
    requires a.tag == Tag(1, 0, 1) && c.tag == Tag(1, 1, 1) && x.tag == Tag(TYPE_DELETE, 1, 0)
    ensures WellFormed([a, c, x]) && Replay([a, c, x]).slots == [[a]]
  {
    hide WellFormed, Replay, Apply, CanApply;
    NoFiles();
    OverlookedSteps(a, c, x);
    Compaction.ReplayAppend([], a, EMPTY_DIR);
    assert [] + [a] == [a];
    Compaction.ReplayAppend([a], c, Dir([[a]], [], false));
    assert [a] + [c] == [a, c];
    Compaction.ReplayAppend([a, c], x, Dir([[a], [c]], [], false));
    assert [a, c] + [x] == [a, c, x];
  }

  lemma NoFiles()
    ensures WellFormed([]) && Replay([]) == EMPTY_DIR
  {
  }

  lemma OverlookedBest(a: Raw, c: Raw, x: Raw, name: seq<byte>)
    requires a == Raw(0x0010_0001, [97]) && c == Raw(0x0010_0401, [99]) && x == Raw(0x4ff0_0400, []) && name == [99]
    ensures BestOf(Some(name), [a, c, x]) == Position(c.tag)
  {
    hide IdOf, SizeOf, TypeOf, Masked, FindMatch, Position;
    OverlookedTags();
    ByteOrder(97, 99);
    ByteOrder(99, 99);
    NameTags(a.tag);
    NameTags(c.tag);
    NameTags(x.tag);
    NoMatchId();
    assert [a, c, x][..2] == [a, c] && [a, c][..1] == [a] && [a][..0] == [];
    ExactMask(a.tag, NO_MATCH);
    assert BestOf(Some(name), []) == NO_MATCH;
    assert BestOf(Some(name), [a]) == NO_MATCH;
    assert BestOf(Some(name), [a, c]) == c.tag;
    SpliceTags(x.tag, c.tag);
  }

  /**
   Why a search may end too early: files "a" and "c", and "c" deleted again. While "a" is being moved away, a search for
   "c" is answered here, though all names are less and a new file "c" may be in the pair that follows.
   */
  lemma FileIsOverlooked()
    ensures var log := [Raw(0x0010_0001, [97]), Raw(0x0010_0401, [99]), Raw(0x4ff0_0400, [])];
            && WellFormed(ViewLog(log)) && Overlooks(log, [99], true)
            && AllLess(NamesOf(Replay(ViewLog(log))), [99])
  {
    hide IdOf, SizeOf, TypeOf, WellFormed, Replay, BestOf, Position, FindMatch;
    var name: seq<byte>, a, c, x := [99], Raw(0x0010_0001, [97]), Raw(0x0010_0401, [99]), Raw(0x4ff0_0400, []);
    OverlookedTags();
    assert ViewLog([a, c, x]) == [View(a), View(c), View(x)];
    OverlookedReplay(View(a), View(c), View(x));
    OverlookedBest(a, c, x, name);
    PositionFields(c.tag);
    ByteOrder(97, 99);
    NameAppends([], View(a));
    assert [] + [View(a)] == [View(a)];
  }

  lemma NonePassed(parts: seq<Part>, name: seq<byte>)
    ensures PassedBy(parts, name, 0)
  {
  }

  lemma FoundParts(part: Part, name: seq<byte>, r: Search, id: nat)
    requires FoundIn(part, name, r, id)
    ensures !r.Corrupt? && (r.Hitting? ==> id == IdOf(r.tag))
  {
  }
}
