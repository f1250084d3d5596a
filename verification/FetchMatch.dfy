/**
 Searching a sorted directory: the best match that a scan of the log ends with is the entry with the name that
 was looked for, or the place where such an entry belongs, whatever names, creates and deletes the log is made of.
 */
module FetchMatch {
  import opened Options
  import opened Words
  import opened Tags
  import opened TagLog
  import opened RawLog
  import opened Lookup
  import opened Match
  import opened Fetch
  import opened Commit
  import opened Pairs

  // ---------- the order of names ----------

  function Flip(o: Order): Order {
    match o
    case Less => Greater
    case Equal => Equal
    case Greater => Less
  }

  /** Names are compared byte by byte, and what ends first comes last. */
  lemma FirstByte(a: seq<byte>, b: seq<byte>)
    ensures FindMatch(a, b) ==
            if a == [] then (if b == [] then Equal else Greater)
            else if b == [] then Less
            else if a[0] < b[0] then Less
            else if a[0] > b[0] then Greater
            else FindMatch(a[1..], b[1..])
  {
    if a != [] && b != [] {
      var diff := Min(|b|, |a|);
      assert a[..diff][1..] == a[1..][..diff - 1] && b[..diff][1..] == b[1..][..diff - 1];
    }
  }

  lemma {:induction false} Mirrored(a: seq<byte>, b: seq<byte>)
    ensures FindMatch(b, a) == Flip(FindMatch(a, b))
    decreases |a|
  {
    hide FindMatch;
    FirstByte(a, b);
    FirstByte(b, a);
    if a != [] && b != [] {
      Mirrored(a[1..], b[1..]);
    }
  }

  lemma {:induction false} EqualIsSame(a: seq<byte>, b: seq<byte>)
    ensures FindMatch(a, b) == Equal <==> a == b
    decreases |a|
  {
    hide FindMatch;
    FirstByte(a, b);
    if a != [] && b != [] {
      EqualIsSame(a[1..], b[1..]);
      assert a == [a[0]] + a[1..] && b == [b[0]] + b[1..];
    }
  }

  lemma {:induction false} Transitive(a: seq<byte>, b: seq<byte>, c: seq<byte>)
    requires FindMatch(a, b) == Less && FindMatch(b, c) == Less
    ensures FindMatch(a, c) == Less
    decreases |a|
  {
    hide FindMatch;
    FirstByte(a, b);
    FirstByte(b, c);
    FirstByte(a, c);
    if a != [] && b != [] && c != [] && a[0] == b[0] == c[0] {
      Transitive(a[1..], b[1..], c[1..]);
    }
  }

  // ---------- names and places ----------

  /** What a file goes by: nothing yet, a name that is not looked for (the superblock's), or a name. */
  datatype SlotName = Unnamed | Hidden | Named(name: seq<byte>)

  /** The best match, as a position: none, the entry itself, or where it belongs. */
  datatype Place = Nowhere | Hit(id: nat) | Gap(id: nat)

  predicate Sorted(ns: seq<SlotName>) {
    forall i, j :: 0 <= i < j < |ns| && ns[i].Named? && ns[j].Named? ==> FindMatch(ns[i].name, ns[j].name) == Less
  }

  /** The superblock entry, if there is one, comes first. */
  predicate HiddenFirst(ns: seq<SlotName>) {
    forall i, j :: 0 <= i < j < |ns| && ns[j].Hidden? ==> ns[i].Hidden?
  }

  predicate Filled(ns: seq<SlotName>) {
    forall i :: 0 <= i < |ns| ==> !ns[i].Unnamed?
  }

  predicate OneUnnamed(ns: seq<SlotName>) {
    forall i, j :: 0 <= i < j < |ns| ==> !(ns[i].Unnamed? && ns[j].Unnamed?)
  }

  /**
   The place is right for the name: the entry has it, or all that come before are less and all that follow are greater.
   */
  predicate Right(ns: seq<SlotName>, name: seq<byte>, place: Place) {
    match place
    case Hit(j) => j < |ns| && ns[j] == Named(name)
    case Gap(g) =>
      && g <= |ns|
      && (forall i :: 0 <= i < g && ns[i].Named? ==> FindMatch(ns[i].name, name) == Less)
      && (forall i :: g <= i < |ns| && ns[i].Named? ==> FindMatch(ns[i].name, name) == Greater)
    case Nowhere => forall i :: 0 <= i < |ns| && ns[i].Named? ==> FindMatch(ns[i].name, name) == Less
  }

  /** What comes after a gap is known: its first entry has a name, or all of them do but the one just created. */
  predicate Witnessed(ns: seq<SlotName>, spliced: bool, place: Place) {
    place.Gap? ==>
      if spliced then forall i :: place.id <= i < |ns| ==> ns[i].Named? || (ns[i].Unnamed? && place.id < i)
      else place.id < |ns| && ns[place.id].Named?
  }

  predicate Tidy(ns: seq<SlotName>, spliced: bool) {
    Sorted(ns) && HiddenFirst(ns) && (spliced ==> OneUnnamed(ns))
  }

  predicate Keeps(ns: seq<SlotName>, spliced: bool, name: seq<byte>, place: Place) {
    Tidy(ns, spliced) && Right(ns, name, place) && Witnessed(ns, spliced, place)
  }

  function PlaceAfterCreate(place: Place, i: nat): Place {
    match place
    case Nowhere => Nowhere
    case Hit(j) => if i <= j then Hit(j + 1) else place
    case Gap(g) => if i <= g then Gap(g + 1) else place
  }

  function PlaceAfterDelete(place: Place, i: nat): Place {
    match place
    case Nowhere => Nowhere
    case Hit(j) => if i == j then Gap(j) else if i < j then Hit(j - 1) else place
    case Gap(g) => if i < g then Gap(g - 1) else place
  }

  function PlaceAfterName(place: Place, i: nat, res: Order): Place {
    if res == Equal then Hit(i)
    else if res == Greater && (place.Nowhere? || i <= place.id) then Gap(i)
    else place
  }

  /** An entry with a name has all others on the right side of it. */
  lemma Around(ns: seq<SlotName>, name: seq<byte>, j: nat)
    requires Sorted(ns) && j < |ns| && ns[j] == Named(name)
    ensures forall i :: 0 <= i < j && ns[i].Named? ==> FindMatch(ns[i].name, name) == Less
    ensures forall i :: j < i < |ns| && ns[i].Named? ==> FindMatch(ns[i].name, name) == Greater
  {
    hide FindMatch;
    forall i | j < i < |ns| && ns[i].Named?
      ensures FindMatch(ns[i].name, name) == Greater
    {
      Mirrored(name, ns[i].name);
    }
  }

  lemma CreateTidy(ns: seq<SlotName>, spliced: bool, i: nat)
    requires Tidy(ns, spliced) && Filled(ns) && i <= |ns| && (i < |ns| ==> !ns[i].Hidden?)
    ensures Tidy(InsertAt(ns, i, Unnamed), true)
  {
    hide FindMatch;
    var ns' := InsertAt(ns, i, Unnamed);
    assert forall k :: 0 <= k < i ==> ns'[k] == ns[k];
    assert forall k :: i < k < |ns'| ==> ns'[k] == ns[k - 1];
    assert ns'[i] == Unnamed;
  }

  lemma CreateRight(ns: seq<SlotName>, name: seq<byte>, place: Place, i: nat)
    requires Right(ns, name, place) && i <= |ns|
    ensures Right(InsertAt(ns, i, Unnamed), name, PlaceAfterCreate(place, i))
  {
    hide FindMatch;
    var ns' := InsertAt(ns, i, Unnamed);
    assert forall k :: 0 <= k < i ==> ns'[k] == ns[k];
    assert forall k :: i < k < |ns'| ==> ns'[k] == ns[k - 1];
    assert ns'[i] == Unnamed;
  }

  lemma CreateWitnessed(ns: seq<SlotName>, spliced: bool, place: Place, i: nat)
    requires HiddenFirst(ns) && Witnessed(ns, spliced, place) && Filled(ns) && i <= |ns|
    ensures Witnessed(InsertAt(ns, i, Unnamed), true, PlaceAfterCreate(place, i))
  {
    var ns' := InsertAt(ns, i, Unnamed);
    assert forall k :: 0 <= k < i ==> ns'[k] == ns[k];
    assert forall k :: i < k < |ns'| ==> ns'[k] == ns[k - 1];
    assert ns'[i] == Unnamed;
  }

  lemma CreateKeeps(ns: seq<SlotName>, spliced: bool, name: seq<byte>, place: Place, i: nat)
    requires Keeps(ns, spliced, name, place) && Filled(ns) && i <= |ns| && (i < |ns| ==> !ns[i].Hidden?)
    ensures Keeps(InsertAt(ns, i, Unnamed), true, name, PlaceAfterCreate(place, i))
  {
    hide FindMatch, Right, Witnessed, PlaceAfterCreate;
    CreateTidy(ns, spliced, i);
    CreateRight(ns, name, place, i);
    CreateWitnessed(ns, spliced, place, i);
  }

  lemma DeleteTidy(ns: seq<SlotName>, spliced: bool, i: nat)
    requires Tidy(ns, spliced) && Filled(ns) && i < |ns|
    ensures Tidy(RemoveAt(ns, i), true)
  {
    hide FindMatch;
    var ns' := RemoveAt(ns, i);
    assert forall k :: 0 <= k < i ==> ns'[k] == ns[k];
    assert forall k :: i <= k < |ns'| ==> ns'[k] == ns[k + 1];
  }

  lemma DeleteRight(ns: seq<SlotName>, name: seq<byte>, place: Place, i: nat)
    requires Sorted(ns) && Right(ns, name, place) && i < |ns|
    ensures Right(RemoveAt(ns, i), name, PlaceAfterDelete(place, i))
  {
    hide FindMatch;
    var ns' := RemoveAt(ns, i);
    if place.Hit? {
      Around(ns, name, place.id);
    }
    assert forall k :: 0 <= k < i ==> ns'[k] == ns[k];
    assert forall k :: i <= k < |ns'| ==> ns'[k] == ns[k + 1];
  }

  lemma DeleteWitnessed(ns: seq<SlotName>, spliced: bool, name: seq<byte>, place: Place, i: nat)
    requires HiddenFirst(ns) && Right(ns, name, place) && Witnessed(ns, spliced, place) && Filled(ns) && i < |ns|
    ensures Witnessed(RemoveAt(ns, i), true, PlaceAfterDelete(place, i))
  {
    hide FindMatch;
    var ns' := RemoveAt(ns, i);
    assert forall k :: 0 <= k < i ==> ns'[k] == ns[k];
    assert forall k :: i <= k < |ns'| ==> ns'[k] == ns[k + 1];
  }

  lemma DeleteKeeps(ns: seq<SlotName>, spliced: bool, name: seq<byte>, place: Place, i: nat)
    requires Keeps(ns, spliced, name, place) && Filled(ns) && i < |ns|
    ensures Keeps(RemoveAt(ns, i), true, name, PlaceAfterDelete(place, i))
  {
    hide FindMatch, Right, Witnessed, PlaceAfterDelete;
    DeleteTidy(ns, spliced, i);
    DeleteRight(ns, name, place, i);
    DeleteWitnessed(ns, spliced, name, place, i);
  }

  /** Naming a file: if it comes after a gap its name is greater, if it is greater what follows it is, too. */
  lemma NameFits(ns: seq<SlotName>, spliced: bool, name: seq<byte>, place: Place, i: nat, n: seq<byte>)
    requires Keeps(ns, spliced, name, place) && i < |ns| && ns[i].Unnamed?
    requires Sorted(ns[i := Named(n)])
    ensures place.Hit? && i < place.id ==> FindMatch(n, name) == Less
    ensures place.Gap? && place.id <= i ==> FindMatch(n, name) == Greater
    ensures FindMatch(n, name) == Greater ==>
              forall k :: i < k < |ns| && ns[k].Named? ==> FindMatch(ns[k].name, name) == Greater
  {
    hide FindMatch;
    var ns' := ns[i := Named(n)];
    Mirrored(n, name);
    if place.Hit? && i < place.id {
      assert ns'[place.id] == Named(name) && FindMatch(ns'[i].name, ns'[place.id].name) == Less;
    }
    if place.Gap? && place.id <= i {
      var g := place.id;
      assert ns'[g].Named? && FindMatch(ns'[g].name, ns'[i].name) == Less;
      Mirrored(ns[g].name, name);
      Transitive(name, ns[g].name, n);
    }
    if FindMatch(n, name) == Greater {
      forall k | i < k < |ns| && ns[k].Named?
        ensures FindMatch(ns[k].name, name) == Greater
      {
        assert FindMatch(ns'[i].name, ns'[k].name) == Less;
        Transitive(name, n, ns[k].name);
        Mirrored(name, ns[k].name);
      }
    }
  }

  lemma NameKeeps(ns: seq<SlotName>, spliced: bool, name: seq<byte>, place: Place, i: nat, n: seq<byte>)
    requires Keeps(ns, spliced, name, place) && i < |ns| && ns[i].Unnamed?
    requires Tidy(ns[i := Named(n)], spliced)
    ensures Keeps(ns[i := Named(n)], spliced, name, PlaceAfterName(place, i, FindMatch(n, name)))
  {
    hide FindMatch;
    var ns', res := ns[i := Named(n)], FindMatch(n, name);
    EqualIsSame(n, name);
    NameFits(ns, spliced, name, place, i, n);
    if place.Hit? && i < place.id && res == Greater {
      assert false;
    }
  }

  lemma HideKeeps(ns: seq<SlotName>, spliced: bool, name: seq<byte>, place: Place, i: nat)
    requires Keeps(ns, spliced, name, place) && i < |ns| && ns[i].Unnamed?
    requires Tidy(ns[i := Hidden], spliced)
    ensures Keeps(ns[i := Hidden], spliced, name, place)
  {
    hide FindMatch;
    if place.Gap? && place.id <= i {
      assert ns[i := Hidden][place.id] == ns[place.id];
    }
  }

  lemma GrowKeeps(ns: seq<SlotName>, name: seq<byte>, place: Place, n: nat)
    requires Keeps(ns, false, name, place) && |ns| <= n
    ensures Keeps(ns + seq(n - |ns|, _ => Unnamed), false, name, place)
  {
    hide FindMatch;
  }

  // ---------- the names of a replayed log ----------

  function NameOf(slot: Slot): SlotName {
    match LastOf(slot, But8, TYPE_NAME)
    case None => Unnamed
    case Some(e) => NameIn(e)
  }

  function NameIn(e: Entry): SlotName { if e.tag.kind < 0x80 then Named(e.data) else Hidden }

  function NamesOf(d: Dir): (ns: seq<SlotName>)
    ensures |ns| == |d.slots|
    ensures forall i :: 0 <= i < |ns| ==> ns[i] == NameOf(d.slots[i])
  {
    seq(|d.slots|, i requires 0 <= i < |d.slots| => NameOf(d.slots[i]))
  }

  function GrowNames(ns: seq<SlotName>, n: nat): (r: seq<SlotName>)
    ensures |r| == if n <= |ns| then |ns| else n
  {
    if n <= |ns| then ns else ns + seq(n - |ns|, _ => Unnamed)
  }

  lemma NameAppends(slot: Slot, e: Entry)
    ensures NameOf(slot + [e]) == if IsName(e.tag) then NameIn(e) else NameOf(slot)
  {
    LastOfAppend(slot, e, But8, TYPE_NAME);
  }

  lemma NamesCreated(d: Dir, e: Entry)
    requires CanApply(d, e.tag) && e.tag.kind == TYPE_CREATE
    ensures NamesOf(Apply(d, e)) == InsertAt(NamesOf(d), e.tag.id, Unnamed)
  {
    assert NameOf([]) == Unnamed;
  }

  lemma NamesDeleted(d: Dir, e: Entry)
    requires CanApply(d, e.tag) && e.tag.kind == TYPE_DELETE
    ensures NamesOf(Apply(d, e)) == RemoveAt(NamesOf(d), e.tag.id)
  {
  }

  lemma NamesWritten(d: Dir, e: Entry)
    requires CanApply(d, e.tag) && !IsSplice(e.tag)
    ensures NamesOf(Apply(d, e)) == if IsName(e.tag) then GrowNames(NamesOf(d), e.tag.id + 1)[e.tag.id := NameIn(e)]
              else NamesOf(d)
  {
    hide NameOf, NameIn;
    NoName();
    if e.tag.id != NO_ID {
      var i := e.tag.id;
      NameAppends(if i < |d.slots| then d.slots[i] else [], e);
      assert forall k :: 0 <= k < |d.slots| && k != i ==> Apply(d, e).slots[k] == d.slots[k];
    }
  }

  lemma NoName()
    ensures NameOf([]) == Unnamed
  {
  }

  /**
   How the file system writes logs: a file is named once, and before the next create or delete; deletes are empty
   tags; and the names that are there are sorted.
   */
  predicate OrderedStep(d: Dir, e: Entry) {
    && CanApply(d, e.tag)
    && (e.tag.kind == TYPE_CREATE ==> Filled(NamesOf(d)) && (e.tag.id < |d.slots| ==> !NamesOf(d)[e.tag.id].Hidden?))
    && (e.tag.kind == TYPE_DELETE ==> Filled(NamesOf(d)) && e.tag.size == 0)
    && (IsName(e.tag) && e.tag.id < |d.slots| ==> NamesOf(d)[e.tag.id].Unnamed?)
    && Tidy(NamesOf(Apply(d, e)), Apply(d, e).spliced)
  }

  predicate Ordered(log: seq<Entry>)
    decreases |log|
  {
    log == [] || (
      && var e, older := log[|log| - 1], log[..|log| - 1];
      && Ordered(older) && WellFormed(older) && OrderedStep(Replay(older), e))
  }

  // ---------- the best match is right ----------

  function PlaceOf(best: word): Place {
    if best == NO_MATCH then Nowhere else if IsValid(best) then Hit(IdOf(best)) else Gap(IdOf(best))
  }

  lemma SpliceTags(tag: word, best: word)
    requires IsValid(tag)
    ensures IsSpliceWord(tag) <==> IsSplice(Unpack(tag))
    ensures tag == 0x4ff0_0000 + IdOf(best) * 0x400 <==> Unpack(tag) == Tag(TYPE_DELETE, IdOf(best), 0)
  {
    SpliceWord(tag);
    var t := Tag(TYPE_DELETE, IdOf(best), 0);
    PackUnpacks(t);
    if Unpack(tag) == t {
      UnpackInjective(tag, Pack(t));
    }
  }

  lemma PositionFields(best: word)
    ensures !IsValid(Position(best)) && IdOf(Position(best)) == IdOf(best)
  {
    OnlyTop(best);
  }

  lemma OnlyTop(w: word)
    ensures Unpack(Position(w)) == Unpack(w)
  {
    UnpackIgnoresValid(w);
    TopBitApart(Clear(w));
  }

  lemma NoMatchId()
    ensures IdOf(NO_MATCH) == NO_ID && !IsValid(NO_MATCH) && TypeOf(NO_MATCH) == 0x7ff
  {
  }

  /** Moving the id of the best match by one. */
  lemma ShiftsBest(best: word, k: int)
    requires -1 <= k <= 1 && 0 <= IdOf(best) + k < NO_ID
    ensures var best' := Plus(best, IdShift(k));
            Unpack(best') == Unpack(best).(id := IdOf(best) + k) && (IsValid(best') <==> IsValid(best))
            && best' != NO_MATCH
  {
    hide IdOf, SizeOf;
    PlusShift(best, IdOf(best) + k);
    WithIdFields(best, IdOf(best) + k);
    TopStays(best, IdOf(best) + k);
    NoMatchId();
  }

  lemma TopStays(w: word, id: nat)
    requires id < 0x400
    ensures IsValid(WithId(w, id)) <==> IsValid(w)
  {
    SplitWord(w);
    UnpackValid(w);
  }

  lemma SpliceBest(best: word, tag: word)
    requires IsValid(tag) && (Unpack(tag).kind == TYPE_CREATE || (Unpack(tag).kind == TYPE_DELETE && SizeOf(tag) == 0))
    requires best == NO_MATCH || IdOf(best) + (if Unpack(tag).kind == TYPE_CREATE then 1 else 0) < NO_ID
    ensures IsSpliceWord(tag)
    ensures PlaceOf(BestAfterSplice(best, tag)) ==
            if Unpack(tag).kind == TYPE_CREATE then PlaceAfterCreate(PlaceOf(best), IdOf(tag))
              else PlaceAfterDelete(PlaceOf(best), IdOf(tag))
    ensures var best' := BestAfterSplice(best, tag);
            IsValid(best') ==> Unpack(best') == Unpack(best).(id := IdOf(best'))
  {
    hide IdOf, SizeOf, TypeOf, IdShift, Plus;
    SpliceTags(tag, best);
    NoMatchId();
    PositionFields(best);
    if best != NO_MATCH && IdOf(tag) <= IdOf(best) && tag != 0x4ff0_0000 + IdOf(best) * 0x400 {
      ShiftsBest(best, Unpack(tag).Splice());
    }
  }

  lemma NameTags(tag: word)
    requires IsValid(tag)
    ensures IsFileName(tag) <==> Unpack(tag).kind < 0x80
    ensures IsSpliceWord(tag) <==> IsSplice(Unpack(tag))
  {
    SplitWord(tag);
    SpliceWord(tag);
    UnpackValid(tag);
  }

  lemma NameBest(best: word, tag: word, res: Order)
    requires IsValid(tag) && IsFileName(tag)
    requires best == NO_MATCH || (IdOf(best) < NO_ID && (res != Equal ==> IdOf(best) != IdOf(tag)))
    requires IdOf(tag) < NO_ID
    ensures PlaceOf(BestAfterName(best, tag, res)) == PlaceAfterName(PlaceOf(best), IdOf(tag), res)
    ensures res == Equal ==> BestAfterName(best, tag, res) == tag
    ensures IsValid(BestAfterName(best, tag, res)) && res != Equal ==> BestAfterName(best, tag, res) == best
  {
    hide IdOf, SizeOf, TypeOf, Masked;
    NameTags(tag);
    NoMatchId();
    ExactMask(tag, best);
    PositionFields(tag);
  }

  /** A hit carries the tag of the name that was found, under the id its file has now. */
  predicate HitIsName(d: Dir, best: word) {
    IsValid(best) ==>
      && IdOf(best) < |d.slots|
      && var e := LastOf(d.slots[IdOf(best)], But8, TYPE_NAME);
      && e.Some? && Unpack(best) == e.value.tag.(id := IdOf(best))
  }

  predicate GoodMatch(d: Dir, name: seq<byte>, best: word) {
    && Keeps(NamesOf(d), d.spliced, name, PlaceOf(best))
    && HitIsName(d, best)
    && (best == NO_MATCH || IdOf(best) <= |d.slots|)
  }

  lemma CreateMatch(d: Dir, name: seq<byte>, best: word, r: Raw)
    requires IsRaw(r) && GoodMatch(d, name, best) && OrderedStep(d, View(r)) && Unpack(r.tag).kind == TYPE_CREATE
    ensures GoodMatch(Apply(d, View(r)), name, BestAfter(Some(name), best, r))
  {
    hide Keeps, Filled, Tidy, BestAfterSplice, IdOf, SizeOf, TypeOf, LastOf, NameOf;
    SpliceBest(best, r.tag);
    NamesCreated(d, View(r));
    CreateKeeps(NamesOf(d), d.spliced, name, PlaceOf(best), IdOf(r.tag));
  }

  lemma DeleteMatch(d: Dir, name: seq<byte>, best: word, r: Raw)
    requires IsRaw(r) && GoodMatch(d, name, best) && OrderedStep(d, View(r)) && Unpack(r.tag).kind == TYPE_DELETE
    ensures GoodMatch(Apply(d, View(r)), name, BestAfter(Some(name), best, r))
  {
    hide Keeps, Filled, Tidy, BestAfterSplice, IdOf, SizeOf, TypeOf, LastOf, NameOf;
    SpliceBest(best, r.tag);
    NamesDeleted(d, View(r));
    DeleteKeeps(NamesOf(d), d.spliced, name, PlaceOf(best), IdOf(r.tag));
  }

  /** The place is not that of a file without a name. */
  lemma PlaceIsElsewhere(ns: seq<SlotName>, spliced: bool, name: seq<byte>, place: Place, i: nat)
    requires Keeps(ns, spliced, name, place) && (i < |ns| ==> ns[i].Unnamed?)
    requires i >= |ns| ==> !spliced
    ensures place.Nowhere? || place.id != i
  {
    hide FindMatch;
  }

  lemma NameGrows(ns: seq<SlotName>, spliced: bool, name: seq<byte>, place: Place, i: nat)
    requires Keeps(ns, spliced, name, place) && (i < |ns| ==> ns[i].Unnamed?)
    requires i >= |ns| ==> !spliced
    ensures Keeps(GrowNames(ns, i + 1), spliced, name, place) && GrowNames(ns, i + 1)[i].Unnamed?
  {
    hide FindMatch, Tidy, Right, Witnessed;
    if i >= |ns| {
      GrowKeeps(ns, name, place, i + 1);
    }
  }

  lemma NamePlace(ns: seq<SlotName>, spliced: bool, name: seq<byte>, place: Place, i: nat, n: SlotName)
    requires Keeps(ns, spliced, name, place) && (i < |ns| ==> ns[i].Unnamed?)
    requires i >= |ns| ==> !spliced
    requires !n.Unnamed? && Tidy(GrowNames(ns, i + 1)[i := n], spliced)
    ensures Keeps(GrowNames(ns, i + 1)[i := n], spliced, name,
                  if n.Named? then PlaceAfterName(place, i, FindMatch(n.name, name)) else place)
  {
    hide FindMatch, Tidy, Right, Witnessed, PlaceAfterName;
    NameGrows(ns, spliced, name, place, i);
    if n.Named? {
      NameKeeps(GrowNames(ns, i + 1), spliced, name, place, i, n.name);
    } else {
      HideKeeps(GrowNames(ns, i + 1), spliced, name, place, i);
    }
  }

  /** Naming a file leaves the others' names alone. */
  lemma NamedSlot(d: Dir, e: Entry, k: nat)
    requires CanApply(d, e.tag) && !IsSplice(e.tag) && IsName(e.tag) && k < |Apply(d, e).slots|
    ensures e.tag.id < |Apply(d, e).slots|
    ensures LastOf(Apply(d, e).slots[k], But8, TYPE_NAME) ==
            if k == e.tag.id then Some(e) else if k < |d.slots| then LastOf(d.slots[k], But8, TYPE_NAME) else None
  {
    hide LastOf, Apply, CanApply, IsSplice;
    NamedSlots(d, e, k);
    LastOfAppend(if e.tag.id < |d.slots| then d.slots[e.tag.id] else [], e, But8, TYPE_NAME);
    NoLast(But8, TYPE_NAME);
  }

  lemma NoLast(group: Group, kind: nat)
    ensures LastOf([], group, kind) == None
  {
  }

  lemma NamedSlots(d: Dir, e: Entry, k: nat)
    requires CanApply(d, e.tag) && !IsSplice(e.tag) && IsName(e.tag) && k < |Apply(d, e).slots|
    ensures e.tag.id < |Apply(d, e).slots|
    ensures Apply(d, e).slots[k] ==
            if k == e.tag.id then (if k < |d.slots| then d.slots[k] else []) + [e]
            else if k < |d.slots| then d.slots[k] else []
  {
  }

  lemma NameMatch(d: Dir, name: seq<byte>, best: word, r: Raw)
    requires IsRaw(r) && GoodMatch(d, name, best) && OrderedStep(d, View(r)) && IsName(Unpack(r.tag))
    ensures GoodMatch(Apply(d, View(r)), name, BestAfter(Some(name), best, r))
  {
    hide Keeps, Tidy, BestAfterName, IdOf, SizeOf, TypeOf, LastOf, FindMatch;
    NameTags(r.tag);
    UnpackValid(r.tag);
    var e, i := View(r), IdOf(r.tag);
    NamesWritten(d, e);
    PlaceIsElsewhere(NamesOf(d), d.spliced, name, PlaceOf(best), i);
    NamePlace(NamesOf(d), d.spliced, name, PlaceOf(best), i, NameIn(e));
    var best' := BestAfter(Some(name), best, r);
    if IsFileName(r.tag) {
      NameBest(best, r.tag, FindMatch(r.data, name));
    }
    if IsValid(best') {
      NamedSlot(d, e, if best' == r.tag then i else IdOf(best));
    }
    NoMatchId();
  }

  lemma OtherMatch(d: Dir, name: seq<byte>, best: word, r: Raw)
    requires IsRaw(r) && GoodMatch(d, name, best) && OrderedStep(d, View(r))
    requires !IsName(Unpack(r.tag)) && !IsSplice(Unpack(r.tag))
    ensures GoodMatch(Apply(d, View(r)), name, BestAfter(Some(name), best, r))
  {
    hide Keeps, Tidy, IdOf, SizeOf, TypeOf, LastOf, FindMatch;
    NameTags(r.tag);
    NamesWritten(d, View(r));
    if IsValid(best) && r.tag != 0 && Unpack(r.tag).id == IdOf(best) {
      LastOfAppend(d.slots[IdOf(best)], View(r), But8, TYPE_NAME);
    }
  }

  lemma {:induction false} BestIsGood(log: seq<Raw>, name: seq<byte>)
    requires IsRawLog(log) && WellFormed(ViewLog(log)) && Ordered(ViewLog(log))
    ensures GoodMatch(Replay(ViewLog(log)), name, BestOf(Some(name), log))
    decreases |log|
  {
    hide GoodMatch, OrderedStep, Apply, CanApply, BestAfter;
    if log == [] {
      NothingIsGood(name);
    } else {
      var r, older := log[|log| - 1], log[..|log| - 1];
      assert ViewLog(log)[..|log| - 1] == ViewLog(older) && ViewLog(log)[|log| - 1] == View(r);
      assert IsRaw(r);
      BestIsGood(older, name);
      StepIsGood(Replay(ViewLog(older)), name, BestOf(Some(name), older), r);
    }
  }

  lemma NothingIsGood(name: seq<byte>)
    ensures GoodMatch(Replay([]), name, BestOf(Some(name), []))
  {
    NoMatchId();
  }

  lemma StepIsGood(d: Dir, name: seq<byte>, best: word, r: Raw)
    requires IsRaw(r) && GoodMatch(d, name, best) && OrderedStep(d, View(r))
    ensures CanApply(d, Unpack(r.tag)) && GoodMatch(Apply(d, View(r)), name, BestAfter(Some(name), best, r))
  {
    hide GoodMatch, Apply, BestAfter;
    if Unpack(r.tag).kind == TYPE_CREATE {
      CreateMatch(d, name, best, r);
    } else if Unpack(r.tag).kind == TYPE_DELETE {
      DeleteMatch(d, name, best, r);
    } else if IsName(Unpack(r.tag)) {
      NameMatch(d, name, best, r);
    } else {
      OtherMatch(d, name, best, r);
    }
  }

  // ---------- what a search concludes ----------

  /** Putting the name at the place keeps the names sorted. */
  lemma PlaceSorts(ns: seq<SlotName>, name: seq<byte>, place: Place, id: nat)
    requires Sorted(ns) && Right(ns, name, place) && !place.Hit?
    requires id == if place.Nowhere? then |ns| else place.id
    ensures id <= |ns| && Sorted(InsertAt(ns, id, Named(name)))
    ensures Named(name) !in ns
  {
    hide FindMatch;
    EqualIsSame(name, name);
    var ns' := InsertAt(ns, id, Named(name));
    assert forall k :: 0 <= k < id ==> ns'[k] == ns[k];
    assert forall k :: id < k < |ns'| ==> ns'[k] == ns[k - 1];
    forall i, j | 0 <= i < j < |ns'| && ns'[i].Named? && ns'[j].Named?
      ensures FindMatch(ns'[i].name, ns'[j].name) == Less
    {
      if i == id {
        Mirrored(ns'[j].name, name);
      }
    }
  }

  lemma SortedIsUnique(ns: seq<SlotName>, name: seq<byte>, i: nat, j: nat)
    requires Sorted(ns) && i < |ns| && j < |ns| && ns[i] == ns[j] == Named(name)
    ensures i == j
  {
    EqualIsSame(name, name);
  }

  /**
   Looking for a name in a sorted directory, whatever its log is made of: the match is valid exactly when the name is
   there, and then it is the tag of that name under the id its file has now; if it is not, the id of the match, or the
   number of files if that is less, is where a file of that name keeps the directory sorted.
   */
  lemma FindsOrPlaces(log: seq<Raw>, name: seq<byte>)
    requires IsRawLog(log) && WellFormed(ViewLog(log)) && Ordered(ViewLog(log))
    ensures var d, best := Replay(ViewLog(log)), BestOf(Some(name), log);
            var ns, id := NamesOf(d), Min(IdOf(best), |d.slots|);
            && (IsValid(best) <==> Named(name) in ns)
            && (IsValid(best) ==> id == IdOf(best) < |ns| && ns[id] == Named(name) && HitIsName(d, best))
            && (IsValid(best) ==> forall j :: 0 <= j < |ns| && ns[j] == Named(name) ==> j == id)
            && (!IsValid(best) ==> Sorted(InsertAt(ns, id, Named(name))))
  {
    hide FindMatch, LastOf, BestOf, Replay, IdOf, WellFormed, Ordered;
    var d, best := Replay(ViewLog(log)), BestOf(Some(name), log);
    BestIsGood(log, name);
    NoMatchId();
    if IsValid(best) {
      forall j | 0 <= j < |d.slots| && NamesOf(d)[j] == Named(name)
        ensures j == IdOf(best)
      {
        SortedIsUnique(NamesOf(d), name, j, IdOf(best));
      }
    } else {
      PlaceSorts(NamesOf(d), name, PlaceOf(best), Min(IdOf(best), |d.slots|));
    }
  }

  /**
   Why a file may be named only once: "b", "d", and then "c" over "b". A search for "b" gives up its match and with it
   the place, and a file of that name would be put behind "d".
   */
  lemma RenamedInPlaceIsMisplaced()
    ensures var b, d, c := Raw(0x0010_0001, [98]), Raw(0x0010_0401, [100]), Raw(0x0010_0001, [99]);
            && BestOf(Some([98]), [b, d, c]) == NO_MATCH
            && !Sorted(InsertAt([Named([99]), Named([100])], 2, Named([98])))
  {
    hide IdOf, SizeOf, TypeOf, Masked;
    var name: seq<byte>, b, d, c := [98], Raw(0x0010_0001, [98]), Raw(0x0010_0401, [100]), Raw(0x0010_0001, [99]);
    NoMatchId();
    TagsOfNames();
    ByteOrder(98, 98);
    ByteOrder(100, 98);
    ByteOrder(99, 98);
    NameTags(b.tag);
    NameTags(d.tag);
    assert [b, d, c][..2] == [b, d] && [b, d][..1] == [b] && [b][..0] == [];
    assert BestOf(Some(name), []) == NO_MATCH;
    assert BestOf(Some(name), [b]) == b.tag;
    ExactMask(d.tag, b.tag);
    assert BestOf(Some(name), [b, d]) == b.tag;
    var ns := InsertAt([Named([99]), Named([100])], 2, Named(name));
    assert ns[0] == Named([99]) && ns[2] == Named(name);
  }

  lemma TagsOfNames()
    ensures IdOf(0x0010_0001) == 0 && TypeOf(0x0010_0001) == 1 && IdOf(0x0010_0401) == 1 && TypeOf(0x0010_0401) == 1
    ensures !IsSplice(Unpack(0x0010_0001)) && !IsSplice(Unpack(0x0010_0401))
  {
  }

  lemma ByteOrder(a: byte, b: byte)
    ensures FindMatch([a], [b]) == if a == b then Equal else if a < b then Less else Greater
  {
    FirstByte([a], [b]);
    assert [a][1..] == [] && [b][1..] == [];
    FirstByte([], []);
  }

  // ---------- lfs_dir_fetchmatch ----------

  lemma CountStep(s: DirState, d: Dir, r: Raw)
    requires IsRaw(r) && CanApply(d, Unpack(r.tag)) && s.count == |d.slots|
    requires IsTailWord(r.tag) ==> |r.data| >= PAIR_SIZE
    ensures StateWith(s, r).count == |Apply(d, View(r)).slots|
  {
    ApplyCount(d, View(r));
    WordClasses(r.tag);
  }

  lemma WordClasses(w: word)
    requires IsValid(w)
    ensures IsNameWord(w) <==> IsName(Unpack(w))
    ensures IsSpliceWord(w) <==> IsSplice(Unpack(w))
  {
    SplitWord(w);
    SpliceWord(w);
    UnpackValid(w);
  }

  /** The number of files that a fetch counts is the number of files that there are. */
  lemma {:induction false} CountIsReplay(log: seq<Raw>)
    requires IsRawLog(log) && Robust(log) && WellFormed(ViewLog(log))
    ensures StateOfLog(log).count == |Replay(ViewLog(log)).slots|
    decreases |log|
  {
    hide StateWith, Apply, CanApply;
    if log != [] {
      var r, older := log[|log| - 1], log[..|log| - 1];
      assert ViewLog(log)[..|log| - 1] == ViewLog(older) && ViewLog(log)[|log| - 1] == View(r);
      assert IsRaw(r);
      CountIsReplay(older);
      CountStep(StateOfLog(older), Replay(ViewLog(older)), r);
    }
  }

  /** What a search returns: the tag of the entry, that there is none, or that it would belong after this pair. */
  datatype Search = Hitting(tag: word) | Missing | Beyond | Corrupt

  /** The best match after a synthetic move: as if the file had been deleted. */
  function BestAfterMove(best: word, moveId: nat): word
    requires moveId < NO_ID
  {
    BestAfterSplice(best, Pack(Tag(TYPE_DELETE, moveId, 0)))
  }

  lemma MoveTag(best: word, moveId: nat)
    requires moveId < NO_ID
    ensures BestAfterMove(best, moveId) ==
            if moveId == IdOf(best) then Position(best)
            else if best != NO_MATCH && moveId < IdOf(best) then Plus(best, IdShift(-1))
            else best
  {
    hide IdOf, Plus, IdShift;
    var t := Tag(TYPE_DELETE, moveId, 0);
    PackUnpacks(t);
    SpliceTags(Pack(t), best);
    assert IdOf(Pack(t)) == moveId;
    assert t.Splice() == -1;
  }

  lemma MoveIsGood(d: Dir, name: seq<byte>, best: word, moveId: nat)
    requires GoodMatch(d, name, best) && moveId < |d.slots| < NO_ID && Filled(NamesOf(d))
    ensures var d' := d.(slots := RemoveAt(d.slots, moveId), spliced := true);
            NamesOf(d') == RemoveAt(NamesOf(d), moveId) && GoodMatch(d', name, BestAfterMove(best, moveId))
  {
    hide Keeps, Filled, Tidy, IdOf, BestAfterSplice, LastOf, NameOf;
    var t := Tag(TYPE_DELETE, moveId, 0);
    PackUnpacks(t);
    var r := Raw(Pack(t), []);
    DsizeAgrees(Pack(t));
    assert View(r) == TagLog.Entry(t, []);
    NamesDeleted(d, View(r));
    DeleteKeeps(NamesOf(d), d.spliced, name, PlaceOf(best), moveId);
    KeepsTidy(RemoveAt(NamesOf(d), moveId), true, name, PlaceAfterDelete(PlaceOf(best), moveId));
    DeleteMatch(d, name, best, r);
    IsDeleteWord(Pack(t));
  }

  lemma KeepsTidy(ns: seq<SlotName>, spliced: bool, name: seq<byte>, place: Place)
    requires Keeps(ns, spliced, name, place)
    ensures Tidy(ns, spliced)
  {
  }

  lemma IsDeleteWord(w: word)
    requires IsValid(w) && Unpack(w).kind == TYPE_DELETE
    ensures IsSpliceWord(w)
  {
    WordClasses(w);
  }

  /** What a search must come to, for the names that users see. */
  predicate Concludes(ns: seq<SlotName>, count: nat, name: seq<byte>, r: Search, id: nat) {
    && !r.Corrupt?
    && (r.Hitting? <==> Named(name) in ns)
    && (r.Hitting? ==> IsValid(r.tag) && id == IdOf(r.tag) < |ns| && ns[id] == Named(name))
    && (!r.Hitting? ==> Sorted(InsertAt(ns, Min(id, |ns|), Named(name))) && (r.Missing? <==> id < count))
  }

  lemma ConcludesRight(d: Dir, name: seq<byte>, best: word, count: nat, r: Search, id: nat)
    requires GoodMatch(d, name, best) && |d.slots| <= count < NO_ID && id == Min(IdOf(best), count)
    requires r == if IsValid(best) then Hitting(best) else if IdOf(best) < count then Missing else Beyond
    ensures Concludes(NamesOf(d), count, name, r, id)
  {
    hide FindMatch, IdOf, LastOf;
    NoMatchId();
    if !IsValid(best) {
      PlaceSorts(NamesOf(d), name, PlaceOf(best), Min(id, |d.slots|));
    }
  }

  /** All names are less than the one that is looked for: it can only be in a pair that follows. */
  predicate AllLess(ns: seq<SlotName>, name: seq<byte>) {
    forall i :: 0 <= i < |ns| && ns[i].Named? ==> FindMatch(ns[i].name, name) == Less
  }

  /**
   The best match is the gap that a deleted file left behind the last one, and a pending move shifts it into the
   directory: the name passes for one that belongs here.
   */
  predicate Overlooks(log: seq<Raw>, name: seq<byte>, moveHere: bool)
    requires WellFormed(ViewLog(log))
  {
    moveHere && IdOf(BestOf(Some(name), log)) == |Replay(ViewLog(log)).slots|
  }

  /** The best match once a pending move is taken into account. */
  function BestSeen(best: word, moveHere: bool, moveId: nat): word
    requires moveHere ==> moveId < NO_ID
  {
    if moveHere then BestAfterMove(best, moveId) else best
  }

  lemma LessIffBeyond(ns: seq<SlotName>, spliced: bool, name: seq<byte>, place: Place)
    requires Keeps(ns, spliced, name, place)
    ensures AllLess(ns, name) <==> place.Nowhere? || (place.Gap? && |ns| <= place.id)
  {
    hide FindMatch;
    EqualIsSame(name, name);
    if place.Gap? && place.id < |ns| {
      assert ns[place.id].Named?;
    }
  }

  lemma BeyondIffLess(d: Dir, name: seq<byte>, best: word, moveHere: bool, moveId: nat)
    requires GoodMatch(d, name, best) && |d.slots| < NO_ID
    requires moveHere ==> moveId < |d.slots| && Filled(NamesOf(d))
    ensures !IsValid(BestSeen(best, moveHere, moveId)) && |d.slots| <= IdOf(BestSeen(best, moveHere, moveId))
       <==> AllLess(NamesOf(d), name) && !(moveHere && IdOf(best) == |d.slots|)
  {
    hide FindMatch, IdOf, LastOf, NameOf, BestAfterMove, Position, Plus, IdShift;
    NoMatchId();
    LessIffBeyond(NamesOf(d), d.spliced, name, PlaceOf(best));
    if moveHere {
      MoveTag(best, moveId);
      PositionFields(best);
      if best != NO_MATCH && moveId < IdOf(best) {
        ShiftsBest(best, -1);
      }
    }
  }

  /**
   lfs_dir_fetchmatch for a name, in a pair with at least one intact commit: the entry is found exactly if a file
   that users see has the name, and otherwise the id is where it belongs.
   */
  method FetchMatch(p: Pair, name: seq<byte>, moveHere: bool, moveTag: word)
    returns (r: Search, id: nat, dir: Option<Mdir>)
    requires p.Valid() && Active(p).Some?
    requires var log := Fetched(p.Block(Active(p).value));
             && Robust(log) && WellFormed(ViewLog(log)) && Ordered(ViewLog(log))
             && (moveHere ==> IdOf(moveTag) < |Replay(ViewLog(log)).slots| && Filled(NamesOf(Replay(ViewLog(log)))))
    ensures var d := Replay(ViewLog(Fetched(p.Block(Active(p).value))));
            Concludes(NamesOf(Seen(d, moveHere, IdOf(moveTag))), |d.slots|, name, r, id)
    ensures var log := Fetched(p.Block(Active(p).value));
            r.Beyond? <==> AllLess(NamesOf(Replay(ViewLog(log))), name) && !Overlooks(log, name, moveHere)
    ensures dir.Some? && dir == FetchedDir(p)
  {
    hide FetchedDir, Active, Fetched, Robust, WellFormed, Ordered, Replay, BestOf, Concludes, NamesOf, Position,
         IdShift, IdOf, IsDir, AllLess, IsValid, GoodMatch, Filled, Seen, BestAfterMove;
    var best;
    dir, best := FetchPair(p, Some(name));
    ghost var log, d := SearchedDir(p, name, dir);
    MovesWithin(d, moveHere, IdOf(moveTag));
    BeyondIffLess(d, name, best, moveHere, IdOf(moveTag));
    // synthetic move
    if moveHere {
      MoveTag(best, IdOf(moveTag));
      MoveIsGood(d, name, best, IdOf(moveTag));
      NamesInSlots(d.(slots := RemoveAt(d.slots, IdOf(moveTag)), spliced := true), Seen(d, true, IdOf(moveTag)));
      d := d.(slots := RemoveAt(d.slots, IdOf(moveTag)), spliced := true);
      if IdOf(moveTag) == IdOf(best) {
        best := Position(best);
      } else if best != NO_MATCH && IdOf(moveTag) < IdOf(best) {
        best := Plus(best, IdShift(-1));
      }
    }
    // found tag? or found best id?
    id := Min(IdOf(best), dir.value.state.count);
    r := if IsValid(best) then Hitting(best) else if IdOf(best) < dir.value.state.count then Missing else Beyond;
    ConcludesRight(d, name, best, dir.value.state.count, r, id);
  }

  lemma MovesWithin(d: Dir, moveHere: bool, moveId: nat)
    requires moveHere ==> moveId < |d.slots|
    ensures moveHere ==> Seen(d, moveHere, moveId).slots == RemoveAt(d.slots, moveId)
    ensures !moveHere ==> Seen(d, moveHere, moveId) == d
  {
  }

  /** The names of files depend on nothing else. */
  lemma NamesInSlots(d: Dir, d': Dir)
    requires d.slots == d'.slots
    ensures NamesOf(d) == NamesOf(d')
  {
    hide NameOf;
  }

  /** What a fetch finds, and what its log says. */
  lemma SearchedDir(p: Pair, name: seq<byte>, dir: Option<Mdir>) returns (log: seq<Raw>, d: Dir)
    requires p.Valid() && Active(p).Some? && dir == FetchedDir(p)
    requires var log := Fetched(p.Block(Active(p).value));
             Robust(log) && WellFormed(ViewLog(log)) && Ordered(ViewLog(log))
    ensures dir.Some? && log == Fetched(p.Block(dir.value.active)) == Fetched(p.Block(Active(p).value))
    ensures d == Replay(ViewLog(log)) && GoodMatch(d, name, BestOf(Some(name), log))
    ensures dir.value.state.count == |d.slots| < NO_ID
  {
    hide Fetched, Robust, WellFormed, Ordered, BestOf, GoodMatch, NamesOf, StateOf, Encode, RevisionOf, LastLink,
         Erased, Active;
    var i := Active(p).value;
    log := Fetched(p.Block(i));
    d := Replay(ViewLog(log));
    ActiveIsBlock(p);
    FetchedIsLongest(p.Block(i), log);
    BestIsGood(log, name);
    BlockIsDir(i, p.Block(i));
    CountIsReplay(log);
  }

  lemma ActiveIsBlock(p: Pair)
    requires p.Valid() && Active(p).Some?
    ensures Active(p).value <= 1 && HEADER <= |p.Block(Active(p).value)|
  {
  }
}
