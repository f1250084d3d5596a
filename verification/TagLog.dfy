/**
 What a metadata log means: replayed forwards it builds a list of files, one slot per id.
 Looking something up walks the log backwards instead, shifting the id over every
 create and delete it passes; the main lemma says that both agree.
 */
module TagLog {
  import opened Options
  import opened Words
  import opened Tags

  datatype Entry = Entry(tag: Tag, data: seq<byte>)

  /** Everything written for one file since it was created, oldest first. */
  type Slot = seq<Entry>

  /**
   The files of a metadata pair in id order, the entries that belong to no file,
   and whether an id was created or deleted since the log was last compacted.
   */
  datatype Dir = Dir(slots: seq<Slot>, globals: seq<Entry>, spliced: bool)

  const EMPTY_DIR := Dir([], [], false)

  predicate IsName(t: Tag) { t.kind < 0x100 }

  predicate IsSplice(t: Tag) { TYPE_SPLICE <= t.kind < TYPE_CRC }

  // ---------- forwards ----------

  function InsertAt<T>(s: seq<T>, i: nat, x: T): (r: seq<T>)
    requires i <= |s|
    ensures |r| == |s| + 1
  {
    s[..i] + [x] + s[i..]
  }

  function RemoveAt<T>(s: seq<T>, i: nat): (r: seq<T>)
    requires i < |s|
    ensures |r| == |s| - 1
  {
    s[..i] + s[i + 1..]
  }

  /** A compacted log names its files in any order, so a name may make room for the ids below it. */
  function Grow(slots: seq<Slot>, count: nat): (r: seq<Slot>)
    requires |slots| <= count
    ensures |r| == count
  {
    slots + seq(count - |slots|, _ => [])
  }

  predicate CanApply(d: Dir, t: Tag) {
    && t.Valid()
    && |d.slots| < NO_ID
    && (if t.kind == TYPE_CREATE then t.id <= |d.slots| && |d.slots| + 1 < NO_ID
        else if t.kind == TYPE_DELETE then t.id < |d.slots|
        else !IsSplice(t) && ((t.id == NO_ID && TYPE_CRC <= t.kind) || t.id < |d.slots|
                              || (IsName(t) && !d.spliced && t.id + 1 < NO_ID)))
  }

  function Apply(d: Dir, e: Entry): (r: Dir)
    requires CanApply(d, e.tag)
    ensures |r.slots| < NO_ID
  {
    var i := e.tag.id;
    if e.tag.kind == TYPE_CREATE then d.(slots := InsertAt(d.slots, i, []), spliced := true)
    else if e.tag.kind == TYPE_DELETE then d.(slots := RemoveAt(d.slots, i), spliced := true)
    else if i == NO_ID then d.(globals := d.globals + [e])
    else
      var slots := if i < |d.slots| then d.slots else Grow(d.slots, i + 1);
      d.(slots := slots[i := slots[i] + [e]])
  }

  predicate WellFormed(log: seq<Entry>)
    decreases |log|, 0
  {
    log == [] || (WellFormed(log[..|log| - 1]) && CanApply(Replay(log[..|log| - 1]), log[|log| - 1].tag))
  }

  function Replay(log: seq<Entry>): (d: Dir)
    requires WellFormed(log)
    ensures |d.slots| < NO_ID
    decreases |log|, 1
  {
    if log == [] then EMPTY_DIR
    else Apply(Replay(log[..|log| - 1]), log[|log| - 1])
  }

  // ---------- lookups ----------

  /** The type mask of a lookup: all of the type, all but its low 7 bits, or all but its low 8. */
  datatype Group = Exact | But7 | But8 {
    function Of(kind: nat): nat {
      match this
      case Exact => kind
      case But7 => kind / 0x80
      case But8 => kind / 0x100
    }

    predicate Same(kind: nat, kind': nat) { Of(kind) == Of(kind') }
  }

  /** The last entry of a slot in the asked group, whether it sets or deletes. */
  function LastOf(slot: Slot, group: Group, kind: nat): (r: Option<Entry>)
    decreases |slot|
  {
    if slot == [] then None
    else
      var e := slot[|slot| - 1];
      if group.Same(e.tag.kind, kind) then Some(e)
      else LastOf(slot[..|slot| - 1], group, kind)
  }

  function Live(e: Option<Entry>): Option<Entry> {
    if e.Some? && e.value.tag.IsDelete() then None else e
  }

  /** What a slot holds for the asked group: a deleting entry counts as nothing. */
  function Lookup(d: Dir, group: Group, kind: nat, id: nat): Option<Entry>
  {
    if id < |d.slots| then Live(LastOf(d.slots[id], group, kind)) else None
  }

  /** The directory as its users see it while a file is being moved out of it: that file is not there any more. */
  function Seen(d: Dir, moveHere: bool, moveId: nat): Dir {
    if moveHere && moveId < |d.slots| then d.(slots := RemoveAt(d.slots, moveId)) else d
  }

  /** An entry as the caller sees it: carrying the id that was asked for. */
  function At(e: Option<Entry>, id: nat): Option<Entry> {
    if e.Some? then Some(e.value.(tag := e.value.tag.(id := id))) else None
  }

  // ---------- backwards ----------

  /** The walk of lfs_dir_getslice over decoded entries; `id` is the id wanted as of the end of `log`. */
  function LookBack(log: seq<Entry>, group: Group, kind: nat, id: nat): Option<Entry>
    decreases |log|
  {
    if log == [] then None
    else
      var e, older := log[|log| - 1], log[..|log| - 1];
      if IsSplice(e.tag) && e.tag.id <= id then
        if e.tag.kind == TYPE_CREATE && e.tag.id == id then None
        else if id - e.tag.Splice() < 0 then None
        else LookBack(older, group, kind, id - e.tag.Splice())
      else if e.tag.id == id && group.Same(e.tag.kind, kind) then Live(Some(e))
      else LookBack(older, group, kind, id)
  }

  /** Types that belong to a file: names, structs and user attributes. */
  predicate IsFileKind(kind: nat) { kind < TYPE_SPLICE && kind / 0x100 != 1 }

  function Deletes(log: seq<Entry>): nat
    decreases |log|
  {
    if log == [] then 0
    else Deletes(log[..|log| - 1]) + if log[|log| - 1].tag.kind == TYPE_DELETE then 1 else 0
  }

  lemma {:induction false} UnsplicedHasNoDeletes(log: seq<Entry>)
    requires WellFormed(log) && !Replay(log).spliced
    ensures Deletes(log) == 0
    decreases |log|
  {
    if log != [] {
      UnsplicedHasNoDeletes(log[..|log| - 1]);
    }
  }

  /**
   Ids a walk can ask for: those of the files there are, and beyond them as long as no delete can carry the id out of
   range.
   */
  predicate InReach(log: seq<Entry>, id: nat)
    requires WellFormed(log)
  {
    id < |Replay(log).slots| || id + Deletes(log) < NO_ID
  }

  lemma LookupCreated(d: Dir, e: Entry, group: Group, kind: nat, id: nat)
    requires CanApply(d, e.tag) && e.tag.kind == TYPE_CREATE
    ensures Lookup(Apply(d, e), group, kind, id)
         == if id == e.tag.id then None else Lookup(d, group, kind, if e.tag.id < id then id - 1 else id)
  {
  }

  lemma LookupDeleted(d: Dir, e: Entry, group: Group, kind: nat, id: nat)
    requires CanApply(d, e.tag) && e.tag.kind == TYPE_DELETE
    ensures Lookup(Apply(d, e), group, kind, id) == Lookup(d, group, kind, if e.tag.id <= id then id + 1 else id)
  {
  }

  lemma LastOfAppend(slot: Slot, e: Entry, group: Group, kind: nat)
    ensures LastOf(slot + [e], group, kind) == if group.Same(e.tag.kind, kind) then Some(e)
              else LastOf(slot, group, kind)
  {
    assert (slot + [e])[..|slot|] == slot;
  }

  lemma LookupWritten(d: Dir, e: Entry, group: Group, kind: nat, id: nat)
    requires CanApply(d, e.tag) && !IsSplice(e.tag) && id < NO_ID
    ensures Lookup(Apply(d, e), group, kind, id)
         == if e.tag.id == id && group.Same(e.tag.kind, kind) then Live(Some(e)) else Lookup(d, group, kind, id)
  {
    if e.tag.id == id {
      var before := if id < |d.slots| then d.slots[id] else [];
      LastOfAppend(before, e, group, kind);
      assert Apply(d, e).slots[id] == before + [e];
    }
  }

  /** The id an entry had before `t` was applied to the pair. */
  function OlderId(t: Tag, id: nat): int {
    if IsSplice(t) && t.id <= id then id - t.Splice() else id
  }

  /** How an entry changes the number of files: what a fetch keeps track of. */
  function CountAfter(n: nat, t: Tag): int {
    if IsSplice(t) then n + t.Splice()
    else if IsName(t) && t.id != NO_ID && n <= t.id then t.id + 1
    else n
  }

  lemma ApplyCount(d: Dir, e: Entry)
    requires CanApply(d, e.tag)
    ensures |Apply(d, e).slots| == CountAfter(|d.slots|, e.tag)
  {
  }

  lemma OlderInRange(n: nat, deletes: nat, t: Tag, id: nat)
    requires n < NO_ID && t.Valid()
    requires (t.kind == TYPE_CREATE && t.id <= n) || (t.kind == TYPE_DELETE && t.id < n) || !IsSplice(t)
    requires !IsSplice(t) && IsName(t) && n <= t.id < NO_ID ==> deletes == 0
    requires id < CountAfter(n, t) || id + deletes + (if t.kind == TYPE_DELETE then 1 else 0) < NO_ID
    requires id < NO_ID
    ensures (t.kind == TYPE_CREATE && t.id == id) ||
            (OlderId(t, id) >= 0 && (OlderId(t, id) < n || OlderId(t, id) + deletes < NO_ID))
  {
  }

  lemma OlderInReach(log: seq<Entry>, id: nat)
    requires WellFormed(log) && log != [] && InReach(log, id)
    ensures id < NO_ID
    ensures var e := log[|log| - 1];
            (e.tag.kind == TYPE_CREATE && e.tag.id == id) ||
            (OlderId(e.tag, id) >= 0 && InReach(log[..|log| - 1], OlderId(e.tag, id)))
  {
    var e, older := log[|log| - 1], log[..|log| - 1];
    var d := Replay(older);
    ApplyCount(d, e);
    if !IsSplice(e.tag) && |d.slots| <= e.tag.id < NO_ID {
      UnsplicedHasNoDeletes(older);
    }
    OlderInRange(|d.slots|, Deletes(older), e.tag, id);
  }

  lemma LookupStep(d: Dir, e: Entry, group: Group, kind: nat, id: nat)
    requires CanApply(d, e.tag) && IsFileKind(kind) && id < NO_ID
    ensures !IsSplice(e.tag) && e.tag.id == id && group.Same(e.tag.kind, kind) ==>
              Lookup(Apply(d, e), group, kind, id) == Live(Some(e))
    ensures e.tag.kind == TYPE_CREATE && e.tag.id == id ==> Lookup(Apply(d, e), group, kind, id) == None
    ensures !(e.tag.id == id && (e.tag.kind == TYPE_CREATE || (!IsSplice(e.tag) && group.Same(e.tag.kind, kind)))) ==>
              OlderId(e.tag, id) >= 0 &&
              Lookup(Apply(d, e), group, kind, id) == Lookup(d, group, kind, OlderId(e.tag, id))
  {
    if e.tag.kind == TYPE_CREATE {
      LookupCreated(d, e, group, kind, id);
    } else if e.tag.kind == TYPE_DELETE {
      LookupDeleted(d, e, group, kind, id);
    } else {
      LookupWritten(d, e, group, kind, id);
    }
  }

  lemma ReplayLast(log: seq<Entry>)
    requires WellFormed(log) && log != []
    ensures var e, older := log[|log| - 1], log[..|log| - 1];
            WellFormed(older) && CanApply(Replay(older), e.tag) && Replay(log) == Apply(Replay(older), e)
  {
  }

  lemma NothingReplayed(group: Group, kind: nat, id: nat)
    ensures WellFormed([]) && Lookup(Replay([]), group, kind, id) == None
  {
  }

  /**
   Looking back through the log finds what replaying it leaves in the slot, and nothing where replay leaves nothing.
   */
  lemma {:induction false} LookBackIsReplay(log: seq<Entry>, group: Group, kind: nat, id: nat)
    requires WellFormed(log) && IsFileKind(kind) && InReach(log, id)
    ensures LookBack(log, group, kind, id) == Lookup(Replay(log), group, kind, id)
    decreases |log|
  {
    if log == [] {
      NothingReplayed(group, kind, id);
    } else {
      hide InReach, CanApply, Apply, Lookup, Replay, WellFormed;
      var e, older := log[|log| - 1], log[..|log| - 1];
      ReplayLast(log);
      OlderInReach(log, id);
      LookupStep(Replay(older), e, group, kind, id);
      if !(e.tag.kind == TYPE_CREATE && e.tag.id == id) {
        LookBackIsReplay(older, group, kind, OlderId(e.tag, id));
      }
    }
  }
}
