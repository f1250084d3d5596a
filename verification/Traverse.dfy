/**
 lfs_dir_traverse: one pass over the entries of a metadata log and the pending attributes. For every entry
 that belongs to a file it first runs over all later ones, which may make it redundant or shift its id.
 */
module Traverse {
  import opened Options
  import Bits
  import opened Words
  import opened Tags
  import opened TagLog
  import opened RawLog
  import opened Lookup
  import opened Compaction

  /** The tag of an item as it is passed around: what comes from disk has its valid bit set. */
  function WordOf(x: Item): word
    requires x.tag.Valid()
  {
    Pack(x.tag) + if x.disk then 0x8000_0000 else 0
  }

  lemma WordUnpacks(x: Item)
    requires x.tag.Valid()
    ensures Unpack(WordOf(x)) == x.tag && (IsValid(WordOf(x)) <==> !x.disk)
  {
    PackUnpacks(x.tag);
    TopBitApart(Pack(x.tag));
  }

  // LFS_MKTAG(LFS_FROM_NOOP, 0, 0)
  const NOOP: word := 0

  /** lfs_tag_type3: the type with the valid bit */
  function Type3(w: word): nat { w / 0x10_0000 }

  /**
   (LFS_MKTAG(LFS_TYPE_MOVESTATE, 0x3ff, 0) & tag) == (LFS_MKTAG(LFS_TYPE_DELETE, 0, 0) | (LFS_MKTAG(0, 0x3ff, 0) &
   filtertag))
   */
  predicate DeletesFile(tag: word, filtertag: word) {
    Masked(MASK_EXACT, tag) == Pack(Tag(TYPE_DELETE, IdOf(filtertag), 0))
  }

  lemma DeletesFileIs(tag: word, filtertag: word)
    ensures DeletesFile(tag, filtertag) <==> TypeOf(tag) == TYPE_DELETE && IdOf(tag) == IdOf(filtertag)
  {
    hide Masked, TypeOf, IdOf, SizeOf, Pack;
    var t := Tag(TYPE_DELETE, IdOf(filtertag), 0);
    UnpackValid(filtertag);
    PackUnpacks(t);
    ExactMask(tag, Pack(t));
    PackIsMasked(t);
  }

  lemma PackIsMasked(t: Tag)
    requires t.Valid() && t.size == 0
    ensures Masked(MASK_EXACT, Pack(t)) == Pack(t)
  {
    hide Masked, TypeOf, IdOf, SizeOf;
    PackUnpacks(t);
    EightAndThree();
    MaskKeeps(0, 1, 11, 0x800, MASK_EXACT, Pack(t), t.kind, 0);
  }

  lemma EightAndThree()
    ensures Bits.Pow2(0) == 1 && Bits.Pow2(11) == 0x800
  {
  }

  /** Which mask depends on the unique bit in the type: LFS_TYPE_FROM */
  function FilterMask(tag: word): word {
    if tag / 0x1000_0000 % 2 == 1 then MASK_EXACT else MASK_CLASS
  }

  lemma FilterMaskIs(tag: word)
    ensures GroupOf(FilterMask(tag)) == MaskOf(TypeOf(tag)) && IsLookupMask(FilterMask(tag))
  {
    SplitWord(tag);
    ClassParity(tag / 0x10_0000);
    TopOfWord(tag);
  }

  lemma ClassParity(kind: nat)
    requires kind < 0x1000
    ensures kind % 0x800 / 0x100 % 2 == kind / 0x100 % 2
  {
    if kind >= 0x800 {
      assert (kind - 0x800) / 0x100 == kind / 0x100 - 8;
    }
  }

  lemma SpliceWordInMemory(tag: word)
    ensures IsSpliceWord(tag) <==> IsValid(tag) && IsSplice(Unpack(tag))
  {
    if IsValid(tag) {
      SpliceWord(tag);
    }
  }

  /** The filter shifts an id that stays in range. */
  lemma ShiftsId(w: word, k: int)
    requires -0x400 < k < 0x400 && 0 <= IdOf(w) + k < 0x400
    ensures Unpack(Plus(w, IdShift(k))) == Unpack(w).(id := IdOf(w) + k)
    ensures Type3(Plus(w, IdShift(k))) == Type3(w)
  {
    hide IdOf, Unpack;
    PlusShift(w, IdOf(w) + k);
    WithIdFields(w, IdOf(w) + k);
    WithIdType(w, IdOf(w) + k);
  }

  lemma WithIdType(w: word, id: nat)
    requires id < 0x400
    ensures Type3(WithId(w, id)) == Type3(w)
  {
    SplitWord(w);
    Fields(WithId(w, id), w / 0x10_0000, id, SizeOf(w));
  }

  /** lfs_dir_traverse_filter */
  method TraverseFilter(filtertag: word, tag: word) returns (res: bool, filtertag': word)
    requires OnlySplices(Unpack(tag)) && IdOf(filtertag) < 0x3ff
    ensures var r := FilterStep(Unpack(filtertag), Unpack(tag), !IsValid(tag));
            && (res <==> r.None?)
            && (if res then filtertag' == NOOP
                else Unpack(filtertag') == r.value && Type3(filtertag') == Type3(filtertag))
  {
    hide Masked, TypeOf, IdOf, SizeOf, Type3, Pack, IsSpliceWord, WordIsDelete, DeletesFile, FilterMask, GroupOf,
         MaskOf, Plus, IdShift;
    UnpackValid(tag);
    UnpackValid(filtertag);
    FilterMaskIs(tag);
    MatchMask(FilterMask(tag), tag, filtertag);
    DsizeAgrees(filtertag);
    DeletesFileIs(tag, filtertag);
    SpliceWordInMemory(tag);
    // check for redundancy
    if Masked(FilterMask(tag), tag) == Masked(FilterMask(tag), filtertag) || WordIsDelete(filtertag)
    || DeletesFile(tag, filtertag) {
      return true, NOOP;
    }
    // check if we need to adjust for created/deleted tags
    if IsSpliceWord(tag) && IdOf(tag) <= IdOf(filtertag) {
      ShiftsId(filtertag, Unpack(tag).Splice());
      return false, Plus(filtertag, IdShift(Unpack(tag).Splice()));
    }
    return false, filtertag;
  }

  // ---------- the pass ----------

  /**
   Items as they occur: the log before the attributes, no splices but creates and deletes, and no file whose id leaves
   the range of ids on the way. Where on disk files were created and deleted does not matter.
   */
  predicate CanTraverse(items: seq<Item>) {
    && (forall i :: 0 <= i < |items| ==> IsProper(items[i]))
    && (forall i, j :: 0 <= i < j < |items| && !items[i].disk ==> !items[j].disk)
    && (forall i :: 0 <= i < |items| && items[i].tag.kind < TYPE_SPLICE ==> StaysInRange(items[i].tag, items[i + 1..]))
  }

  predicate IsProper(x: Item) {
    x.tag.Valid() && OnlySplices(x.tag) && (x.IsNoop() ==> x.tag.id == 0 && !x.disk)
  }

  /** What is on the stack while later items are run over: where to go on, and the tag they are compared with. */
  datatype Frame = Frame(next: nat, tag: word)

  /** The inner run: everything later is compared with the tag on the stack, until it is found redundant. */
  method Scan(items: seq<Item>, frame: Frame) returns (tag: word)
    requires frame.next <= |items| && forall i :: 0 <= i < |items| ==> IsProper(items[i])
    requires StaysInRange(Unpack(frame.tag), items[frame.next..])
    ensures var r := Filter(Unpack(frame.tag), items[frame.next..]);
            if r.None? then tag == NOOP else Unpack(tag) == r.value && Type3(tag) == Type3(frame.tag)
  {
    hide Type3, WordOf;
    tag := frame.tag;
    var i := frame.next;
    var res := false;
    ghost var wanted := Filter(Unpack(frame.tag), items[frame.next..]);
    while !res && i < |items|
      invariant frame.next <= i <= |items|
      invariant if res then tag == NOOP && wanted == None
                else && StaysInRange(Unpack(tag), items[i..]) && wanted == Filter(Unpack(tag), items[i..])
                     && Type3(tag) == Type3(frame.tag)
      decreases !res, |items| - i
    {
      var x := items[i];
      FilterNext(Unpack(tag), items, i);
      // handle special cases for mcu-side operations
      if !x.IsNoop() {
        WordUnpacks(x);
        res, tag := TraverseFilter(tag, WordOf(x));
      }
      i := i + 1;
    }
  }

  /** The id that the filter keeps track of never leaves the range of ids. */
  predicate StaysInRange(f: Tag, later: seq<Item>)
    decreases |later|
  {
    && f.id < NO_ID
    && (later != [] ==>
          if later[0].IsNoop() then StaysInRange(f, later[1..])
          else var r := FilterStep(f, later[0].tag, later[0].disk); r.Some? ==> StaysInRange(r.value, later[1..]))
  }

  lemma FilterNext(f: Tag, items: seq<Item>, i: nat)
    requires i < |items| && StaysInRange(f, items[i..])
    ensures var x := items[i];
            && f.id < NO_ID
            && if x.IsNoop() then
                 Filter(f, items[i..]) == Filter(f, items[i + 1..]) && StaysInRange(f, items[i + 1..])
               else
                 var r := FilterStep(f, x.tag, x.disk);
                 if r.None? then Filter(f, items[i..]) == None
                 else Filter(f, items[i..]) == Filter(r.value, items[i + 1..]) && StaysInRange(r.value, items[i + 1..])
  {
    assert items[i..][0] == items[i] && items[i..][1..] == items[i + 1..];
  }

  /** As many files as ids allow for: the ids there are, and as many more as files are still to be created in memory. */
  function Creates(items: seq<Item>): (n: nat) {
    if items == [] then 0
    else Creates(items[1..]) + if !items[0].disk && items[0].tag.kind == TYPE_CREATE then 1 else 0
  }

  /** With that much room no id leaves its range. */
  lemma {:induction false} RoomIsEnough(f: Tag, later: seq<Item>)
    requires f.id + Creates(later) < NO_ID && forall i :: 0 <= i < |later| ==> IsProper(later[i])
    ensures StaysInRange(f, later)
    decreases |later|
  {
    if later != [] {
      var x := later[0];
      if x.IsNoop() {
        RoomIsEnough(f, later[1..]);
      } else {
        var r := FilterStep(f, x.tag, x.disk);
        if r.Some? {
          SpliceIsOne(x);
          RoomIsEnough(r.value, later[1..]);
        }
      }
    }
  }

  /** So a pair whose ids leave room for the creates that are pending can be traversed, whatever its history. */
  lemma RoomToTraverse(items: seq<Item>)
    requires forall i :: 0 <= i < |items| ==> IsProper(items[i])
    requires forall i, j :: 0 <= i < j < |items| && !items[i].disk ==> !items[j].disk
    requires forall i :: 0 <= i < |items| && items[i].tag.kind < TYPE_SPLICE ==>
               items[i].tag.id + Creates(items) < NO_ID
    ensures CanTraverse(items)
  {
    forall i | 0 <= i < |items| && items[i].tag.kind < TYPE_SPLICE
      ensures StaysInRange(items[i].tag, items[i + 1..])
    {
      CreatesFewer(items, i + 1);
      RoomIsEnough(items[i].tag, items[i + 1..]);
    }
  }

  lemma {:induction false} CreatesFewer(items: seq<Item>, i: nat)
    requires i <= |items|
    ensures Creates(items[i..]) <= Creates(items)
    decreases i
  {
    if i == 0 {
      assert items[0..] == items;
    } else {
      CreatesFewer(items, i - 1);
      assert items[i - 1..][1..] == items[i..];
    }
  }

  lemma SpliceIsOne(x: Item)
    requires IsProper(x)
    ensures IsSplice(x.tag) ==> x.tag.Splice() == if x.tag.kind == TYPE_CREATE then 1 else -1
  {
  }

  lemma {:induction false} FilterStays(f: Tag, d: Dir, later: seq<Item>)
    requires CanTakeAll(d, later) && |d.slots| < NO_ID
    requires f.id < |d.slots| || (f.id <= |d.slots| && forall i :: 0 <= i < |later| ==> !later[i].disk)
    ensures StaysInRange(f, later)
    decreases |later|
  {
    if later != [] {
      var x, d1 := later[0], Take(d, later[0]);
      if x.IsNoop() {
        FilterStays(f, d1, later[1..]);
      } else {
        ApplyCount(d, x.Entry());
        var r := FilterStep(f, x.tag, x.disk);
        if r.Some? {
          FilterStays(r.value, d1, later[1..]);
        }
      }
    }
  }

  lemma KeptIs(x: Item, later: seq<Item>, begin: nat, end: nat, tag: word)
    requires x.tag.Valid() && (x.IsNoop() ==> !x.disk)
    requires x.tag.kind < TYPE_SPLICE
    requires var r := Filter(x.tag, later);
             if r.None? then tag == NOOP else Unpack(tag) == r.value && Type3(tag) == Type3(WordOf(x))
    ensures Kept(x, later, begin, end)
         == if begin <= IdOf(tag) < end && Type3(tag) != FROM_NOOP
            then [Entry(Unpack(tag).(id := IdOf(tag) - begin), x.data)] else []
  {
    WordUnpacks(x);
    Fields(Pack(x.tag), x.tag.kind, x.tag.id, x.tag.size);
    TopType(x);
  }

  lemma TopType(x: Item)
    requires x.tag.Valid()
    ensures Type3(WordOf(x)) == x.tag.kind + if x.disk then 0x800 else 0
  {
    Fields(WordOf(x), x.tag.kind + if x.disk then 0x800 else 0, x.tag.id, x.tag.size);
  }

  lemma CompactRest(items: seq<Item>, i: nat, begin: nat, end: nat)
    requires i < |items|
    ensures Compact(items[i..], begin, end)
            == Kept(items[i], items[i + 1..], begin, end) + Compact(items[i + 1..], begin, end)
  {
    assert items[i..][1..] == items[i + 1..];
  }

  /** An entry that belongs to a file has an id in the range of ids once it is there. */
  lemma TakenInRange(d: Dir, x: Item)
    requires CanTake(d, x) && x.tag.kind < TYPE_SPLICE && (x.IsNoop() ==> x.tag.id == 0)
    ensures |Take(d, x).slots| < NO_ID
    ensures x.tag.id < |Take(d, x).slots| || (x.IsNoop() && x.tag.id <= |Take(d, x).slots|)
  {
    if !x.IsNoop() {
      ApplyCount(d, x.Entry());
    }
  }

  /** Items that replay can take are items that can be traversed. */
  lemma {:induction false} TakenCanTraverse(d: Dir, items: seq<Item>)
    requires CanTakeAll(d, items) && |d.slots| < NO_ID
    requires forall i :: 0 <= i < |items| ==> IsProper(items[i])
    requires forall i, j :: 0 <= i < j < |items| && !items[i].disk ==> !items[j].disk
    ensures CanTraverse(items)
    decreases |items|
  {
    hide CanTake, Take, StaysInRange;
    if items != [] {
      var x, rest := items[0], items[1..];
      TakeRest(d, items);
      TakenCanTraverse(Take(d, x), rest);
      if x.tag.kind < TYPE_SPLICE {
        TakenInRange(d, x);
        FilterStays(x.tag, Take(d, x), rest);
      }
      forall i | 0 <= i < |items| && items[i].tag.kind < TYPE_SPLICE
        ensures StaysInRange(items[i].tag, items[i + 1..])
      {
        if i > 0 {
          assert rest[i - 1] == items[i] && rest[i - 1 + 1..] == items[i + 1..];
        }
      }
    }
  }

  /** lfs_dir_traverse over a directory and its pending attributes: what its callback is called with. */
  method Traverse(items: seq<Item>, begin: nat, end: nat) returns (out: seq<Entry>)
    requires CanTraverse(items)
    ensures out == Compact(items, begin, end)
  {
    hide Compact, Kept, Filter, StaysInRange, WordOf, Unpack, Type3, IdOf;
    out := [];
    var i := 0;
    assert items[0..] == items;
    while i < |items|
      invariant 0 <= i <= |items|
      invariant Compact(items, begin, end) == out + Compact(items[i..], begin, end)
    {
      var x := items[i];
      assert IsProper(x);
      CompactRest(items, i, begin, end);
      i := i + 1;
      // do we need to filter?
      if x.tag.kind < TYPE_SPLICE {
        WordUnpacks(x);
        // recurse, scan for duplicates, and update tag based on creates/deletes
        var tag := Scan(items, Frame(i, WordOf(x)));
        KeptIs(x, items[i..], begin, end, tag);
        // in filter range?
        if begin <= IdOf(tag) < end && Type3(tag) != FROM_NOOP {
          out := out + [Entry(Unpack(tag).(id := IdOf(tag) - begin), x.data)];
        }
      } else {
        NothingKept(x, items[i..], begin, end);
      }
    }
    NothingLeft(items[i..], begin, end);
  }

  lemma NothingKept(x: Item, later: seq<Item>, begin: nat, end: nat)
    requires x.tag.kind >= TYPE_SPLICE
    ensures Kept(x, later, begin, end) == []
  {
  }

  lemma NothingLeft(items: seq<Item>, begin: nat, end: nat)
    requires items == []
    ensures Compact(items, begin, end) == []
  {
  }
}
