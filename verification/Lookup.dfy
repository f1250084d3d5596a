/** lfs_dir_get: looking up a tag in the block of a metadata pair, from the end of its log. */
module Lookup {
  import opened Options
  import Bits
  import opened Words
  import opened Tags
  import opened TagLog
  import opened RawLog

  datatype Found = NoEntry | Corrupt | Found(tag: word, buffer: seq<byte>)

  /** What a type-and-id mask keeps of the type. */
  function GroupOf(gmask: word): Group {
    if gmask == MASK_CLASS then But8 else if gmask == MASK_NAME then But7 else Exact
  }

  predicate IsLookupMask(gmask: word) {
    gmask == MASK_EXACT || gmask == MASK_CLASS || gmask == MASK_NAME
  }

  /**
   The bytes handed back of an entry's data: from `goff` on as many as there are in the entry or were asked for,
   and zeros after them.
   */
  function Slice(data: seq<byte>, goff: nat, size: nat): (r: seq<byte>)
    requires goff + Min(|data|, size) <= |data|
    ensures |r| == size
    ensures forall k :: 0 <= k < size ==> r[k] == if k < |data| then data[goff + k] else 0
  {
    data[goff..goff + Min(|data|, size)] + seq(size - Min(|data|, size), _ => 0)
  }

  /**
   The answer in terms of entries: the entry under the id it was asked for. What is read past the end of its data
   are the bytes that follow in the block, or the read fails.
   */
  predicate Answers(r: Found, e: Option<Entry>, id: nat, goff: nat, size: nat) {
    match e
    case None => r == NoEntry
    case Some(x) =>
      && (r == Corrupt || (r.Found? && Unpack(r.tag) == x.tag.(id := id) && |r.buffer| == size))
      && (goff + Min(|x.data|, size) <= |x.data| ==> r.Found? && r.buffer == Slice(x.data, goff, size))
  }

  // ---------- ids that shift ----------

  /** 32-bit addition and subtraction */
  function Plus(a: word, b: word): word {
    if a + b < 0x1_0000_0000 then a + b else a + b - 0x1_0000_0000
  }

  function Minus(a: word, b: word): word {
    if a >= b then a - b else a + 0x1_0000_0000 - b
  }

  /** LFS_MKTAG(0, k, 0), for a k that may be negative */
  function IdShift(k: int): word
    requires -0x20_0000 < k < 0x20_0000
  {
    if k >= 0 then k * 0x400 else 0x1_0000_0000 + k * 0x400
  }

  /** A tag with another id. */
  function WithId(w: word, id: nat): word
    requires id < 0x400
  {
    w / 0x10_0000 * 0x10_0000 + id * 0x400 + SizeOf(w)
  }

  lemma WithIdFields(w: word, id: nat)
    requires id < 0x400
    ensures Unpack(WithId(w, id)) == Unpack(w).(id := id)
  {
    Fields(WithId(w, id), w / 0x10_0000, id, SizeOf(w));
    IdBelowKind(w / 0x10_0000, id);
  }

  /** The shift between the id asked for and the id where the walk has got to. */
  predicate Wants(gtag: word, gdiff: word, id: nat) {
    id < 0x400 && gdiff == IdShift(IdOf(gtag) - id)
  }

  /** The tag asked for, with the id it had where the walk has got to. */
  function Current(gtag: word, gdiff: word): word { Minus(gtag, gdiff) }

  lemma CurrentIs(gtag: word, gdiff: word, id: nat)
    requires Wants(gtag, gdiff, id)
    ensures Unpack(Current(gtag, gdiff)) == Unpack(gtag).(id := id)
  {
    MinusShift(gtag, id);
    WithIdFields(gtag, id);
  }

  lemma MinusShift(w: word, id: nat)
    requires id < 0x400
    ensures Minus(w, IdShift(IdOf(w) - id)) == WithId(w, id)
  {
    hide SizeOf, IdOf;
    SplitWord(w);
    UnpackValid(w);
    SumWraps(w, IdOf(w) - id);
  }

  lemma SumWraps(w: word, k: int)
    requires -0x400 < k < 0x400
    requires 0 <= w - k * 0x400 < 0x1_0000_0000
    ensures Minus(w, IdShift(k)) == w - k * 0x400
  {
  }

  lemma WantsInRange(gtag: word, gdiff: word, id: nat)
    requires Wants(gtag, gdiff, id)
    ensures id < 0x400
  {
  }

  lemma ShiftsAdd(a: int, b: int)
    requires -0x400 < a < 0x400 && -0x400 < b < 0x400
    ensures Plus(IdShift(a), IdShift(b)) == IdShift(a + b)
  {
  }

  /** Adding the shift to a tag found under the older id gives it the id asked for. */
  lemma ShiftBack(tag: word, gtag: word, gdiff: word)
    requires Wants(gtag, gdiff, IdOf(tag))
    ensures Unpack(Plus(tag, gdiff)) == Unpack(tag).(id := IdOf(gtag))
  {
    hide TypeOf, IdOf, SizeOf;
    SplitWord(tag);
    UnpackValid(tag);
    UnpackValid(gtag);
    PlusShift(tag, IdOf(gtag));
    WithIdFields(tag, IdOf(gtag));
  }

  lemma PlusShift(w: word, id: nat)
    requires id < 0x400
    ensures IdOf(w) < 0x400 && Plus(w, IdShift(id - IdOf(w))) == WithId(w, id)
  {
    hide IdOf, SizeOf;
    SplitWord(w);
    UnpackValid(w);
  }

  // ---------- the walk ----------

  /** LFS_MKTAG(0, lfs_tag_splice(tag), 0) */
  function SpliceShift(w: word): word {
    IdShift(Unpack(w).Splice())
  }

  lemma TopOfWord(w: word)
    ensures w / 0x1000_0000 == w / 0x10_0000 / 0x100
  {
  }

  lemma SpliceWord(w: word)
    requires IsValid(w)
    ensures IsSpliceWord(w) <==> IsSplice(Unpack(w))
  {
    TopOfWord(w);
    assert TypeOf(w) == w / 0x10_0000;
  }

  /** tag == (LFS_MKTAG(LFS_TYPE_CREATE, 0, 0) | (LFS_MKTAG(0, 0x3ff, 0) & gtag)) */
  predicate IsCreateOf(tag: word, gtag: word) {
    tag == 0x4010_0000 + IdOf(gtag) * 0x400
  }

  lemma CreateOf(tag: word, gtag: word)
    requires IsValid(tag)
    ensures IsCreateOf(tag, gtag) <==>
              TypeOf(tag) == TYPE_CREATE && IdOf(tag) == IdOf(gtag) && SizeOf(tag) == 0
  {
    var t := Tag(TYPE_CREATE, IdOf(gtag), 0);
    PackUnpacks(t);
    assert Pack(t) == 0x4010_0000 + IdOf(gtag) * 0x400;
    if Unpack(tag) == t {
      UnpackInjective(tag, Pack(t));
    }
  }

  lemma MatchMask(gmask: word, tag: word, cur: word)
    requires IsLookupMask(gmask)
    ensures Masked(gmask, tag) == Masked(gmask, cur) <==>
              GroupOf(gmask).Same(TypeOf(tag), TypeOf(cur)) && IdOf(tag) == IdOf(cur)
  {
    hide Masked, TypeOf, IdOf;
    if gmask == MASK_EXACT {
      ExactMask(tag, cur);
    } else if gmask == MASK_CLASS {
      ClassMask(tag, cur);
    } else {
      NameMask(tag, cur);
    }
  }

  predicate CreatesAreEmpty(log: seq<Raw>) {
    forall i :: 0 <= i < |log| && TypeOf(log[i].tag) == TYPE_CREATE ==> SizeOf(log[i].tag) == 0
  }

  lemma LinkKeepsFields(t: word)
    requires IsValid(t)
    ensures Clear(Link(t)) == t && Unpack(Link(t)) == Unpack(t)
  {
    UnpackIgnoresValid(t);
  }

  /** The tag before position k of the log, as the walk sees it. */
  function TagBefore(log: seq<Raw>, k: nat): word
    requires k <= |log|
  {
    if k == 0 then 0x7fff_ffff else log[k - 1].tag
  }

  lemma ClearFields(w: word, t: word)
    requires Clear(w) == t
    ensures Unpack(w) == Unpack(t)
    ensures WordDsize(w) == Unpack(t).Dsize() && WordDsize(t) == Unpack(t).Dsize()
  {
    UnpackIgnoresValid(w);
    DsizeAgrees(w);
    DsizeAgrees(t);
  }

  lemma LastLinkClears(log: seq<Raw>, k: nat)
    requires IsRawLog(log) && k <= |log|
    ensures Clear(LastLink(log[..k])) == TagBefore(log, k)
  {
    if k != 0 {
      LinkKeepsFields(log[k - 1].tag);
    }
  }

  lemma PreviousTag(t: word, link: word, tag: word)
    requires Clear(tag) == t && Clear(t) == t
    ensures Clear(XorWord(XorWord(t, link), tag)) == Clear(link)
  {
    XorValid(t, link);
    XorValid(XorWord(t, link), tag);
    XorValid(tag, tag);
    Bits.XorCommutes(Clear(t), Clear(link));
    Bits.XorBack(Clear(link), t);
  }

  /** One step of the walk: from the end of entry k - 1 to its start, and to the tag before it. */
  lemma StepBack(block: seq<byte>, log: seq<Raw>, k: nat, ntag: word)
    requires Holds(block, log) && 0 < k <= |log|
    requires Clear(ntag) == log[k - 1].tag
    ensures var r, offset := log[k - 1], End(log[..k - 1]);
            && offset + WordDsize(ntag) == End(log[..k]) <= |block|
            && offset + 4 <= End(log[..k])
            && offset >= HEADER
            && Clear(XorWord(ReadBE32(block, offset), ntag)) == TagBefore(log, k - 1)
            && block[offset + 4..End(log[..k])] == r.data
  {
    HoldsPrefix(block, log, k);
    var front := log[..k];
    assert front[..k - 1] == log[..k - 1];
    HoldsLast(block, front);
    var r := log[k - 1];
    assert IsRaw(r);
    ClearFields(ntag, r.tag);
    LastLinkClears(log, k - 1);
    ClearOfValid(r.tag);
    PreviousTag(r.tag, LastLink(log[..k - 1]), ntag);
  }

  /** What is wanted is what the first k entries have for the id. */
  ghost predicate Seeking(v: seq<Entry>, k: nat, group: Group, kind: nat, id: nat, wanted: Option<Entry>) {
    && k <= |v|
    && WellFormed(v[..k]) && InReach(v[..k], id)
    && wanted == LookBack(v[..k], group, kind, id)
  }

  /** What the walk concludes from one entry: the answer, or under which id to go on looking. */
  datatype Verdict = Stop(entry: Option<Entry>) | Older(id: nat)

  function Judge(e: Entry, group: Group, kind: nat, id: nat): Verdict {
    if e.tag.kind == TYPE_CREATE && e.tag.id == id then Stop(None)
    else if !IsSplice(e.tag) && e.tag.id == id && group.Same(e.tag.kind, kind) then Stop(Live(Some(e)))
    else if OlderId(e.tag, id) < 0 then Stop(None)
    else Older(OlderId(e.tag, id))
  }

  lemma SeekOne(log: seq<Raw>, k: nat, group: Group, kind: nat, id: nat, wanted: Option<Entry>, v: Verdict)
    requires 0 < k <= |log| && IsFileKind(kind)
    requires Seeking(ViewLog(log), k, group, kind, id, wanted)
    requires v == Judge(View(log[k - 1]), group, kind, id)
    ensures id < NO_ID && OnlySplices(Unpack(log[k - 1].tag))
    ensures v.Stop? ==> wanted == v.entry
    ensures v.Older? ==> Seeking(ViewLog(log), k - 1, group, kind, v.id, wanted)
  {
    var view := ViewLog(log)[..k];
    assert view[..k - 1] == ViewLog(log)[..k - 1];
    OlderInReach(view, id);
  }

  /** Of the splice types only creates and deletes are ever written. */
  predicate OnlySplices(t: Tag) {
    IsSplice(t) ==> t.kind == TYPE_CREATE || t.kind == TYPE_DELETE
  }

  /** The tag as the walk has it: as it was written, or with the valid bit a checksum tag flips. */
  predicate Carries(tag: word, e: Raw) {
    IsRaw(e) && (tag == e.tag || tag == Link(e.tag)) && Unpack(tag) == Unpack(e.tag)
  }

  predicate DataAt(block: seq<byte>, offset: nat, e: Raw) {
    offset + 4 + |e.data| <= |block| && block[offset + 4..offset + 4 + |e.data|] == e.data
  }

  lemma SpliceOfLink(tag: word, t: word)
    requires IsValid(t) && (tag == t || tag == Link(t))
    ensures IsSpliceWord(tag) <==> IsSplice(Unpack(t))
    ensures IsSpliceWord(tag) ==> tag == t
  {
    SpliceWord(t);
  }

  /** The id to look for in the log: the file that is being moved away is not there for its users. */
  function WantedId(gtag: word, moveHere: bool, moveTag: word): nat {
    IdOf(gtag) + if moveHere && IdOf(moveTag) <= IdOf(gtag) then 1 else 0
  }

  /** Looking past the file that is being moved away finds what its users see under the id they ask for. */
  lemma WantedIsSeen(d: Dir, group: Group, kind: nat, gtag: word, moveHere: bool, moveTag: word)
    ensures TagLog.Lookup(d, group, kind, WantedId(gtag, moveHere, moveTag))
         == TagLog.Lookup(Seen(d, moveHere, IdOf(moveTag)), group, kind, IdOf(gtag))
  {
    hide IdOf, LastOf;
  }

  function FirstShift(gtag: word, moveHere: bool, moveTag: word): word {
    if moveHere && IdOf(moveTag) <= IdOf(gtag) then Minus(0, 0x400) else 0
  }

  lemma FirstCurrent(gtag: word, moveHere: bool, moveTag: word)
    requires WantedId(gtag, moveHere, moveTag) < NO_ID
    ensures Wants(gtag, FirstShift(gtag, moveHere, moveTag), WantedId(gtag, moveHere, moveTag))
  {
  }

  lemma WantsOlder(tag: word, gtag: word, gdiff: word, id: nat, older: nat)
    requires Wants(gtag, gdiff, id) && older < 0x400 && older == id - Unpack(tag).Splice()
    ensures Wants(gtag, Plus(gdiff, SpliceShift(tag)), older)
  {
    ShiftsAdd(IdOf(gtag) - id, Unpack(tag).Splice());
  }

  lemma CreatedHere(tag: word, gtag: word, gdiff: word, id: nat)
    requires Wants(gtag, gdiff, id) && IsValid(tag)
    requires TypeOf(tag) == TYPE_CREATE ==> SizeOf(tag) == 0
    ensures IsCreateOf(tag, Current(gtag, gdiff)) <==> TypeOf(tag) == TYPE_CREATE && IdOf(tag) == id
  {
    CurrentIs(gtag, gdiff, id);
    CreateOf(tag, Current(gtag, gdiff));
  }

  /** Walking back over one tag: either the file was created here, or its id may shift. */
  method PassTag(tag: word, gtag: word, gdiff: word, ghost t: word, ghost id: nat)
    returns (created: bool, gdiff': word)
    requires IsValid(t) && (tag == t || tag == Link(t)) && Unpack(tag) == Unpack(t)
    requires Wants(gtag, gdiff, id) && id < 0x3ff
    requires IsSplice(Unpack(t)) ==> TypeOf(t) == TYPE_CREATE || TypeOf(t) == TYPE_DELETE
    requires TypeOf(t) == TYPE_CREATE ==> SizeOf(t) == 0
    ensures created <==> TypeOf(t) == TYPE_CREATE && IdOf(t) == id
    ensures !created ==> OlderId(Unpack(t), id) >= 0 && Wants(gtag, gdiff', OlderId(Unpack(t), id))
  {
    hide Current, IsSpliceWord, IsCreateOf, IdShift, SpliceShift, TypeOf, IdOf, SizeOf, Link, Wants;
    created, gdiff' := false, gdiff;
    WantsInRange(gtag, gdiff, id);
    UnpackValid(t);
    SpliceOfLink(tag, t);
    CurrentIs(gtag, gdiff, id);
    if IsSpliceWord(tag) && IdOf(tag) <= IdOf(Current(gtag, gdiff)) {
      CreatedHere(tag, gtag, gdiff, id);
      created := IsCreateOf(tag, Current(gtag, gdiff));
      if !created {
        // move around splices
        WantsOlder(tag, gtag, gdiff, id, OlderId(Unpack(t), id));
        gdiff' := Plus(gdiff, SpliceShift(tag));
      }
    }
  }

  lemma SliceReads(block: seq<byte>, at: nat, data: seq<byte>, goff: nat, diff: nat)
    requires at + |data| <= |block| && block[at..at + |data|] == data && goff + diff <= |data|
    ensures block[at + goff..at + goff + diff] == data[goff..goff + diff]
  {
    var x, y := block[at + goff..at + goff + diff], data[goff..goff + diff];
    forall i | 0 <= i < |x|
      ensures x[i] == y[i]
    {
      assert block[at..at + |data|][goff + i] == block[at + (goff + i)];
    }
  }

  /** The bytes of an entry, `size` of which are there, from `goff` on; fails where they do not fit the block. */
  method ReadEntry(block: seq<byte>, offset: nat, size: nat, goff: nat, gsize: nat)
    returns (ok: bool, buffer: seq<byte>)
    requires offset + 4 + size <= |block|
    ensures ok ==> |buffer| == gsize
    ensures goff + Min(size, gsize) <= size ==> ok && buffer == Slice(block[offset + 4..offset + 4 + size], goff, gsize)
  {
    var diff := Min(size, gsize);
    if offset + 4 + goff + diff > |block| {
      return false, [];
    }
    if goff + diff <= size {
      SliceReads(block, offset + 4, block[offset + 4..offset + 4 + size], goff, diff);
    }
    return true, block[offset + 4 + goff..offset + 4 + goff + diff] + seq(gsize - diff, _ => 0);
  }

  /** A matching entry: either it deletes, or it is handed back with the id that was asked for. */
  method TakeEntry(block: seq<byte>, offset: nat, tag: word, gtag: word, gdiff: word, goff: nat, gsize: nat,
                   ghost e: Raw)
    returns (r: Found)
    requires IsRaw(e) && Unpack(tag) == Unpack(e.tag) && DataAt(block, offset, e)
    requires Wants(gtag, gdiff, IdOf(tag))
    ensures Answers(r, Live(Some(View(e))), IdOf(gtag), goff, gsize)
  {
    DsizeAgrees(tag);
    if WordIsDelete(tag) {
      return NoEntry;
    }
    var ok, buffer := ReadEntry(block, offset, SizeOf(tag), goff, gsize);
    if !ok {
      return Corrupt;
    }
    ShiftBack(tag, gtag, gdiff);
    return Found(Plus(tag, gdiff), buffer);
  }

  /** Under the mask of the lookup a tag is the wanted one exactly when its type and id are. */
  lemma Matches(gmask: word, gtag: word, gdiff: word, tag: word, id: nat)
    requires IsLookupMask(gmask) && Wants(gtag, gdiff, id)
    ensures Masked(gmask, tag) == Masked(gmask, Current(gtag, gdiff)) <==>
              GroupOf(gmask).Same(TypeOf(tag), TypeOf(gtag)) && IdOf(tag) == id
  {
    hide Masked, Current;
    CurrentIs(gtag, gdiff, id);
    assert Unpack(Current(gtag, gdiff)).kind == TypeOf(gtag);
    MatchMask(gmask, tag, Current(gtag, gdiff));
  }

  /** Where the walk is: at the end of the first k entries, about to look at the tag of the last of them. */
  ghost predicate Walking(log: seq<Raw>, k: nat, offset: nat, ntag: word) {
    && k <= |log|
    && offset == End(log[..k])
    && Clear(ntag) == TagBefore(log, k)
    && (k > 0 ==> ntag == log[k - 1].tag || ntag == Link(log[k - 1].tag))
  }

  /** Reads the tag before the one at hand. */
  method ReadBack(block: seq<byte>, offset: nat, tag: word, ghost log: seq<Raw>, ghost k: nat)
    returns (offset': nat, ntag: word)
    requires Holds(block, log) && Walking(log, k, offset, tag) && k > 0
    ensures Walking(log, k - 1, offset', ntag)
    ensures Carries(tag, log[k - 1]) && DataAt(block, offset', log[k - 1])
  {
    StepBack(block, log, k, tag);
    ClearFields(tag, log[k - 1].tag);
    offset' := offset - WordDsize(tag);
    ntag := Clear(XorWord(ReadBE32(block, offset'), tag));
    ClearTwice(XorWord(ReadBE32(block, offset'), tag));
    assert IsRaw(log[k - 1]);
  }

  lemma ClearTwice(w: word)
    ensures Clear(Clear(w)) == Clear(w)
  {
  }

  lemma Decides(e: Entry, group: Group, kind: nat, id: nat, matched: bool)
    requires !(e.tag.kind == TYPE_CREATE && e.tag.id == id) && OlderId(e.tag, id) >= 0
    requires matched <==> group.Same(e.tag.kind, kind) && e.tag.id == OlderId(e.tag, id)
    requires IsSplice(e.tag) ==> !group.Same(e.tag.kind, kind)
    ensures Judge(e, group, kind, id) == if matched then Stop(Live(Some(e))) else Older(OlderId(e.tag, id))
  {
  }

  /** What one entry means for the walk: the answer, or how the id shifts on the way to older entries. */
  method WalkOne(block: seq<byte>, offset: nat, tag: word, gmask: word, gtag: word, gdiff: word, goff: nat, gsize: nat,
                 ghost e: Raw, ghost id: nat, ghost v: Verdict)
    returns (done: bool, r: Found, gdiff': word)
    requires Carries(tag, e) && DataAt(block, offset, e)
    requires IsLookupMask(gmask) && IsFileKind(TypeOf(gtag))
    requires Wants(gtag, gdiff, id) && id < 0x3ff
    requires OnlySplices(Unpack(e.tag)) && (TypeOf(e.tag) == TYPE_CREATE ==> SizeOf(e.tag) == 0)
    requires v == Judge(View(e), GroupOf(gmask), TypeOf(gtag), id)
    ensures done <==> v.Stop?
    ensures done ==> Answers(r, v.entry, IdOf(gtag), goff, gsize)
    ensures !done ==> r == NoEntry && Wants(gtag, gdiff', v.id)
  {
    done, gdiff' := PassTag(tag, gtag, gdiff, e.tag, id);
    r := NoEntry;
    if !done {
      SplicesDiffer(gmask, Unpack(e.tag).kind, TypeOf(gtag));
      Matches(gmask, gtag, gdiff', tag, OlderId(Unpack(e.tag), id));
      Decides(View(e), GroupOf(gmask), TypeOf(gtag), id, Masked(gmask, tag) == Masked(gmask, Current(gtag, gdiff')));
      if Masked(gmask, tag) == Masked(gmask, Current(gtag, gdiff')) {
        r := TakeEntry(block, offset, tag, gtag, gdiff', goff, gsize, e);
        done := true;
      }
    }
  }

  lemma SplicesDiffer(gmask: word, kind: nat, kind': nat)
    requires IsFileKind(kind')
    ensures TYPE_SPLICE <= kind < TYPE_CRC ==> !GroupOf(gmask).Same(kind, kind')
  {
  }

  lemma StartSeeking(log: seq<Raw>, group: Group, kind: nat, id: nat)
    requires IsRawLog(log) && WellFormed(ViewLog(log)) && InReach(ViewLog(log), id)
    ensures id < NO_ID
    ensures Walking(log, |log|, End(log), LastLink(log))
    ensures Seeking(ViewLog(log), |log|, group, kind, id, LookBack(ViewLog(log), group, kind, id))
  {
    var v := ViewLog(log);
    assert v[..|log|] == v && log[..|log|] == log;
    LastLinkClears(log, |log|);
  }

  /** The walk has k entries left, and what is wanted is what they have for the id. */
  ghost predicate Halfway(log: seq<Raw>, gmask: word, gtag: word, k: nat, offset: nat, ntag: word, gdiff: word, id: nat,
                          wanted: Option<Entry>) {
    && Walking(log, k, offset, ntag) && Wants(gtag, gdiff, id)
    && Seeking(ViewLog(log), k, GroupOf(gmask), TypeOf(gtag), id, wanted)
  }

  /** One round of the walk. */
  method Round(block: seq<byte>, offset: nat, tag: word, gmask: word, gtag: word, gdiff: word, goff: nat, gsize: nat,
               ghost log: seq<Raw>, ghost k: nat, ghost id: nat, ghost wanted: Option<Entry>)
    returns (done: bool, r: Found, offset': nat, ntag: word, gdiff': word, ghost id': nat)
    requires Holds(block, log) && CreatesAreEmpty(log) && k > 0
    requires IsLookupMask(gmask) && IsFileKind(TypeOf(gtag))
    requires Halfway(log, gmask, gtag, k, offset, tag, gdiff, id, wanted)
    ensures done ==> Answers(r, wanted, IdOf(gtag), goff, gsize)
    ensures !done ==> r == NoEntry && Halfway(log, gmask, gtag, k - 1, offset', ntag, gdiff', id', wanted)
  {
    ghost var e := log[k - 1];
    ghost var v := Judge(View(e), GroupOf(gmask), TypeOf(gtag), id);
    SeekOne(log, k, GroupOf(gmask), TypeOf(gtag), id, wanted, v);
    offset', ntag := ReadBack(block, offset, tag, log, k);
    done, r, gdiff' := WalkOne(block, offset', tag, gmask, gtag, gdiff, goff, gsize, e, id, v);
    id' := if done then id else v.id;
  }

  /**
   lfs_dir_getslice by type and id: it finds what replaying the log leaves for the file that users see under that id, or
   nothing.
   */
  method GetSlice(block: seq<byte>, dirOffset: nat, etag: word, gmask: word, gtag: word, goff: nat, gsize: nat,
                  moveHere: bool, moveTag: word, ghost log: seq<Raw>)
    returns (r: Found)
    requires Holds(block, log) && dirOffset == End(log) && etag == LastLink(log)
    requires WellFormed(ViewLog(log)) && CreatesAreEmpty(log)
    requires IsLookupMask(gmask) && IsFileKind(TypeOf(gtag))
    requires InReach(ViewLog(log), WantedId(gtag, moveHere, moveTag))
    ensures Answers(r,
                    TagLog.Lookup(Seen(Replay(ViewLog(log)), moveHere, IdOf(moveTag)), GroupOf(gmask), TypeOf(gtag),
                                  IdOf(gtag)),
                    IdOf(gtag), goff, gsize)
  {
    hide Seen, TagLog.Lookup;
    WantedIsSeen(Replay(ViewLog(log)), GroupOf(gmask), TypeOf(gtag), gtag, moveHere, moveTag);
    LookBackIsReplay(ViewLog(log), GroupOf(gmask), TypeOf(gtag), WantedId(gtag, moveHere, moveTag));
    ghost var k: nat, id: nat := |log|, WantedId(gtag, moveHere, moveTag);
    ghost var wanted := LookBack(ViewLog(log), GroupOf(gmask), TypeOf(gtag), id);
    StartSeeking(log, GroupOf(gmask), TypeOf(gtag), id);
    // synthetic moves
    var offset: nat, ntag, gdiff := dirOffset, etag, FirstShift(gtag, moveHere, moveTag);
    FirstCurrent(gtag, moveHere, moveTag);
    var done := false;
    r := NoEntry;
    while !done && offset >= 4 + WordDsize(ntag)
      invariant if done then Answers(r, wanted, IdOf(gtag), goff, gsize)
                else r == NoEntry && Halfway(log, gmask, gtag, k, offset, ntag, gdiff, id, wanted)
      decreases !done, k
    {
      AtStart(block, log, k, offset, ntag);
      done, r, offset, ntag, gdiff, id :=
        Round(block, offset, ntag, gmask, gtag, gdiff, goff, gsize, log, k, id, wanted);
      k := k - 1;
    }
    if !done {
      AtStart(block, log, k, offset, ntag);
      assert ViewLog(log)[..0] == [];
    }
  }

  /** The walk ends exactly at the first entry. */
  lemma AtStart(block: seq<byte>, log: seq<Raw>, k: nat, offset: nat, ntag: word)
    requires Holds(block, log) && Walking(log, k, offset, ntag)
    ensures k == 0 <==> offset < 4 + WordDsize(ntag)
  {
    if k == 0 {
      ClearFields(ntag, 0x7fff_ffff);
    } else {
      StepBack(block, log, k, ntag);
    }
  }

  /** lfs_dir_get: as much as the tag that is asked for has room for */
  method Get(block: seq<byte>, dirOffset: nat, etag: word, gmask: word, gtag: word,
             moveHere: bool, moveTag: word, ghost log: seq<Raw>)
    returns (r: Found)
    requires Holds(block, log) && dirOffset == End(log) && etag == LastLink(log)
    requires WellFormed(ViewLog(log)) && CreatesAreEmpty(log)
    requires IsLookupMask(gmask) && IsFileKind(TypeOf(gtag))
    requires InReach(ViewLog(log), WantedId(gtag, moveHere, moveTag))
    ensures var e := TagLog.Lookup(Seen(Replay(ViewLog(log)), moveHere, IdOf(moveTag)), GroupOf(gmask),
                                   TypeOf(gtag), IdOf(gtag));
            if e.None? then r == NoEntry
            else && r.Found? && Unpack(r.tag) == e.value.tag.(id := IdOf(gtag))
                 && r.buffer == Slice(e.value.data, 0, SizeOf(gtag))
  {
    hide TagLog.Lookup, Replay, WellFormed, Holds, InReach, Seen;
    r := GetSlice(block, dirOffset, etag, gmask, gtag, 0, SizeOf(gtag), moveHere, moveTag, log);
  }

  // ---------- lookups without an id ----------

  // LFS_MKTAG(LFS_TYPE_MOVESTATE, 0, 0)
  const MASK_TYPE: word := 0x7ff0_0000

  lemma TypeMaskKeeps(w: word)
    ensures Masked(MASK_TYPE, w) == TypeOf(w) * 0x10_0000
  {
    hide Bits.Put, Bits.And;
    var top := if IsValid(w) then 0 else 1;
    assert Bits.Pow2(10) == 0x400 && Bits.Pow2(11) == 0x800;
    Bits.Pow2Adds(10, 10);
    SplitWord(w);
    assert w / 0x10_0000 == top * 0x800 + TypeOf(w);
    Bits.PutIsSum(20, 0x7ff, 0);
    Bits.PutIsSum(11, top, TypeOf(w));
    Bits.PutIsSum(20, Bits.Put(11, top, TypeOf(w)), w % 0x10_0000);
    Bits.AndPut(20, 0x7ff, 0, Bits.Put(11, top, TypeOf(w)), w % 0x10_0000);
    MaskHigh(11, top, TypeOf(w));
    Bits.AndZero(w % 0x10_0000);
    Bits.PutIsSum(20, TypeOf(w), 0);
  }

  /** The last entry of a type, whatever its id. */
  function LastOfType(log: seq<Entry>, kind: nat): Option<Entry>
    decreases |log|
  {
    if log == [] then None
    else if log[|log| - 1].tag.kind == kind then Some(log[|log| - 1])
    else LastOfType(log[..|log| - 1], kind)
  }

  lemma LastOfTypeStep(log: seq<Raw>, k: nat, kind: nat)
    requires 0 < k <= |log|
    ensures LastOfType(ViewLog(log)[..k], kind)
         == if TypeOf(log[k - 1].tag) == kind then Some(View(log[k - 1])) else LastOfType(ViewLog(log)[..k - 1], kind)
  {
    assert ViewLog(log)[..k][..k - 1] == ViewLog(log)[..k - 1];
  }

  /** lfs_dir_getslice under a mask that keeps the type only: ids and splices do not matter */
  method GetAnyId(block: seq<byte>, dirOffset: nat, etag: word, gtag: word, ghost log: seq<Raw>) returns (r: Found)
    requires Holds(block, log) && dirOffset == End(log) && etag == LastLink(log)
    ensures var e := Live(LastOfType(ViewLog(log), TypeOf(gtag)));
            if e.None? then r == NoEntry
            else r.Found? && Unpack(r.tag) == e.value.tag && r.buffer == Slice(e.value.data, 0, SizeOf(gtag))
  {
    hide Encode, Masked, LastOfType, TypeOf, SizeOf, IdOf, WordDsize, Walking;
    ghost var k: nat := |log|;
    StartWalking(log);
    var offset: nat, ntag := dirOffset, etag;
    AtStart(block, log, k, offset, ntag);
    while offset >= 4 + WordDsize(ntag)
      invariant k <= |log| && Walking(log, k, offset, ntag) && (k == 0 <==> offset < 4 + WordDsize(ntag))
      invariant LastOfType(ViewLog(log), TypeOf(gtag)) == LastOfType(ViewLog(log)[..k], TypeOf(gtag))
      decreases k
    {
      var tag := ntag;
      offset, ntag := ReadBack(block, offset, tag, log, k);
      LastOfTypeStep(log, k, TypeOf(gtag));
      TypeMaskKeeps(tag);
      TypeMaskKeeps(gtag);
      if Masked(MASK_TYPE, tag) == Masked(MASK_TYPE, gtag) {
        r := TakeAnyId(block, offset, tag, SizeOf(gtag), log[k - 1]);
        return;
      }
      k := k - 1;
      AtStart(block, log, k, offset, ntag);
    }
    NoneOfType(log, TypeOf(gtag));
    return NoEntry;
  }

  lemma NoneOfType(log: seq<Raw>, kind: nat)
    ensures LastOfType(ViewLog(log)[..0], kind) == None
  {
  }

  lemma StartWalking(log: seq<Raw>)
    requires IsRawLog(log)
    ensures Walking(log, |log|, End(log), LastLink(log))
    ensures ViewLog(log)[..|log|] == ViewLog(log)
  {
    assert log[..|log|] == log;
    LastLinkClears(log, |log|);
  }

  /** A matching entry is handed back with the id it was written under. */
  method TakeAnyId(block: seq<byte>, offset: nat, tag: word, gsize: nat, ghost e: Raw) returns (r: Found)
    requires Carries(tag, e) && DataAt(block, offset, e)
    ensures var x := Live(Some(View(e)));
            if x.None? then r == NoEntry
            else r.Found? && Unpack(r.tag) == x.value.tag && r.buffer == Slice(x.value.data, 0, gsize)
  {
    DsizeAgrees(tag);
    if WordIsDelete(tag) {
      return NoEntry;
    }
    var ok, buffer := ReadEntry(block, offset, SizeOf(tag), 0, gsize);
    return Found(tag, buffer);
  }
}
