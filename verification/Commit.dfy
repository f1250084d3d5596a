/**
 Writing to a metadata block: lfs_dir_commit_attribute and lfs_dir_commit_crc append a commit
 byte after byte. Until its last checksum byte is there a fetch finds the old log, from then on the new one.
 */
module Commit {
  import opened Options
  import opened Words
  import opened Device
  import opened Crc
  import opened Tags
  import opened TagLog
  import opened RawLog
  import opened Fetch

  /** Logs as this code writes them: a checksum tag has room for its checksum, a tail for its pair. */
  predicate Robust(log: seq<Raw>) {
    forall i :: 0 <= i < |log| ==>
      (IsCrc(log[i].tag) ==> |log[i].data| >= 4) && (IsTailWord(log[i].tag) ==> |log[i].data| >= PAIR_SIZE)
  }

  /** Whether an intact log is there only depends on the bytes it covers. */
  lemma {:induction false} IntactFrame(block: seq<byte>, block': seq<byte>, log: seq<Raw>)
    requires Holds(block, log) && Sealed(block, log) && TailsFit(block, log) && Robust(log)
    requires End(log) <= |block'| && block'[..End(log)] == block[..End(log)]
    ensures Holds(block', log) && Sealed(block', log) && TailsFit(block', log)
    decreases |log|
  {
    HoldsFrame(block, block', log);
    assert block'[..HEADER] == block'[..End(log)][..HEADER] == block[..End(log)][..HEADER] == block[..HEADER];
    if log != [] {
      var r, older := log[|log| - 1], log[..|log| - 1];
      HoldsLast(block, log);
      assert block'[..End(older)] == block'[..End(log)][..End(older)] == block[..End(log)][..End(older)]
             == block[..End(older)];
      IntactFrame(block, block', older);
      SealFrame(block, block', log);
    }
  }

  lemma SealFrame(block: seq<byte>, block': seq<byte>, log: seq<Raw>)
    requires log != [] && Holds(block, log) && Robust(log)
    requires End(log) <= |block'| && block'[..End(log)] == block[..End(log)] && block'[..HEADER] == block[..HEADER]
    ensures var r, older := log[|log| - 1], log[..|log| - 1];
            && (IsCrc(r.tag) && HasSeal(block, older, r.tag) ==> HasSeal(block', older, r.tag))
            && (IsTailWord(r.tag) ==> End(older) + 4 + PAIR_SIZE <= |block'|)
  {
    var r, older := log[|log| - 1], log[..|log| - 1];
    HoldsLast(block, log);
    assert IsRaw(r);
    if IsCrc(r.tag) {
      ReadsAlike(block, block', End(log), End(older) + 4);
    }
  }

  lemma ReadsAlike(block: seq<byte>, block': seq<byte>, end: nat, at: nat)
    requires at + 4 <= end <= |block| && end <= |block'| && block'[..end] == block[..end]
    ensures ReadLE32(block', at) == ReadLE32(block, at)
  {
    assert block'[at..at + 4] == block'[..end][at..at + 4] == block[..end][at..at + 4] == block[at..at + 4];
  }

  /** A commit that is followed by nothing that reads as a tag is the last one. */
  lemma LastCommitIsFetched(block: seq<byte>, log: seq<Raw>)
    requires Committed(block, log) && NextRaw(block, log).None?
    ensures Fetched(block) == log
  {
    hide Fetched, Sealed, TailsFit, NextRaw, Encode;
    FetchedIsLongest(block, log);
    var m := Fetched(block);
    if m != log {
      var k := |log|;
      assert m[..k + 1] == log + [m[k]];
      CommittedParts(block, m, k + 1);
      NextIs(block, log, m[k]);
    }
  }

  // ---------- writing ----------

  // LFS_MKTAG(LFS_TYPE_CRC + reset, 0x3ff, 12): a checksum and the rest of two 64-bit words
  const CRC_TAG: word := 0x500f_fc0c
  const CRC_TAG_RESET: word := 0x501f_fc0c
  const CRC_SIZE: nat := 12

  lemma CrcTags()
    ensures Unpack(CRC_TAG) == Tag(TYPE_CRC, NO_ID, CRC_SIZE) && IsValid(CRC_TAG) && IsCrc(CRC_TAG)
    ensures Unpack(CRC_TAG_RESET) == Tag(TYPE_CRC + 1, NO_ID, CRC_SIZE) && IsValid(CRC_TAG_RESET)
            && IsCrc(CRC_TAG_RESET)
    ensures !IsTailWord(CRC_TAG) && !IsTailWord(CRC_TAG_RESET)
    ensures Link(CRC_TAG) == CRC_TAG && Link(CRC_TAG_RESET) == Toggle(CRC_TAG_RESET)
  {
  }

  /** The reset bit makes whatever follows a checksum tag read as invalid. */
  lemma ResetInvalidates(next: word, tag: word)
    requires tag == if IsValid(next) then CRC_TAG_RESET else CRC_TAG
    ensures !IsValid(XorWord(next, Link(tag)))
  {
    CrcTags();
    XorValid(next, Link(tag));
  }

  /** An entry that was programmed can be read there. */
  lemma ProgramReads(block: seq<byte>, at: nat, r: Raw, link: word)
    requires at + 4 + |r.data| <= |block|
    ensures |EncodeOne(r, link)| == 4 + |r.data|
    ensures var block' := Overlay(block, at, EncodeOne(r, link));
            ReadBE32(block', at) == XorWord(r.tag, link) && block'[at + 4..at + 4 + |r.data|] == r.data
  {
    hide ToBE32, FromBE32, XorWord;
    var one := EncodeOne(r, link);
    var block' := Overlay(block, at, one);
    assert block'[at..at + 4] == one[..4] == ToBE32(XorWord(r.tag, link));
    BE32RoundTrip(XorWord(r.tag, link));
    assert block'[at + 4..at + 4 + |r.data|] == one[4..] == r.data;
  }

  /** Programming an entry where the log ends makes it part of the log. */
  lemma ProgramEntry(block: seq<byte>, log: seq<Raw>, r: Raw)
    requires Holds(block, log) && IsRaw(r) && End(log) + 4 + |r.data| <= |block|
    ensures var block' := Overlay(block, End(log), EncodeOne(r, LastLink(log)));
            Holds(block', log) && Holds(block', log + [r]) && End(log + [r]) == End(log) + 4 + |r.data|
            && block'[..End(log)] == block[..End(log)] && block'[..HEADER] == block[..HEADER]
  {
    hide ToBE32, FromBE32, XorWord, Encode, LastLink, ReadBE32, Overlay;
    var one := EncodeOne(r, LastLink(log));
    var block' := Overlay(block, End(log), one);
    ProgramReads(block, End(log), r, LastLink(log));
    OverlaySlices(block, End(log), one);
    HoldsFrame(block, block', log);
    HoldsAppend(block', log, r);
    HeaderKept(block, block', End(log));
  }

  lemma HeaderKept(block: seq<byte>, block': seq<byte>, end: nat)
    requires HEADER <= end <= |block| && end <= |block'| && block'[..end] == block[..end]
    ensures block'[..HEADER] == block[..HEADER]
  {
    assert block'[..HEADER] == block'[..end][..HEADER] == block[..end][..HEADER] == block[..HEADER];
  }

  lemma SealReads(block: seq<byte>, at: nat, w: word)
    requires at + 4 <= |block| && block[at..at + 4] == ToLE32(w)
    ensures ReadLE32(block, at) == w
  {
    LE32RoundTrip(w);
  }

  /** A checksum tag programmed with the right checksum is a seal. */
  lemma ProgramSeal(block: seq<byte>, log: seq<Raw>, r: Raw, sealCrc: word)
    requires Holds(block, log) && IsRaw(r) && End(log) + 4 + |r.data| <= |block|
    requires sealCrc == SealCrc(block[..HEADER], log, r.tag)
    requires |r.data| >= 4 && r.data[..4] == ToLE32(sealCrc)
    ensures HasSeal(Overlay(block, End(log), EncodeOne(r, LastLink(log))), log, r.tag)
  {
    hide SealCrc, Holds, ToLE32;
    var one := EncodeOne(r, LastLink(log));
    var block' := Overlay(block, End(log), one);
    ProgramEntry(block, log, r);
    OverlaySlices(block, End(log), one);
    var a := End(log) + 4;
    assert block'[a..a + 4] == one[4..8] == r.data[..4];
    SealReads(block', a, sealCrc);
  }

  /** The other things that are true of a log before an entry is programmed stay true. */
  lemma ProgramKeepsIntact(block: seq<byte>, block': seq<byte>, log: seq<Raw>, r: Raw)
    requires Holds(block, log) && Sealed(block, log) && TailsFit(block, log) && Robust(log)
    requires IsRaw(r) && End(log) + 4 + |r.data| <= |block|
    requires block' == Overlay(block, End(log), EncodeOne(r, LastLink(log)))
    requires IsTailWord(r.tag) ==> |r.data| >= PAIR_SIZE
    requires IsCrc(r.tag) ==> |r.data| >= 4 && HasSeal(block', log, r.tag)
    ensures Sealed(block', log + [r]) && TailsFit(block', log + [r]) && Robust(log + [r])
  {
    ProgramEntry(block, log, r);
    IntactFrame(block, block', log);
    assert (log + [r])[..|log|] == log;
  }

  /** After `written` was programmed from `begin` on, the block holds the log intact, up to its end. */
  ghost predicate Open(before: seq<byte>, begin: nat, written: seq<byte>, log: seq<Raw>) {
    && begin + |written| == End(log) <= |before|
    && var block := Overlay(before, begin, written);
    && Holds(block, log) && Sealed(block, log) && TailsFit(block, log) && Robust(log)
  }

  lemma OpenExtends(before: seq<byte>, begin: nat, written: seq<byte>, log: seq<Raw>, r: Raw)
    requires Open(before, begin, written, log)
    requires IsRaw(r) && End(log) + 4 + |r.data| <= |before|
    requires IsTailWord(r.tag) ==> |r.data| >= PAIR_SIZE
    requires !IsCrc(r.tag)
    ensures End(log + [r]) == End(log) + 4 + |r.data|
    ensures Open(before, begin, written + EncodeOne(r, LastLink(log)), log + [r])
  {
    var one, block := EncodeOne(r, LastLink(log)), Overlay(before, begin, written);
    ProgramEntry(block, log, r);
    ProgramKeepsIntact(block, Overlay(block, End(log), one), log, r);
    OverlayTwice(before, begin, written, one);
  }

  /** The revision at the head of the block, as it is or as it has just been written. */
  function Revision(before: seq<byte>, begin: nat, written: seq<byte>): seq<byte>
    requires HEADER <= |before| && begin + |written| <= |before|
  {
    Overlay(before, begin, written)[..HEADER]
  }

  /** The checksum so far covers what was written so far. */
  ghost predicate CrcInStep(revision: seq<byte>, written: seq<byte>, log: seq<Raw>, crc: word) {
    crc == RunCrc(revision, log) && crc == Crc32(CRC_START, written)
  }

  lemma CrcExtends(revision: seq<byte>, written: seq<byte>, log: seq<Raw>, crc: word, r: Raw)
    requires CrcInStep(revision, written, log, crc) && !IsCrc(r.tag)
    ensures CrcInStep(revision, written + EncodeOne(r, LastLink(log)), log + [r],
                      Crc32(Crc32(crc, ToBE32(XorWord(r.tag, LastLink(log)))), r.data))
  {
    RunCrcAppend(revision, log, r);
    Composes(crc, ToBE32(XorWord(r.tag, LastLink(log))), r.data);
    Composes(CRC_START, written, EncodeOne(r, LastLink(log)));
  }

  lemma RevisionStays(before: seq<byte>, begin: nat, written: seq<byte>, more: seq<byte>)
    requires HEADER <= begin + |written| && begin + |written| + |more| <= |before|
    ensures Revision(before, begin, written + more) == Revision(before, begin, written)
  {
    var a, b := Overlay(before, begin, written), Overlay(before, begin, written + more);
    assert forall i :: 0 <= i < HEADER ==> a[i] == b[i];
  }

  lemma ClearValidTag(tag: word)
    ensures IsValid(Clear(tag)) && WordDsize(Clear(tag)) == WordDsize(tag)
  {
    UnpackIgnoresValid(tag);
    DsizeAgrees(tag);
    DsizeAgrees(Clear(tag));
  }

  /** The checksum entry: the checksum, and what happens to lie in the block after it. */
  function SealRaw(before: seq<byte>, offset: nat, tag: word, sealCrc: word): Raw
    requires offset + 4 + CRC_SIZE <= |before|
  {
    Raw(tag, ToLE32(sealCrc) + before[offset + 8..offset + 4 + CRC_SIZE])
  }

  /** What is programmed to close a commit: the tag and the checksum. */
  function Footer(tag: word, ptag: word, sealCrc: word): (r: seq<byte>)
    ensures |r| == 8
  {
    ToBE32(XorWord(tag, ptag)) + ToLE32(sealCrc)
  }

  /** Programming the footer writes the whole entry: the rest of it is there already. */
  lemma SealOverlay(before: seq<byte>, begin: nat, written: seq<byte>, tag: word, ptag: word, sealCrc: word)
    requires begin + |written| + 4 + CRC_SIZE <= |before|
    ensures Overlay(before, begin, written + Footer(tag, ptag, sealCrc))
         == Overlay(Overlay(before, begin, written), begin + |written|,
                    EncodeOne(SealRaw(before, begin + |written|, tag, sealCrc), ptag))
  {
    hide ToBE32, ToLE32, XorWord;
    var offset, footer := begin + |written|, Footer(tag, ptag, sealCrc);
    var rest := before[offset + 8..offset + 4 + CRC_SIZE];
    assert EncodeOne(SealRaw(before, offset, tag, sealCrc), ptag) == footer + rest;
    OverlayTwice(before, begin, written, footer + rest);
    assert written + (footer + rest) == written + footer + rest;
    RestIsThere(before, begin, written + footer, rest);
  }

  lemma RestIsThere(before: seq<byte>, begin: nat, written: seq<byte>, rest: seq<byte>)
    requires begin + |written| + |rest| <= |before|
    requires rest == before[begin + |written|..begin + |written| + |rest|]
    ensures Overlay(before, begin, written + rest) == Overlay(before, begin, written)
  {
  }

  /** A finished commit: an intact log, followed by nothing that reads as a tag. */
  ghost predicate Finished(block: seq<byte>, log: seq<Raw>) {
    HEADER <= |block| && Committed(block, log) && Robust(log) && NextRaw(block, log).None?
  }

  /**
   The tag that closes a commit, given the word that follows in the block: reading past the end leaves it all ones.
   */
  function CloseTag(before: seq<byte>, noff: nat): word {
    if noff + 4 <= |before| && IsValid(ReadBE32(before, noff)) then CRC_TAG_RESET else CRC_TAG
  }

  lemma ProgramSealEntry(block: seq<byte>, block': seq<byte>, log: seq<Raw>, r: Raw, sealCrc: word)
    requires Holds(block, log) && Sealed(block, log) && TailsFit(block, log) && Robust(log)
    requires IsRaw(r) && End(log) + 4 + |r.data| <= |block|
    requires block' == Overlay(block, End(log), EncodeOne(r, LastLink(log)))
    requires IsCrc(r.tag) && !IsTailWord(r.tag)
    requires |r.data| >= 4 && r.data[..4] == ToLE32(sealCrc) && sealCrc == SealCrc(block[..HEADER], log, r.tag)
    ensures Committed(block', log + [r]) && Robust(log + [r])
  {
    ProgramEntry(block, log, r);
    ProgramSeal(block, log, r, sealCrc);
    ProgramKeepsIntact(block, block', log, r);
  }

  lemma CloseSeals(before: seq<byte>, begin: nat, written: seq<byte>, log: seq<Raw>, tag: word, sealCrc: word)
    requires Open(before, begin, written, log) && begin + |written| + 4 + CRC_SIZE <= |before|
    requires tag == CRC_TAG || tag == CRC_TAG_RESET
    requires sealCrc == SealCrc(Revision(before, begin, written), log, tag)
    ensures var log' := log + [SealRaw(before, begin + |written|, tag, sealCrc)];
            && End(log') == begin + |written| + 4 + CRC_SIZE
            && LastLink(log') == Link(tag)
            && Committed(Overlay(before, begin, written + Footer(tag, LastLink(log), sealCrc)), log')
            && Robust(log')
  {
    var block, r := Overlay(before, begin, written), SealRaw(before, begin + |written|, tag, sealCrc);
    CrcTags();
    assert r.data[..4] == ToLE32(sealCrc);
    SealOverlay(before, begin, written, tag, LastLink(log), sealCrc);
    ProgramSealEntry(block, Overlay(before, begin, written + Footer(tag, LastLink(log), sealCrc)), log, r, sealCrc);
    ProgramEntry(block, log, r);
    EncodeAppend(log, r);
  }

  lemma CloseEndsLog(before: seq<byte>, begin: nat, written: seq<byte>, log: seq<Raw>, noff: nat)
    requires begin + |written| <= noff == End(log) <= |before|
    requires LastLink(log) == Link(CloseTag(before, noff))
    ensures NextRaw(Overlay(before, begin, written), log).None?
  {
    var block := Overlay(before, begin, written);
    if noff + 4 <= |before| {
      assert block[noff..noff + 4] == before[noff..noff + 4];
      ResetInvalidates(ReadBE32(before, noff), CloseTag(before, noff));
    }
  }

  lemma CloseFinishes(before: seq<byte>, begin: nat, written: seq<byte>, log: seq<Raw>, tag: word, sealCrc: word)
    requires Open(before, begin, written, log) && begin + |written| + 4 + CRC_SIZE <= |before|
    requires tag == CloseTag(before, begin + |written| + 4 + CRC_SIZE)
    requires sealCrc == SealCrc(Revision(before, begin, written), log, tag)
    ensures var log' := log + [SealRaw(before, begin + |written|, tag, sealCrc)];
            && End(log') == begin + |written| + 4 + CRC_SIZE
            && LastLink(log') == Link(tag)
            && IsCrc(tag)
            && Finished(Overlay(before, begin, written + Footer(tag, LastLink(log), sealCrc)), log')
  {
    CrcTags();
    CloseSeals(before, begin, written, log, tag, sealCrc);
    var log' := log + [SealRaw(before, begin + |written|, tag, sealCrc)];
    CloseEndsLog(before, begin, written + Footer(tag, LastLink(log), sealCrc), log', End(log'));
  }

  /** The block holds at off1 the checksum of what precedes it since `begin`. */
  predicate ReadsBack(block: seq<byte>, begin: nat, off1: nat, crc1: word) {
    && begin <= off1 && off1 + 4 <= |block|
    && crc1 == Crc32(CRC_START, block[begin..off1])
    && block[off1..off1 + 4] == ToLE32(crc1)
  }

  lemma EmptyCrc(s: seq<byte>)
    requires |s| == 0
    ensures Crc32(CRC_START, s) == CRC_START
  {
  }

  lemma CrcOneMore(block: seq<byte>, begin: nat, i: nat)
    requires begin <= i < |block|
    ensures Crc32(CRC_START, block[begin..i + 1]) == Crc32(Crc32(CRC_START, block[begin..i]), block[i..i + 1])
  {
    Composes(CRC_START, block[begin..i], block[i..i + 1]);
    assert block[begin..i] + block[i..i + 1] == block[begin..i + 1];
  }

  lemma ReadBackLeavesNothing(block: seq<byte>, begin: nat, off1: nat, crc1: word)
    requires ReadsBack(block, begin, off1, crc1)
    ensures Crc32(CRC_START, block[begin..off1 + 4]) == 0
  {
    hide CrcStep, ToLE32;
    Residue(CRC_START, block[begin..off1]);
    assert block[begin..off1 + 4] == block[begin..off1] + ToLE32(crc1);
  }

  /** The check after a commit: dividing what was programmed and its checksum must leave nothing. */
  method ReadBack(block: seq<byte>, begin: nat, off1: nat, crc1: word) returns (ok: bool)
    requires ReadsBack(block, begin, off1, crc1)
    ensures ok
  {
    hide Crc32;
    var crc := CRC_START;
    EmptyCrc(block[begin..begin]);
    for i := begin to off1 + 4
      invariant crc == Crc32(CRC_START, block[begin..i])
    {
      // check against written crc
      if i == off1 && crc != crc1 {
        return false;
      }
      CrcOneMore(block, begin, i);
      crc := Compute(crc, block[i..i + 1]);
    }
    ReadBackLeavesNothing(block, begin, off1, crc1);
    return crc == 0;
  }

  lemma OverlayParts(before: seq<byte>, begin: nat, a: seq<byte>, b: seq<byte>)
    requires begin + |a| + |b| <= |before|
    ensures Overlay(before, begin, a + b)[begin..begin + |a|] == a
    ensures Overlay(before, begin, a + b)[begin + |a|..begin + |a| + |b|] == b
  {
  }

  /** What the check reads back is what was programmed. */
  lemma PartsReadBack(before: seq<byte>, begin: nat, all: seq<byte>, a: seq<byte>, off1: nat, crc1: word)
    requires begin + |all| <= |before| && all == a + ToLE32(crc1) && crc1 == Crc32(CRC_START, a)
    requires off1 == begin + |a|
    ensures ReadsBack(Overlay(before, begin, all), begin, off1, crc1)
  {
    hide Crc32, ToLE32, Overlay;
    OverlayParts(before, begin, a, ToLE32(crc1));
  }

  lemma FooterParts(written: seq<byte>, tag: word, ptag: word, sealCrc: word)
    ensures written + Footer(tag, ptag, sealCrc) == (written + ToBE32(XorWord(tag, ptag))) + ToLE32(sealCrc)
  {
  }

  /** A commit that was closed: what was written is a finished log, and reads back. */
  ghost predicate Closed(before: seq<byte>, begin: nat, written: seq<byte>, log: seq<Raw>, tag: word, off1: nat,
                         sealCrc: word) {
    && begin + |written| <= |before|
    && End(log) == off1 + CRC_SIZE && LastLink(log) == Link(tag)
    && Finished(Overlay(before, begin, written), log)
    && ReadsBack(Overlay(before, begin, written), begin, off1, sealCrc)
  }

  lemma RightFooter(before: seq<byte>, begin: nat, written: seq<byte>, log: seq<Raw>, crc: word, tag: word,
                    sealCrc: word, written': seq<byte>, log': seq<Raw>)
    requires Open(before, begin, written, log) && begin + |written| + 4 + CRC_SIZE <= |before|
    requires CrcInStep(Revision(before, begin, written), written, log, crc)
    requires tag == CloseTag(before, begin + |written| + 4 + CRC_SIZE)
    requires sealCrc == Crc32(crc, ToBE32(XorWord(tag, LastLink(log))))
    requires written' == written + Footer(tag, LastLink(log), sealCrc)
    requires log' == log + [SealRaw(before, begin + |written|, tag, sealCrc)]
    ensures Closed(before, begin, written', log', tag, begin + |written| + 4, sealCrc) && IsCrc(tag)
  {
    var tagBytes := ToBE32(XorWord(tag, LastLink(log)));
    Composes(CRC_START, written, tagBytes);
    FooterParts(written, tag, LastLink(log), sealCrc);
    PartsReadBack(before, begin, written', written + tagBytes, begin + |written| + 4, sealCrc);
    CloseFinishes(before, begin, written, log, tag, sealCrc);
  }

  /**
   After a commit a fetch takes the rest of the block for erased exactly if the word that follows there reads as
   invalid.
   */
  lemma CloseErases(before: seq<byte>, begin: nat, written: seq<byte>, log: seq<Raw>)
    requires begin + |written| <= End(log) <= |before|
    requires LastLink(log) == Link(CloseTag(before, End(log)))
    ensures Erased(Overlay(before, begin, written), log) <==>
              End(log) + 4 <= |before| && !IsValid(ReadBE32(before, End(log)))
  {
    hide LastLink, Link, ReadBE32, IsCrc, XorWord;
    var block, noff := Overlay(before, begin, written), End(log);
    CrcTags();
    ToggledIsNoCrc();
    if noff + 4 <= |before| {
      assert block[noff..noff + 4] == before[noff..noff + 4];
      SameBytesSameWord(block, before, noff);
      ResetInvalidates(ReadBE32(before, noff), CloseTag(before, noff));
    }
  }

  lemma ToggledIsNoCrc()
    ensures !IsCrc(Toggle(CRC_TAG_RESET))
  {
  }

  lemma SameBytesSameWord(a: seq<byte>, b: seq<byte>, at: nat)
    requires at + 4 <= |a| && at + 4 <= |b| && a[at..at + 4] == b[at..at + 4]
    ensures ReadBE32(a, at) == ReadBE32(b, at)
  {
  }

  /** The end of the checksum entry would lie beyond the block: it is no entry, and nothing was committed. */
  lemma OverrunFooter(before: seq<byte>, begin: nat, written: seq<byte>, log: seq<Raw>, crc: word, sealCrc: word,
                      written': seq<byte>)
    requires Open(before, begin, written, log) && begin + |written| + 8 <= |before| < begin + |written| + 4 + CRC_SIZE
    requires CrcInStep(Revision(before, begin, written), written, log, crc)
    requires sealCrc == Crc32(crc, ToBE32(XorWord(CRC_TAG, LastLink(log))))
    requires written' == written + Footer(CRC_TAG, LastLink(log), sealCrc)
    ensures ReadsBack(Overlay(before, begin, written'), begin, begin + |written| + 4, sealCrc)
    ensures NextRaw(Overlay(before, begin, written'), log).None?
  {
    hide Crc32, ToLE32, ToBE32, FromBE32, XorWord, Overlay, Holds, Sealed, TailsFit;
    var tagBytes := ToBE32(XorWord(CRC_TAG, LastLink(log)));
    Composes(CRC_START, written, tagBytes);
    FooterParts(written, CRC_TAG, LastLink(log), sealCrc);
    PartsReadBack(before, begin, written', written + tagBytes, begin + |written| + 4, sealCrc);
    var block', at := Overlay(before, begin, written'), begin + |written|;
    assert written' == written + (tagBytes + ToLE32(sealCrc));
    OverlayParts(before, begin, written, tagBytes + ToLE32(sealCrc));
    assert block'[at..at + 4] == block'[at..at + 8][..4] == tagBytes;
    BE32RoundTrip(XorWord(CRC_TAG, LastLink(log)));
    XorBack(CRC_TAG, LastLink(log));
    CrcTagSize();
  }

  lemma CrcTagSize()
    ensures WordDsize(CRC_TAG) == 4 + CRC_SIZE
  {
  }

  /** What a writer keeps track of belongs to what it has written. */
  ghost predicate InStep(before: seq<byte>, begin: nat, written: seq<byte>, log: seq<Raw>, offset: nat, ptag: word,
                         crc: word) {
    && HEADER <= offset <= |before|
    && Open(before, begin, written, log)
    && offset == begin + |written|
    && ptag == LastLink(log)
    && CrcInStep(Revision(before, begin, written), written, log, crc)
  }

  lemma InStepEnds(before: seq<byte>, begin: nat, written: seq<byte>, log: seq<Raw>, offset: nat, ptag: word, crc: word)
    requires InStep(before, begin, written, log, offset, ptag, crc)
    ensures End(log) == begin + |written| == offset <= |before|
  {
  }

  lemma StartsInStep(block: seq<byte>, offset: nat, etag: word, log: seq<Raw>)
    requires HEADER <= |block| && Committed(block, log) && Robust(log) && log != []
    requires offset == End(log) && etag == LastLink(log)
    ensures InStep(block, offset, [], log, offset, etag, CRC_START)
  {
    hide Sealed, TailsFit, Robust, Encode, LastLink, Crc32;
    assert Overlay(block, offset, []) == block;
    EmptyCrc([]);
  }

  lemma StaysInStep(before: seq<byte>, begin: nat, written: seq<byte>, log: seq<Raw>, offset: nat, ptag: word,
                    crc: word, tag: word, ntag: seq<byte>, buffer: seq<byte>)
    requires InStep(before, begin, written, log, offset, ptag, crc)
    requires 4 + |buffer| == WordDsize(tag) && offset + 4 + |buffer| <= |before|
    requires !IsCrc(Clear(tag)) && (IsTailWord(Clear(tag)) ==> |buffer| >= PAIR_SIZE)
    requires ntag == ToBE32(XorWord(Clear(tag), ptag))
    ensures InStep(before, begin, written + ntag + buffer, log + [Raw(Clear(tag), buffer)],
                   offset + |ntag| + |buffer|, Clear(tag), Crc32(Crc32(crc, ntag), buffer))
  {
    hide Crc32, CrcInStep, Revision, XorWord, ToBE32, Holds, Sealed, TailsFit, Robust, WordDsize, Unpack, Clear, Link;
    var r := Raw(Clear(tag), buffer);
    ClearValidTag(tag);
    OpenExtends(before, begin, written, log, r);
    CrcExtends(Revision(before, begin, written), written, log, crc, r);
    RevisionStays(before, begin, written, EncodeOne(r, ptag));
    NotCrcLink(r.tag);
    EncodeAppend(log, r);
    assert written + ntag + buffer == written + EncodeOne(r, ptag);
  }

  /**
   One checksum was added to the log, and a fetch finds it all; what it takes the rest of the block for is settled as
   well.
   */
  ghost predicate Ends(before: seq<byte>, begin: nat, written': seq<byte>, log: seq<Raw>, log': seq<Raw>, tag: word) {
    && log <= log' && |log'| == |log| + 1 && IsCrc(log'[|log|].tag)
    && begin + |written'| + 8 == End(log') <= |before| && LastLink(log') == Link(tag)
    && Finished(Overlay(before, begin, written'), log')
    && (Erased(Overlay(before, begin, written'), log') <==>
         End(log') + 4 <= |before| && !IsValid(ReadBE32(before, End(log'))))
  }

  lemma InStepParts(before: seq<byte>, begin: nat, written: seq<byte>, log: seq<Raw>, offset: nat, ptag: word,
                    crc: word)
    requires InStep(before, begin, written, log, offset, ptag, crc)
    ensures Open(before, begin, written, log) && ptag == LastLink(log) && HEADER <= |before|
            && begin + |written| <= |before|
    ensures CrcInStep(Revision(before, begin, written), written, log, crc)
  {
  }

  lemma ClosedEnds(before: seq<byte>, begin: nat, written: seq<byte>, written': seq<byte>, log: seq<Raw>,
                   log': seq<Raw>, tag: word, sealCrc: word)
    requires begin + |written| + 4 + CRC_SIZE <= |before| && |written'| == |written| + 8
    requires tag == CloseTag(before, begin + |written| + 4 + CRC_SIZE) && IsCrc(tag)
    requires log' == log + [SealRaw(before, begin + |written|, tag, sealCrc)]
    requires Closed(before, begin, written', log', tag, begin + |written| + 4, sealCrc)
    ensures Ends(before, begin, written', log, log', tag)
  {
    hide Finished, Erased, Overlay, ReadsBack, LastLink, Link, CloseTag, IsCrc, ReadBE32;
    CloseErases(before, begin, written', log');
  }

  /** Closes a commit: reads whether the next word would read as valid, programs the footer and checks. */
  method WriteFooter(before: seq<byte>, begin: nat, written: seq<byte>, ptag: word, crc: word, ghost log: seq<Raw>)
    returns (ok: bool, tag: word, written': seq<byte>, ghost log': seq<Raw>)
    requires InStep(before, begin, written, log, begin + |written|, ptag, crc) && begin + |written| + 8 <= |before|
    ensures ok && tag == CloseTag(before, begin + |written| + 4 + CRC_SIZE)
    ensures written <= written' && |written'| == |written| + 8
    ensures begin + |written| + 4 + CRC_SIZE <= |before| ==> Ends(before, begin, written', log, log', tag)
    ensures begin + |written| + 4 + CRC_SIZE > |before| ==>
              log' == log && tag == CRC_TAG && NextRaw(Overlay(before, begin, written'), log).None?
  {
    hide InStep, Finished, Erased, Crc32, Footer, Overlay, SealRaw, Closed, NextRaw, ToBE32, LastLink, Link, CrcInStep,
         Open, Revision;
    var offset := begin + |written|;
    InStepParts(before, begin, written, log, offset, ptag, crc);
    // read erased state from next program unit
    tag := CloseTag(before, offset + 4 + CRC_SIZE);
    var sealCrc := Compute(crc, ToBE32(XorWord(tag, ptag)));
    written' := written + Footer(tag, ptag, sealCrc);
    if offset + 4 + CRC_SIZE <= |before| {
      log' := log + [SealRaw(before, offset, tag, sealCrc)];
      RightFooter(before, begin, written, log, crc, tag, sealCrc, written', log');
      ClosedEnds(before, begin, written, written', log, log', tag, sealCrc);
    } else {
      log' := log;
      OverrunFooter(before, begin, written, log, crc, sealCrc, written');
    }
    // successful commit, check checksums to make sure
    ok := ReadBack(Overlay(before, begin, written'), begin, offset + 4, sealCrc);
  }

  /** A commit being written: lfs_commit_t, and the bytes it has programmed so far. */
  class Writer {
    // the block before the commit, and what has been programmed from `begin` on
    const before: seq<byte>
    const begin: nat
    const end: nat
    var written: seq<byte>
    var offset: nat
    var ptag: word
    var crc: word

    // the log that the block holds up to the offset
    ghost var log: seq<Raw>

    ghost predicate Valid()
      reads this
    {
      end + PAIR_SIZE == |before| && InStep(before, begin, written, log, offset, ptag, crc)
    }

    /** The block as it is now. */
    function Block(): seq<byte>
      reads this
      requires begin + |written| <= |before|
    {
      Overlay(before, begin, written)
    }

    /** A commit that continues the log of a block. */
    constructor Append(block: seq<byte>, offset: nat, etag: word, ghost log: seq<Raw>)
      requires |block| >= HEADER + 16
      requires Committed(block, log) && Robust(log) && log != []
      requires offset == End(log) && etag == LastLink(log)
      ensures Valid() && this.log == log && before == block && begin == this.offset == offset && written == []
    {
      this.before, this.begin, this.end := block, offset, |block| - 16;
      this.written, this.offset, this.ptag, this.crc, this.log := [], offset, etag, CRC_START, log;
      new;
      hide InStep;
      StartsInStep(block, offset, etag, log);
    }

    /** A commit that starts a block over, with its revision. */
    constructor Compact(erased: seq<byte>, revision: word)
      requires |erased| >= HEADER + 16
      ensures Valid() && log == [] && before == erased && begin == 0 && written == ToLE32(revision)
    {
      before, begin, end := erased, 0, |erased| - 16;
      written, offset, ptag, log := ToLE32(revision), HEADER, NO_TAG, [];
      crc := Crc32(CRC_START, ToLE32(revision));
      new;
      OverlaySlices(erased, 0, ToLE32(revision));
    }

    /** lfs_dir_commit_write */
    method Write(buffer: seq<byte>)
      requires offset + |buffer| <= |before|
      modifies this`written, this`offset, this`crc
      ensures written == old(written) + buffer
      ensures offset == old(offset) + |buffer|
      ensures crc == Crc32(old(crc), buffer)
    {
      written := written + buffer;
      crc := Compute(crc, buffer);
      offset := offset + |buffer|;
    }

    /** lfs_dir_commit_attribute */
    method Attribute(tag: word, buffer: seq<byte>) returns (ok: bool)
      requires Valid()
      requires 4 + |buffer| == WordDsize(tag)
      requires !IsCrc(Clear(tag)) && (IsTailWord(Clear(tag)) ==> |buffer| >= PAIR_SIZE)
      modifies this`written, this`offset, this`crc, this`ptag, this`log
      ensures Valid()
      ensures ok == (old(offset) + 4 + |buffer| <= end)
      ensures !ok ==> log == old(log) && written == old(written) && offset == old(offset)
      ensures ok ==> offset == old(offset) + 4 + |buffer|
      ensures ok ==> log == old(log) + [Raw(Clear(tag), buffer)] && offset <= end && old(written) <= written
    {
      hide InStep, Crc32, XorWord, ToBE32;
      // check if we fit
      DsizeAgrees(tag);
      if offset + WordDsize(tag) > end {
        return false;
      }
      // write out tag
      var ntag := ToBE32(XorWord(Clear(tag), ptag));
      StaysInStep(before, begin, written, log, offset, ptag, crc, tag, ntag, buffer);
      Write(ntag);
      Write(buffer);
      ptag := Clear(tag);
      log := log + [Raw(Clear(tag), buffer)];
      return true;
    }

    /**
     lfs_dir_commit_crc: on a device that stores what is programmed, the check never fails. There is no check for room:
     if the end of the entry would lie beyond the block it succeeds as well, but no commit is there.
     */
    method Close() returns (ok: bool)
      requires Valid() && offset + 8 <= |before|
      modifies this`written, this`offset, this`crc, this`ptag, this`log
      ensures ok
      ensures |written| == |old(written)| + 8 && old(written) <= written
      ensures begin + |written| == End(old(log)) + 8 <= |before|
      ensures offset == old(offset) + 4 + CRC_SIZE
      ensures old(offset) <= end ==>
                Ends(before, begin, written, old(log), log, CloseTag(before, offset)) && ptag == LastLink(log)
      ensures old(offset) > end ==> log == old(log) && ptag == CRC_TAG && NextRaw(Block(), log).None?
    {
      hide Finished, Open, CrcInStep, Revision, Link, Crc32, Erased, NextRaw, CloseTag, ReadBE32;
      CrcTags();
      InStepEnds(before, begin, written, log, offset, ptag, crc);
      var tag, written';
      ghost var log';
      ok, tag, written', log' := WriteFooter(before, begin, written, ptag, crc, log);
      written, log := written', log';
      offset, ptag, crc := offset + 4 + CRC_SIZE, Link(tag), CRC_START;
    }
  }

  // ---------- a commit of nothing ----------

  lemma FinishedInStep(block: seq<byte>, log: seq<Raw>)
    requires Finished(block, log) && log != []
    ensures InStep(block, End(log), [], log, End(log), LastLink(log), CRC_START)
  {
    hide Sealed, TailsFit, Robust, Encode, LastLink, Crc32, NextRaw;
    StartsInStep(block, End(log), LastLink(log), log);
  }

  /**
   A commit without entries, to a block in which there is still room for its tag and its checksum: a fetch finds it if
   and only if the whole entry fits, which nothing makes sure of.
   */
  lemma NothingIsCommittedIffItFits(block: seq<byte>, log: seq<Raw>, tag: word, sealCrc: word)
    requires Finished(block, log) && log != [] && End(log) + 8 <= |block|
    requires tag == CloseTag(block, End(log) + 4 + CRC_SIZE)
    requires sealCrc == Crc32(CRC_START, ToBE32(XorWord(tag, LastLink(log))))
    ensures var block' := Overlay(block, End(log), Footer(tag, LastLink(log), sealCrc));
            Fetched(block') != log <==> End(log) + 4 + CRC_SIZE <= |block|
  {
    hide Sealed, TailsFit, Robust, Encode, LastLink, Crc32, NextRaw, InStep, Footer, Closed, Overlay, Fetched, ToBE32;
    var footer := Footer(tag, LastLink(log), sealCrc);
    FinishedInStep(block, log);
    InStepParts(block, End(log), [], log, End(log), LastLink(log), CRC_START);
    assert [] + footer == footer;
    if End(log) + 4 + CRC_SIZE <= |block| {
      var log' := log + [SealRaw(block, End(log), tag, sealCrc)];
      RightFooter(block, End(log), [], log, CRC_START, tag, sealCrc, footer, log');
      ClosedIsFetched(block, End(log), footer, log', tag, End(log) + 4, sealCrc);
    } else {
      OverrunFooter(block, End(log), [], log, CRC_START, sealCrc, footer);
      OverlaySlices(block, End(log), footer);
      IntactFrame(block, Overlay(block, End(log), footer), log);
      StillCommitted(block, Overlay(block, End(log), footer), log);
      LastCommitIsFetched(Overlay(block, End(log), footer), log);
    }
  }

  lemma StillCommitted(block: seq<byte>, block': seq<byte>, log: seq<Raw>)
    requires Committed(block, log) && Holds(block', log) && Sealed(block', log) && TailsFit(block', log)
    requires HEADER <= |block'|
    ensures Committed(block', log)
  {
  }

  lemma ClosedIsFetched(before: seq<byte>, begin: nat, written: seq<byte>, log: seq<Raw>, tag: word, off1: nat,
                        sealCrc: word)
    requires Closed(before, begin, written, log, tag, off1, sealCrc)
    ensures Fetched(Overlay(before, begin, written)) == log
  {
    LastCommitIsFetched(Overlay(before, begin, written), log);
  }

  lemma FirstInStep(before: seq<byte>, revision: word)
    requires HEADER <= |before|
    ensures InStep(before, 0, ToLE32(revision), [], HEADER, NO_TAG, Crc32(CRC_START, ToLE32(revision)))
  {
    hide Crc32;
    OverlaySlices(before, 0, ToLE32(revision));
  }

  /** What one entry and a checksum make of a block that is started over. */
  lemma FirstCommit(before: seq<byte>, revision: word, r: Raw) returns (block: seq<byte>, log: seq<Raw>)
    requires IsRaw(r) && Clear(r.tag) == r.tag && !IsCrc(r.tag) && !IsTailWord(r.tag)
    requires HEADER + 4 + |r.data| + 4 + CRC_SIZE <= |before|
    ensures |block| == |before| && |log| == 2 && log[0] == r && Finished(block, log)
    ensures End(log) == HEADER + 4 + |r.data| + 4 + CRC_SIZE
    ensures Erased(block, log) <==> End(log) + 4 <= |before| && !IsValid(ReadBE32(before, End(log)))
  {
    hide Crc32, Sealed, TailsFit, Robust, Encode, NextRaw, InStep, Footer, Closed, Overlay, Erased, ToBE32, ToLE32,
         CloseTag, SealRaw, ReadBE32, Link, Finished;
    var head, ntag := ToLE32(revision), ToBE32(XorWord(r.tag, NO_TAG));
    FirstInStep(before, revision);
    StaysInStep(before, 0, head, [], HEADER, NO_TAG, Crc32(CRC_START, head), r.tag, ntag, r.data);
    var written, open, offset := head + ntag + r.data, [r], HEADER + 4 + |r.data|;
    var crc := Crc32(Crc32(Crc32(CRC_START, head), ntag), r.data);
    assert [] + [r] == open;
    InStepParts(before, 0, written, open, offset, r.tag, crc);
    InStepEnds(before, 0, written, open, offset, r.tag, crc);
    var tag := CloseTag(before, offset + 4 + CRC_SIZE);
    var sealCrc := Crc32(crc, ToBE32(XorWord(tag, LastLink(open))));
    var written' := written + Footer(tag, LastLink(open), sealCrc);
    log := open + [SealRaw(before, offset, tag, sealCrc)];
    RightFooter(before, 0, written, open, crc, tag, sealCrc, written', log);
    ClosedEnds(before, 0, written, written', open, log, tag, sealCrc);
    block := Overlay(before, 0, written');
  }

  /**
   A block that an erase leaves all zeros: its first commit is found, but a fetch does not take the rest for erased.
   */
  lemma ZerosAreNotErased() returns (block: seq<byte>, log: seq<Raw>)
    ensures Finished(block, log) && End(log) + 4 <= |block| && !Erased(block, log)
  {
    var zeros: seq<byte> := seq(64, _ => 0);
    block, log := FirstCommit(zeros, 1, Raw(0x0010_0001, [97]));
    ZeroWord(zeros[End(log)..End(log) + 4]);
  }

  lemma ZeroWord(s: seq<byte>)
    requires |s| == 4 && forall i :: 0 <= i < 4 ==> s[i] == 0
    ensures FromBE32(s) == 0
  {
    var r := Reversed(s);
    assert r == [0, 0, 0, 0];
    assert r[1..] == [0, 0, 0] && r[1..][1..] == [0, 0] && r[1..][1..][1..] == [0];
    assert FromLE([0]) == 0;
    assert FromLE([0, 0]) == 0;
    assert FromLE([0, 0, 0]) == 0;
  }

  /**
   A block of 128 bytes that one file with a name of 96 bytes leaves so full that a commit of nothing is not found.
   */
  lemma FullBlockLosesEmptyCommit(before: seq<byte>, name: seq<byte>) returns (block: seq<byte>, log: seq<Raw>)
    requires |before| == 128 && |name| == 96
    ensures |block| == 128 && |log| == 2 && log[0] == Raw(0x0010_0060, name)
    ensures Finished(block, log) && End(log) + 8 <= |block| < End(log) + 4 + CRC_SIZE
  {
    block, log := FirstCommit(before, 1, Raw(0x0010_0060, name));
  }
}
