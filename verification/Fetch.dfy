/**
 Reading a metadata block back: lfs_dir_fetch scans the log from the front and keeps the state
 as of the last commit whose checksum holds.
 */
module Fetch {
  import opened Options
  import opened Words
  import opened Crc
  import opened Tags
  import opened TagLog
  import opened RawLog
  import opened Match

  const CRC_START: word := 0xffff_ffff

  // The size of a pair of block addresses.
  const PAIR_SIZE: nat := 16

  function ReadLE32(block: seq<byte>, offset: nat): word
    requires offset + 4 <= |block|
  {
    FromLE32(block[offset..offset + 4])
  }

  /** The checksum of everything since the last checksum tag, or since the revision. */
  function RunCrc(revision: seq<byte>, log: seq<Raw>): word
    decreases |log|
  {
    if log == [] then Crc32(CRC_START, revision)
    else
      var r, older := log[|log| - 1], log[..|log| - 1];
      if IsCrc(r.tag) then CRC_START
      else Crc32(RunCrc(revision, older), EncodeOne(r, LastLink(older)))
  }

  /** The checksum that a checksum tag written after `log` must carry. */
  function SealCrc(revision: seq<byte>, log: seq<Raw>, tag: word): word {
    Crc32(RunCrc(revision, log), ToBE32(XorWord(tag, LastLink(log))))
  }

  predicate HasSeal(block: seq<byte>, log: seq<Raw>, tag: word)
    requires HEADER <= |block|
  {
    End(log) + 8 <= |block| && ReadLE32(block, End(log) + 4) == SealCrc(block[..HEADER], log, tag)
  }

  /** Every commit of the log carries its checksum. */
  predicate Sealed(block: seq<byte>, log: seq<Raw>)
    requires HEADER <= |block|
    decreases |log|
  {
    log == [] || (
      && var r, older := log[|log| - 1], log[..|log| - 1];
      && Sealed(block, older)
      && (IsCrc(r.tag) ==> HasSeal(block, older, r.tag)))
  }

  predicate EndsCommit(log: seq<Raw>) {
    log == [] || IsCrc(log[|log| - 1].tag)
  }

  /** A log of whole commits, all of them intact. */
  predicate Committed(block: seq<byte>, log: seq<Raw>) {
    Holds(block, log) && Sealed(block, log) && EndsCommit(log) && TailsFit(block, log)
  }

  /** lfs_tag_type1(tag) == LFS_TYPE_TAIL */
  predicate IsTailWord(w: word) { 0x6000_0000 <= w < 0x7000_0000 }

  /** A tail is read as a pair of addresses whatever its size says, so one must be there. */
  predicate TailsFit(block: seq<byte>, log: seq<Raw>)
    decreases |log|
  {
    log == [] || (
      && var r, older := log[|log| - 1], log[..|log| - 1];
      && TailsFit(block, older)
      && (IsTailWord(r.tag) ==> End(older) + 4 + PAIR_SIZE <= |block|))
  }

  // ---------- scanning ----------

  /** The entry at the end of what has been read, if there is one. */
  function NextRaw(block: seq<byte>, log: seq<Raw>): (r: Option<Raw>)
    ensures r.Some? ==> IsRaw(r.value) && End(log) + WordDsize(r.value.tag) <= |block|
  {
    if End(log) + 4 > |block| then None
    else
      var tag := XorWord(ReadBE32(block, End(log)), LastLink(log));
      var dsize := WordDsize(tag);
      if !IsValid(tag) || End(log) + dsize > |block| then None
      else Some(Raw(tag, block[End(log) + 4..End(log) + dsize]))
  }

  lemma NextExtends(block: seq<byte>, log: seq<Raw>)
    requires Holds(block, log) && NextRaw(block, log).Some?
    ensures Holds(block, log + [NextRaw(block, log).value])
    ensures End(log) + 4 <= End(log + [NextRaw(block, log).value])
  {
    var r := NextRaw(block, log).value;
    XorBack(ReadBE32(block, End(log)), LastLink(log));
    HoldsAppend(block, log, r);
  }

  /** What a scan that has read `log` ends up with, when `best` is the last intact state seen. */
  function Scan(block: seq<byte>, log: seq<Raw>, best: seq<Raw>): seq<Raw>
    requires Holds(block, log)
    decreases |block| - End(log)
  {
    var next := NextRaw(block, log);
    if next.None? then best
    else
      var r := next.value;
      NextExtends(block, log);
      if IsCrc(r.tag) then
        if HasSeal(block, log, r.tag) then Scan(block, log + [r], log + [r]) else best
      else if IsTailWord(r.tag) && End(log) + 4 + PAIR_SIZE > |block| then best
      else Scan(block, log + [r], best)
  }

  lemma ScanSound(block: seq<byte>, log: seq<Raw>, best: seq<Raw>)
    requires Holds(block, log) && Sealed(block, log) && TailsFit(block, log) && Committed(block, best)
    ensures Committed(block, Scan(block, log, best))
    decreases |block| - End(log)
  {
    var next := NextRaw(block, log);
    if next.Some? {
      var r := next.value;
      NextExtends(block, log);
      assert (log + [r])[..|log|] == log;
      if IsCrc(r.tag) {
        if HasSeal(block, log, r.tag) {
          ScanSound(block, log + [r], log + [r]);
        }
      } else if !(IsTailWord(r.tag) && End(log) + 4 + PAIR_SIZE > |block|) {
        ScanSound(block, log + [r], best);
      }
    }
  }

  // ---------- what a scan finds ----------

  /** An entry that follows in the block is the one that is read next. */
  lemma NextIs(block: seq<byte>, log: seq<Raw>, r: Raw)
    requires Holds(block, log) && Holds(block, log + [r])
    ensures NextRaw(block, log) == Some(r)
  {
    var log' := log + [r];
    assert log'[..|log|] == log && log'[|log|] == r;
    HoldsLast(block, log');
    XorBack(r.tag, LastLink(log));
    assert IsRaw(r);
  }

  lemma {:induction false} CommittedParts(block: seq<byte>, m: seq<Raw>, k: nat)
    requires Holds(block, m) && Sealed(block, m) && TailsFit(block, m) && k <= |m|
    ensures Holds(block, m[..k]) && Sealed(block, m[..k]) && TailsFit(block, m[..k])
    decreases |m|
  {
    hide Holds, HasSeal;
    HoldsPrefix(block, m, k);
    if k == |m| {
      assert m[..k] == m;
    } else {
      var older := m[..|m| - 1];
      HoldsPrefix(block, m, |m| - 1);
      assert older[..k] == m[..k];
      CommittedParts(block, older, k);
    }
  }

  lemma {:induction false} ScanKeepsBest(block: seq<byte>, log: seq<Raw>, best: seq<Raw>)
    requires Holds(block, log) && best <= log
    ensures best <= Scan(block, log, best)
    decreases |block| - End(log)
  {
    var next := NextRaw(block, log);
    if next.Some? {
      var r := next.value;
      NextExtends(block, log);
      if IsCrc(r.tag) {
        if HasSeal(block, log, r.tag) {
          ScanKeepsBest(block, log + [r], log + [r]);
        }
      } else if !(IsTailWord(r.tag) && End(log) + 4 + PAIR_SIZE > |block|) {
        ScanKeepsBest(block, log + [r], best);
      }
    }
  }

  /** No intact log in the block is longer than the one the scan ends up with. */
  lemma {:induction false} ScanIsLongest(block: seq<byte>, k: nat, best: seq<Raw>, m: seq<Raw>)
    requires Committed(block, m) && k <= |m| && Holds(block, m[..k]) && best <= m[..k]
    requires k == |m| ==> best == m
    ensures m <= Scan(block, m[..k], best)
    decreases |m| - k
  {
    hide Holds, NextRaw, HasSeal;
    var log := m[..k];
    ScanKeepsBest(block, log, best);
    if k < |m| {
      var r := m[k];
      assert m[..k + 1] == log + [r];
      CommittedParts(block, m, k + 1);
      NextIs(block, log, r);
      NextExtends(block, log);
      assert m[..k + 1][..k] == log;
      if k + 1 == |m| {
        assert m[..k + 1] == m;
      }
      if IsCrc(r.tag) {
        ScanIsLongest(block, k + 1, m[..k + 1], m);
      } else {
        ScanIsLongest(block, k + 1, best, m);
      }
    }
  }

  /** The log a fetch believes. */
  function Fetched(block: seq<byte>): seq<Raw>
    requires HEADER <= |block|
  {
    StartsEmpty(block);
    Scan(block, [], [])
  }

  lemma StartsEmpty(block: seq<byte>)
    requires HEADER <= |block|
    ensures Committed(block, [])
  {
  }

  /** A fetch finds the longest log of intact commits that the block holds. */
  lemma FetchedIsLongest(block: seq<byte>, m: seq<Raw>)
    requires HEADER <= |block|
    ensures Committed(block, Fetched(block))
    ensures Committed(block, m) ==> m <= Fetched(block)
  {
    StartsEmpty(block);
    ScanSound(block, [], []);
    if Committed(block, m) {
      assert m[..0] == [];
      ScanIsLongest(block, 0, [], m);
    }
  }

  // ---------- the state of a directory ----------

  // A pair of null addresses.
  const NULL_PAIR: seq<byte> :=
    [0xff, 0xff, 0xff, 0xff, 0xff, 0xff, 0xff, 0xff, 0xff, 0xff, 0xff, 0xff, 0xff, 0xff, 0xff, 0xff]

  /** What a fetch keeps about a pair: how many files it has, and the pair that follows. */
  datatype DirState = DirState(count: int, tail: seq<byte>, split: bool)

  const NO_FILES := DirState(0, NULL_PAIR, false)

  function StateAfter(s: DirState, block: seq<byte>, offset: nat, tag: word): DirState
    requires IsTailWord(tag) ==> offset + 4 + PAIR_SIZE <= |block|
  {
    if IsNameWord(tag) then (if IdOf(tag) >= s.count then s.(count := IdOf(tag) + 1) else s)
    else if IsSpliceWord(tag) then s.(count := (s.count + Unpack(tag).Splice()) % 0x1_0000)
    else if IsTailWord(tag) then s.(tail := block[offset + 4..offset + 4 + PAIR_SIZE], split := ChunkIsOdd(tag))
    else s
  }

  function StateOf(block: seq<byte>, log: seq<Raw>): DirState
    requires TailsFit(block, log)
    decreases |log|
  {
    if log == [] then NO_FILES
    else
      var older := log[..|log| - 1];
      StateAfter(StateOf(block, older), block, End(older), log[|log| - 1].tag)
  }

  lemma StateAppend(block: seq<byte>, log: seq<Raw>, r: Raw)
    requires TailsFit(block, log) && (IsTailWord(r.tag) ==> End(log) + 4 + PAIR_SIZE <= |block|)
    ensures TailsFit(block, log + [r])
    ensures StateOf(block, log + [r]) == StateAfter(StateOf(block, log), block, End(log), r.tag)
  {
    assert (log + [r])[..|log|] == log;
  }

  // ---------- lfs_dir_fetch on one block ----------

  /** What a scan has established: what it has read, and the state as of the last intact commit. */
  ghost predicate Scanning(block: seq<byte>, log: seq<Raw>, best: seq<Raw>, ptag: word, crc: word, temp: DirState)
    requires HEADER <= |block|
  {
    && Holds(block, log) && TailsFit(block, log) && TailsFit(block, best)
    && ptag == LastLink(log)
    && crc == RunCrc(block[..HEADER], log)
    && temp == StateOf(block, log)
    && Scan(block, log, best) == Fetched(block)
    && Caught(block, log, best)
  }

  /** What has been read since the last intact commit does not end a commit. */
  ghost predicate Caught(block: seq<byte>, log: seq<Raw>, best: seq<Raw>) {
    log == best || (NextRaw(block, best).Some? && !EndsCommit(log))
  }

  /**
   The log can be continued in place: it is followed by a word that reads as an invalid tag, and its
   last checksum tag did not have to flip the valid bit to get there (lfs_tag_type1 keeps that bit).
   */
  predicate Erased(block: seq<byte>, log: seq<Raw>) {
    && End(log) + 4 <= |block|
    && !IsValid(XorWord(ReadBE32(block, End(log)), LastLink(log)))
    && IsCrc(LastLink(log))
  }

  lemma ErasedWhereCaught(block: seq<byte>, log: seq<Raw>, best: seq<Raw>)
    requires Caught(block, log, best)
    ensures Erased(block, best) == Erased(block, log)
  {
    if log != best {
      NotCrcLink(log[|log| - 1].tag);
    }
  }

  lemma NotCrcLink(tag: word)
    requires !IsCrc(tag)
    ensures Link(tag) == tag && !IsCrc(Link(tag))
  {
  }

  /** The committed part of what a fetch fills in. */
  ghost predicate Found(block: seq<byte>, best: seq<Raw>, dirOffset: nat, etag: word, state: DirState)
    requires TailsFit(block, best)
  {
    if best == [] then dirOffset == 0
    else dirOffset == End(best) && etag == LastLink(best) && state == StateOf(block, best)
  }

  /** The entry r is what the word at the end of what was read begins. */
  ghost predicate AtEntry(block: seq<byte>, log: seq<Raw>, offset: nat, tag: word, r: Raw) {
    && NextRaw(block, log) == Some(r)
    && r.tag == tag
    && offset == End(log)
    && offset + 4 <= offset + WordDsize(tag) <= |block|
    && block[offset + 4..offset + WordDsize(tag)] == r.data
    && block[offset..offset + 4] == ToBE32(XorWord(tag, LastLink(log)))
  }

  /** What the word at the end of what was read is. */
  lemma ReadTag(block: seq<byte>, log: seq<Raw>, offset: nat, tag: word)
    returns (r: Raw)
    requires Holds(block, log) && offset == End(log) && offset + 4 <= |block|
    requires tag == XorWord(ReadBE32(block, offset), LastLink(log))
    ensures IsValid(tag) && offset + WordDsize(tag) <= |block| ==> AtEntry(block, log, offset, tag, r)
    ensures !(IsValid(tag) && offset + WordDsize(tag) <= |block|) ==> NextRaw(block, log).None?
  {
    DsizeAgrees(tag);
    WordBytes(block, End(log));
    XorBack(ReadBE32(block, End(log)), LastLink(log));
    r := if NextRaw(block, log).Some? then NextRaw(block, log).value else Raw(tag, []);
  }

  lemma LinkDsize(w: word)
    ensures WordDsize(Link(w)) == WordDsize(w)
  {
    DsizeAgrees(w);
    DsizeAgrees(Link(w));
    LinkFields(w);
  }

  lemma LinkFields(w: word)
    ensures Unpack(Link(w)) == Unpack(w)
  {
    UnpackIgnoresValid(w);
  }

  lemma CrcIsNoOther(tag: word)
    requires IsCrc(tag)
    ensures !IsNameWord(tag) && !IsSpliceWord(tag) && !IsTailWord(tag)
  {
  }

  /** Nothing more is found: the best state so far is what a fetch believes. */
  lemma StopScan(block: seq<byte>, log: seq<Raw>, best: seq<Raw>, ptag: word, crc: word, temp: DirState)
    requires HEADER <= |block| && Scanning(block, log, best, ptag, crc, temp)
    requires NextRaw(block, log).None?
    ensures Fetched(block) == best && Erased(block, best) == Erased(block, log)
  {
    ErasedWhereCaught(block, log, best);
  }

  /** A checksum tag either makes everything up to it the best state, or ends the scan. */
  lemma StepCrc(block: seq<byte>, log: seq<Raw>, best: seq<Raw>, ptag: word, crc: word, temp: DirState, r: Raw)
    requires HEADER <= |block| && Scanning(block, log, best, ptag, crc, temp)
    requires AtEntry(block, log, End(log), r.tag, r) && IsCrc(r.tag)
    ensures if End(log) + 8 <= |block| && Crc32(crc, block[End(log)..End(log) + 4]) == ReadLE32(block, End(log) + 4)
            then Scanning(block, log + [r], log + [r], Flip(r.tag), CRC_START, temp)
                 && temp == StateOf(block, log + [r]) && LastLink(log + [r]) == Flip(r.tag)
            else Fetched(block) == best && !Erased(block, best)
    ensures End(log + [r]) == End(log) + WordDsize(r.tag)
  {
    NextExtends(block, log);
    ErasedWhereCaught(block, log, best);
    CrcIsNoOther(r.tag);
    StateAppend(block, log, r);
    EncodeAppend(log, r);
    RunCrcAppend(block[..HEADER], log, r);
    DsizeAgrees(r.tag);
  }

  /** Any other entry is read over, keeping track of the state. */
  lemma StepOther(block: seq<byte>, log: seq<Raw>, best: seq<Raw>, ptag: word, crc: word, temp: DirState, r: Raw)
    requires HEADER <= |block| && Scanning(block, log, best, ptag, crc, temp)
    requires AtEntry(block, log, End(log), r.tag, r) && !IsCrc(r.tag)
    ensures if IsTailWord(r.tag) && End(log) + 4 + PAIR_SIZE > |block| then
              Fetched(block) == best && !Erased(block, best)
            else Scanning(block, log + [r], best, r.tag, Crc32(Crc32(crc, block[End(log)..End(log) + 4]), r.data),
                          StateAfter(temp, block, End(log), r.tag))
    ensures End(log + [r]) == End(log) + WordDsize(r.tag)
  {
    NextExtends(block, log);
    ErasedWhereCaught(block, log, best);
    EncodeAppend(log, r);
    RunCrcAppend(block[..HEADER], log, r);
    Composes(crc, block[End(log)..End(log) + 4], r.data);
    DsizeAgrees(r.tag);
    if !(IsTailWord(r.tag) && End(log) + 4 + PAIR_SIZE > |block|) {
      StateAppend(block, log, r);
    }
  }

  lemma RunCrcAppend(revision: seq<byte>, log: seq<Raw>, r: Raw)
    ensures RunCrc(revision, log + [r])
         == if IsCrc(r.tag) then CRC_START else Crc32(RunCrc(revision, log), EncodeOne(r, LastLink(log)))
  {
    assert (log + [r])[..|log|] == log;
  }

  /** The part of the scan that looks at directory modification tags; fails where a tail cannot be read. */
  method Track(block: seq<byte>, offset: nat, tag: word, temp: DirState) returns (ok: bool, temp': DirState)
    ensures ok <==> !(IsTailWord(tag) && offset + 4 + PAIR_SIZE > |block|)
    ensures ok ==> temp' == StateAfter(temp, block, offset, tag)
  {
    ok, temp' := true, temp;
    TagClasses(tag);
    if IsNameWord(tag) {
      // increase count of files if necessary
      if IdOf(tag) >= temp.count {
        temp' := temp'.(count := IdOf(tag) + 1);
      }
    } else if IsSpliceWord(tag) {
      temp' := temp'.(count := (temp.count + Unpack(tag).Splice()) % 0x1_0000);
    } else if IsTailWord(tag) {
      temp' := temp'.(split := ChunkIsOdd(tag));
      if offset + 4 + PAIR_SIZE > |block| {
        return false, temp';
      }
      temp' := temp'.(tail := block[offset + 4..offset + 4 + PAIR_SIZE]);
    }
  }

  lemma TagClasses(tag: word)
    ensures IsTailWord(tag) ==> !IsNameWord(tag) && !IsSpliceWord(tag)
  {
  }

  /** A checksum tag: checks the checksum of the commit, its own tag included. */
  method PassSeal(block: seq<byte>, offset: nat, tag: word, ptag: word, crc: word, temp: DirState,
                  ghost log: seq<Raw>, ghost best: seq<Raw>, ghost r: Raw)
    returns (ok: bool, ptag': word)
    requires HEADER <= |block| && Scanning(block, log, best, ptag, crc, temp)
    requires AtEntry(block, log, offset, tag, r) && IsCrc(tag)
    ensures !ok ==> Fetched(block) == best && !Erased(block, best)
    ensures ok ==> Scanning(block, log + [r], log + [r], ptag', CRC_START, temp)
    ensures ok ==> Found(block, log + [r], offset + WordDsize(tag), ptag', temp)
    ensures ok ==> offset + WordDsize(tag) == offset + WordDsize(ptag') == End(log + [r])
  {
    StepCrc(block, log, best, ptag, crc, temp, r);
    if offset + 8 > |block| {
      return false, tag;
    }
    var crc' := Compute(crc, block[offset..offset + 4]);
    FlipDsize(tag);
    // reset the next bit if we need to
    return crc' == ReadLE32(block, offset + 4), Flip(tag);
  }

  /** Passes over an entry that is no checksum. */
  method PassEntry(block: seq<byte>, offset: nat, tag: word, ptag: word, crc: word, temp: DirState,
                   ghost log: seq<Raw>, ghost best: seq<Raw>, ghost r: Raw)
    returns (ok: bool, crc': word, temp': DirState)
    requires HEADER <= |block| && Scanning(block, log, best, ptag, crc, temp)
    requires AtEntry(block, log, offset, tag, r) && !IsCrc(tag)
    ensures !ok ==> Fetched(block) == best && !Erased(block, best)
    ensures ok ==> Scanning(block, log + [r], best, tag, crc', temp')
    ensures offset + WordDsize(tag) == End(log + [r])
  {
    StepOther(block, log, best, ptag, crc, temp, r);
    crc' := Compute(crc, block[offset..offset + 4]);
    // crc the entry first
    crc' := Compute(crc', block[offset + 4..offset + WordDsize(tag)]);
    ok, temp' := Track(block, offset, tag, temp);
  }

  /** A checksum tag is no name and no splice. */
  lemma SealKeepsBest(name: Option<seq<byte>>, log: seq<Raw>, r: Raw)
    requires IsCrc(r.tag)
    ensures BestOf(name, log + [r]) == BestOf(name, log)
  {
    BestAppends(name, log, r);
  }

  lemma DsizeAtLeast(w: word)
    ensures WordDsize(w) >= 4
  {
  }

  /** Looks at one entry that is no checksum for the name that is looked for. */
  method TrackEntry(block: seq<byte>, offset: nat, tag: word, name: Option<seq<byte>>, best: word, ghost log: seq<Raw>,
                    ghost r: Raw)
    returns (best': word)
    requires AtEntry(block, log, offset, tag, r) && best == BestOf(name, log)
    ensures best' == BestOf(name, log + [r])
  {
    hide BestAfter, BestOf, NextRaw, XorWord, ToBE32, WordDsize, Encode, LastLink;
    BestAppends(name, log, r);
    DsizeAtLeast(tag);
    best' := TrackBest(block, offset + 4, name, best, tag, WordDsize(tag) - 4);
  }

  /**
   The scan of one block by lfs_dir_fetchmatch: finds the last intact commit, the state of the pair as of it, and
   the best match for a name. Without a name it is lfs_dir_fetch.
   */
  method FetchBlock(block: seq<byte>, name: Option<seq<byte>>)
    returns (dirOffset: nat, etag: word, state: DirState, erased: bool, matched: word)
    requires HEADER <= |block|
    ensures TailsFit(block, Fetched(block)) && Found(block, Fetched(block), dirOffset, etag, state)
    ensures erased == Erased(block, Fetched(block))
    ensures matched == BestOf(name, Fetched(block))
  {
    hide BestOf;
    dirOffset, etag, state, erased, matched := 0, NO_TAG, NO_FILES, false, NO_MATCH;
    var offset: nat, ptag, temp, tempMatch := 0, NO_TAG, NO_FILES, NO_MATCH;
    var crc := Compute(CRC_START, block[..HEADER]);
    ghost var log: seq<Raw>, best: seq<Raw> := [], [];
    NoTagDsize();
    NothingMatched(name);
    while true
      invariant Scanning(block, log, best, ptag, crc, temp)
      invariant Found(block, best, dirOffset, etag, state)
      invariant offset + WordDsize(ptag) == End(log)
      invariant tempMatch == BestOf(name, log) && matched == BestOf(name, best)
      decreases |block| - End(log)
    {
      // extract next tag
      offset := offset + WordDsize(ptag);
      if offset + 4 > |block| {
        StopScan(block, log, best, ptag, crc, temp);
        return;
      }
      var tag := XorWord(ReadBE32(block, offset), ptag);
      ghost var r := ReadTag(block, log, offset, tag);
      // next commit not yet programmed or we're not in valid range
      if !IsValid(tag) {
        StopScan(block, log, best, ptag, crc, temp);
        erased := IsCrc(ptag);
        return;
      } else if offset + WordDsize(tag) > |block| {
        StopScan(block, log, best, ptag, crc, temp);
        return;
      }
      var ok;
      if IsCrc(tag) {
        ok, ptag := PassSeal(block, offset, tag, ptag, crc, temp, log, best, r);
        if !ok {
          return;
        }
        // update with what's found so far
        SealKeepsBest(name, log, r);
        dirOffset, etag, state, matched, crc := offset + WordDsize(tag), ptag, temp, tempMatch, CRC_START;
        log, best := log + [r], log + [r];
      } else {
        ok, crc, temp := PassEntry(block, offset, tag, ptag, crc, temp, log, best, r);
        if !ok {
          return;
        }
        tempMatch := TrackEntry(block, offset, tag, name, tempMatch, log, r);
        ptag := tag;
        log := log + [r];
      }
    }
  }

  lemma NothingMatched(name: Option<seq<byte>>)
    ensures BestOf(name, []) == NO_MATCH
  {
  }

  lemma FlipDsize(tag: word)
    requires IsCrc(tag)
    ensures WordDsize(Flip(tag)) == WordDsize(tag)
  {
    LinkDsize(tag);
  }

  lemma NoTagDsize()
    ensures WordDsize(NO_TAG) == 4
  {
  }
}
