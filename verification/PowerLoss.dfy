/**
 Power lost while a commit is programmed: whatever the tear, the block holds the log as it was or the
 finished commit, unless what was left in the block passes for a commit by accident.
 */
module PowerLoss {
  import Bits
  import opened Options
  import opened Words
  import opened Device
  import opened Crc
  import opened Tags
  import opened RawLog
  import opened Fetch
  import opened Commit

  /** No intact commit is in the block but those of `log`, or all of log'. */
  ghost predicate NoTornCommit(block: seq<byte>, log: seq<Raw>, log': seq<Raw>)
    requires HEADER <= |block|
  {
    forall m :: Committed(block, m) && log <= m ==> m == log || m == log'
  }

  /** One commit leads from log to log': entries that are no checksums, then a checksum. */
  predicate OneCommit(log: seq<Raw>, log': seq<Raw>) {
    && log <= log' && |log| < |log'|
    && IsCrc(log'[|log'| - 1].tag)
    && forall j :: |log| <= j < |log'| - 1 ==> !IsCrc(log'[j].tag)
  }

  /** Entries that have not been closed by a checksum: any longer intact log starts with them. */
  lemma {:induction false} FollowsOpen(block: seq<byte>, log: seq<Raw>, open: seq<Raw>, m: seq<Raw>, j: nat)
    requires Holds(block, open) && Committed(block, m)
    requires log <= open && log <= m && m != log && |log| <= j <= |open|
    requires forall i :: |log| <= i < |open| ==> !IsCrc(open[i].tag)
    ensures open[..j] <= m && j < |m|
    decreases j
  {
    hide Holds, Sealed, TailsFit;
    if j > |log| {
      FollowsOpen(block, log, open, m, j - 1);
      assert open[..j] == open[..j - 1] + [open[j - 1]] && m[..j] == m[..j - 1] + [m[j - 1]];
      assert open[..j - 1] == m[..j - 1];
      HoldsPrefix(block, open, j);
      HoldsPrefix(block, open, j - 1);
      CommittedParts(block, m, j);
      NextIs(block, open[..j - 1], open[j - 1]);
      NextIs(block, m[..j - 1], m[j - 1]);
    } else {
      assert open[..j] == log;
    }
  }

  lemma SameTag(block: seq<byte>, block': seq<byte>, open: seq<Raw>, r: Raw, r': Raw)
    requires Holds(block, open + [r]) && Holds(block', open + [r'])
    requires End(open) + 4 <= |block| && End(open) + 4 <= |block'| && block'[..End(open) + 4] == block[..End(open) + 4]
    ensures r'.tag == r.tag
  {
    var a := End(open);
    assert (open + [r])[..|open|] == open && (open + [r'])[..|open|] == open;
    HoldsLast(block, open + [r]);
    HoldsLast(block', open + [r']);
    assert block'[a..a + 4] == block'[..a + 4][a..] == block[..a + 4][a..] == block[a..a + 4];
    XorBack(r.tag, LastLink(open));
    XorBack(r'.tag, LastLink(open));
  }

  lemma SealIs(block: seq<byte>, log: seq<Raw>)
    requires Committed(block, log) && log != []
    ensures HasSeal(block, log[..|log| - 1], log[|log| - 1].tag)
  {
  }

  lemma SameWord(block: seq<byte>, block': seq<byte>, at: nat)
    requires at + 4 <= |block| && at + 4 <= |block'| && ReadLE32(block', at) == ReadLE32(block, at)
    ensures block'[at..at + 4] == block[at..at + 4]
  {
    LE32Inverse(block[at..at + 4]);
    LE32Inverse(block'[at..at + 4]);
  }

  lemma InnerSlice(x: seq<byte>, y: seq<byte>, i: nat, j: nat, a: nat, b: nat)
    requires i <= a <= b <= j <= |x| && j <= |y| && x[i..j] == y[i..j]
    ensures x[a..b] == y[a..b]
  {
    forall q | a <= q < b
      ensures x[q] == y[q]
    {
      assert x[i..j][q - i] == y[i..j][q - i];
    }
  }

  /** Whatever intact log extends `log` goes on with what was programmed, up to the checksum tag. */
  lemma FollowsTag(block: seq<byte>, block': seq<byte>, log: seq<Raw>, log': seq<Raw>, m: seq<Raw>)
    requires Committed(block, log') && OneCommit(log, log')
    requires var e := End(log'[..|log'| - 1]);
             e + 4 <= |block| && e + 4 <= |block'| && block'[..e + 4] == block[..e + 4]
    requires Committed(block', m) && log <= m && m != log
    ensures |log'| <= |m| && m[..|log'| - 1] == log'[..|log'| - 1] && m[|log'| - 1].tag == log'[|log'| - 1].tag
  {
    hide Sealed, TailsFit, Encode, LastLink, Holds;
    var n := |log'| - 1;
    var open, e := log'[..n], End(log'[..n]);
    CommittedParts(block, log', n);
    InnerSlice(block', block, 0, e + 4, 0, e);
    OpenIsHeld(block, block', open);
    FollowsOpen(block', log, open, m, n);
    assert open[..n] == open;
    assert m[..n + 1] == open + [m[n]] && log' == open + [log'[n]];
    CommittedParts(block', m, n + 1);
    SameTag(block, block', open, log'[n], m[n]);
  }

  /** Torn within the checksum: if anything more than the old log is found, the checksum was there. */
  lemma TornSeal(block: seq<byte>, block': seq<byte>, log: seq<Raw>, log': seq<Raw>, m: seq<Raw>)
    requires Committed(block, log') && OneCommit(log, log') && Robust(log')
    requires var e := End(log'[..|log'| - 1]);
             e + 4 <= |block| && e + 4 <= |block'| && block'[..e + 4] == block[..e + 4]
    requires Committed(block', m) && log <= m && m != log
    ensures var e := End(log'[..|log'| - 1]);
            e + 8 <= |block| && e + 8 <= |block'| && block'[e + 4..e + 8] == block[e + 4..e + 8]
  {
    hide Holds, Encode, Sealed, TailsFit, SealCrc, LastLink, Robust, ReadLE32;
    var n := |log'| - 1;
    var open, e := log'[..n], End(log'[..n]);
    FollowsTag(block, block', log, log', m);
    HeaderKept(block, block', e + 4);
    CommittedParts(block', m, n + 1);
    assert m[..n + 1][..n] == open && m[..n + 1][n] == m[n];
    SealIs(block, log');
    SealOf(block', m[..n + 1]);
    SameWord(block, block', e + 4);
  }

  lemma SealOf(block: seq<byte>, log: seq<Raw>)
    requires HEADER <= |block| && Sealed(block, log) && log != [] && IsCrc(log[|log| - 1].tag)
    ensures HasSeal(block, log[..|log| - 1], log[|log| - 1].tag)
  {
  }

  lemma OpenIsHeld(block: seq<byte>, block': seq<byte>, open: seq<Raw>)
    requires Holds(block, open) && End(open) <= |block'| && block'[..End(open)] == block[..End(open)]
    ensures Holds(block', open)
  {
    HoldsFrame(block, block', open);
  }

  /** Two revisions do not lead to the same checksum. */
  lemma {:induction false} RevisionIsSealed(revision: seq<byte>, revision': seq<byte>, log: seq<Raw>)
    requires |revision| == |revision'| == 4
    requires forall i :: 0 <= i < |log| ==> !IsCrc(log[i].tag)
    requires RunCrc(revision, log) == RunCrc(revision', log)
    ensures revision == revision'
    decreases |log|
  {
    hide Crc32;
    if log == [] {
      WindowInjective(CRC_START, revision, revision');
    } else {
      var r, older := log[|log| - 1], log[..|log| - 1];
      assert !IsCrc(r.tag);
      TailInjective(RunCrc(revision, older), RunCrc(revision', older), EncodeOne(r, LastLink(older)));
      RevisionIsSealed(revision, revision', older);
    }
  }

  /** The first commit of a block vouches for the revision. */
  lemma SameLogSameRevision(block: seq<byte>, block': seq<byte>, log: seq<Raw>)
    requires Committed(block, log) && Committed(block', log) && OneCommit([], log) && Robust(log)
    requires HEADER <= |block| && HEADER <= |block'|
    ensures block'[..HEADER] == block[..HEADER]
  {
    hide Crc32, Encode, RunCrc, LastLink, XorWord, ToBE32, Sealed, TailsFit, Robust, FromLE32;
    var r, open := log[|log| - 1], log[..|log| - 1];
    SealIs(block, log);
    SealIs(block', log);
    SameLogSameBytes(block, block', log);
    SealedBytes(block, log);
    var e := End(open) + 4;
    InnerSlice(block', block, HEADER, End(log), e, e + 4);
    var tag := ToBE32(XorWord(r.tag, LastLink(open)));
    TailInjective(RunCrc(block[..HEADER], open), RunCrc(block'[..HEADER], open), tag);
    RevisionIsSealed(block[..HEADER], block'[..HEADER], open);
  }

  lemma SliceOfRest(block: seq<byte>, block': seq<byte>, from: nat, a: nat, b: nat)
    requires from <= a <= b <= |block| == |block'| && block'[from..] == block[from..]
    ensures block'[a..b] == block[a..b]
  {
    assert block'[from..][a - from..b - from] == block'[a..b] && block[from..][a - from..b - from] == block[a..b];
  }

  /** Two blocks that only differ in the revision, with an intact commit in both. */
  lemma SameRestSameRevision(block: seq<byte>, block': seq<byte>, log: seq<Raw>)
    requires Committed(block, log) && Committed(block', log) && OneCommit([], log)
    requires HEADER <= |block| == |block'| && block'[HEADER..] == block[HEADER..]
    ensures block' == block
  {
    hide Crc32, Encode, RunCrc, LastLink, XorWord, ToBE32, Sealed, TailsFit, FromLE32, IsCrc;
    var r, open := log[|log| - 1], log[..|log| - 1];
    SealIs(block, log);
    SealIs(block', log);
    var e := End(open) + 4;
    SliceOfRest(block, block', HEADER, e, e + 4);
    var tag := ToBE32(XorWord(r.tag, LastLink(open)));
    TailInjective(RunCrc(block[..HEADER], open), RunCrc(block'[..HEADER], open), tag);
    RevisionIsSealed(block[..HEADER], block'[..HEADER], open);
    assert block == block[..HEADER] + block[HEADER..] && block' == block'[..HEADER] + block'[HEADER..];
  }

  lemma HoldsRest(block: seq<byte>, block': seq<byte>, log: seq<Raw>)
    requires HEADER <= |block| == |block'| && block'[HEADER..] == block[HEADER..] && Holds(block, log)
    ensures Holds(block', log)
  {
    SliceOfRest(block, block', HEADER, HEADER, End(log));
  }

  /** The first commit of a log. */
  lemma {:induction false} FirstCommitOf(log: seq<Raw>) returns (k: nat)
    requires EndsCommit(log) && log != []
    ensures 0 < k <= |log| && OneCommit([], log[..k])
    decreases |log|
  {
    if j: nat :| j < |log| - 1 && IsCrc(log[j].tag) {
      assert log[..j + 1][|log[..j + 1]| - 1] == log[j];
      k := FirstCommitOf(log[..j + 1]);
      assert log[..j + 1][..k] == log[..k];
    } else {
      k := |log|;
      assert log[..k] == log;
    }
  }

  /** A block whose intact log was put under another revision has none: its first checksum gives it away. */
  lemma StaleUnderNewRevision(block: seq<byte>, block': seq<byte>)
    requires HEADER <= |block| == |block'| && block'[HEADER..] == block[HEADER..] && block' != block
    requires Fetched(block) != []
    ensures Fetched(block') == []
  {
    hide Fetched, Sealed, TailsFit, Holds, Encode, OneCommit, NextRaw;
    var log, m := Fetched(block), Fetched(block');
    FetchedIsLongest(block, log);
    FetchedIsLongest(block', m);
    if m != [] {
      CommittedHolds(block', m);
      CommittedHolds(block, log);
      var k := FirstCommitOf(m);
      var first := m[..k];
      CommittedParts(block', m, k);
      HoldsRest(block', block, first);
      SharesFirst(block, log, first);
      CommittedParts(block, log, k);
      OneCommitEnds(first);
      assert log[..k] == first;
      SameRestSameRevision(block, block', first);
    }
  }

  lemma OneCommitEnds(log: seq<Raw>)
    requires OneCommit([], log)
    ensures EndsCommit(log)
  {
  }

  /** Two logs in one block have their first commit in common. */
  lemma SharesFirst(block: seq<byte>, log: seq<Raw>, first: seq<Raw>)
    requires Committed(block, log) && log != [] && Holds(block, first) && OneCommit([], first)
    ensures first <= log
  {
    hide Sealed, TailsFit, Holds, Encode, NextRaw;
    var n := |first| - 1;
    var open := first[..n];
    HoldsPrefix(block, first, n);
    FollowsOpen(block, [], open, log, n);
    assert open[..n] == open && first == open + [first[n]] && log[..n + 1] == open + [log[n]];
    CommittedParts(block, log, n + 1);
    NextIs(block, open, first[n]);
    NextIs(block, open, log[n]);
  }

  lemma SealedBytes(block: seq<byte>, log: seq<Raw>)
    requires Committed(block, log) && log != [] && Robust(log)
    ensures End(log[..|log| - 1]) + 8 <= End(log) <= |block|
  {
    HoldsLast(block, log);
    assert IsRaw(log[|log| - 1]);
  }

  lemma SameLogSameBytes(block: seq<byte>, block': seq<byte>, log: seq<Raw>)
    requires Holds(block, log) && Holds(block', log)
    ensures block'[HEADER..End(log)] == block[HEADER..End(log)]
  {
  }

  /** What was programmed from `at` on reaches to the checksum of the commit, and no further. */
  ghost predicate Programs(before: seq<byte>, at: nat, bytes: seq<byte>, log: seq<Raw>, log': seq<Raw>) {
    && at + |bytes| <= |before| && 8 <= |bytes|
    && OneCommit(log, log') && Robust(log')
    && Committed(Overlay(before, at, bytes), log')
    && at + |bytes| == End(log'[..|log'| - 1]) + 8
    && (if log == [] then at == 0 else HEADER <= at)
  }

  /** If the whole new log is found, every byte of it is there. */
  lemma NewLogIsWhole(before: seq<byte>, at: nat, bytes: seq<byte>, log: seq<Raw>, log': seq<Raw>, k: nat)
    requires Programs(before, at, bytes, log, log') && k <= |bytes|
    requires Committed(Overlay(before, at, bytes[..k]), log')
    ensures Overlay(before, at, bytes[..k]) == Overlay(before, at, bytes)
  {
    hide Committed, Encode;
    var torn, done := Overlay(before, at, bytes[..k]), Overlay(before, at, bytes);
    CommittedHolds(torn, log');
    CommittedHolds(done, log');
    SameLogSameBytes(done, torn, log');
    SealedBytes(done, log');
    if log == [] {
      SameLogSameRevision(done, torn, log');
    } else {
      assert torn[..HEADER] == before[..HEADER] == done[..HEADER];
    }
    SameParts(done, torn, HEADER, End(log'));
  }

  lemma CommittedHolds(block: seq<byte>, log: seq<Raw>)
    requires Committed(block, log)
    ensures Holds(block, log) && HEADER <= |block|
  {
  }

  lemma SameParts(a: seq<byte>, b: seq<byte>, i: nat, j: nat)
    requires |a| == |b| && i <= j <= |a|
    requires a[..i] == b[..i] && a[i..j] == b[i..j] && a[j..] == b[j..]
    ensures a == b
  {
    assert a == a[..i] + a[i..j] + a[j..];
    assert b == b[..i] + b[i..j] + b[j..];
  }

  lemma TornSlices(before: seq<byte>, at: nat, bytes: seq<byte>, k: nat, i: nat)
    requires at + |bytes| <= |before| && i <= k <= |bytes|
    ensures Overlay(before, at, bytes[..k])[..at + i] == Overlay(before, at, bytes)[..at + i]
    ensures Overlay(before, at, bytes[..k])[at + |bytes|..] == Overlay(before, at, bytes)[at + |bytes|..]
  {
    var torn, done := Overlay(before, at, bytes[..k]), Overlay(before, at, bytes);
    assert forall x :: 0 <= x < at + i ==> torn[x] == done[x];
    assert forall x :: at + |bytes| <= x < |before| ==> torn[x] == done[x];
  }

  /** Torn within the checksum, and still more is found than the old log: then the rest was there already. */
  lemma NewSealIsWhole(before: seq<byte>, at: nat, bytes: seq<byte>, log: seq<Raw>, log': seq<Raw>, k: nat, m: seq<Raw>)
    requires Programs(before, at, bytes, log, log') && |bytes| - 4 <= k <= |bytes|
    requires Committed(Overlay(before, at, bytes[..k]), m) && log <= m && m != log
    ensures Overlay(before, at, bytes[..k]) == Overlay(before, at, bytes)
  {
    hide Committed, Encode, Overlay, Robust;
    var torn, done := Overlay(before, at, bytes[..k]), Overlay(before, at, bytes);
    var e := End(log'[..|log'| - 1]);
    TornSlices(before, at, bytes, k, |bytes| - 4);
    TornSeal(done, torn, log, log', m);
    SameParts(done, torn, e + 4, e + 8);
  }

  /**
   Power was lost after k bytes of a commit: the old log is found, or everything is there. Before the
   checksum is reached this assumes that what is in the block does not pass for a commit by accident.
   */
  lemma TornCommitIsOldOrNew(before: seq<byte>, at: nat, bytes: seq<byte>, log: seq<Raw>, log': seq<Raw>, k: nat)
    requires at + |bytes| <= |before| && Programs(before, at, bytes, log, log') && k <= |bytes|
    requires HEADER <= |before| && Committed(Overlay(before, at, bytes[..k]), log)
    requires k + 4 < |bytes| ==> NoTornCommit(Overlay(before, at, bytes[..k]), log, log')
    ensures Fetched(Overlay(before, at, bytes[..k])) == log
            || Overlay(before, at, bytes[..k]) == Overlay(before, at, bytes)
  {
    hide Fetched, Committed, Encode, Overlay, Programs;
    var torn := Overlay(before, at, bytes[..k]);
    var m := Fetched(torn);
    FetchedIsLongest(torn, log);
    if m != log {
      if k + 4 < |bytes| {
        NewLogIsWhole(before, at, bytes, log, log', k);
      } else {
        NewSealIsWhole(before, at, bytes, log, log', k, m);
      }
    }
  }

  /** The log before a commit stays where it is. */
  lemma OldLogStays(block: seq<byte>, log: seq<Raw>, bytes: seq<byte>)
    requires Committed(block, log) && Robust(log) && End(log) + |bytes| <= |block|
    ensures Committed(Overlay(block, End(log), bytes), log)
  {
    OverlaySlices(block, End(log), bytes);
    IntactFrame(block, Overlay(block, End(log), bytes), log);
  }

  // ---------- commits that were given up ----------

  /** From `at` on the block is as an erase of flash memory leaves it. */
  predicate Blank(block: seq<byte>, at: nat) {
    forall i :: at <= i < |block| ==> block[i] == 0xff
  }

  lemma BlankWord(block: seq<byte>, at: nat, link: word)
    requires Blank(block, at) && at + 4 <= |block|
    ensures ReadBE32(block, at) == 0xffff_ffff
    ensures IsValid(link) ==> !IsValid(XorWord(ReadBE32(block, at), link))
  {
    var s := Reversed(block[at..at + 4]);
    assert s == [0xff, 0xff, 0xff, 0xff];
    assert s[1..] == [0xff, 0xff, 0xff] && s[1..][1..] == [0xff, 0xff] && s[1..][1..][1..] == [0xff];
    assert FromLE([0xff]) == 0xff;
    assert FromLE([0xff, 0xff]) == 0xffff;
    assert FromLE([0xff, 0xff, 0xff]) == 0xff_ffff;
    assert FromLE(s) == 0xffff_ffff;
    XorValid(ReadBE32(block, at), link);
  }

  /** After an entry that is no checksum, blank bytes do not read as a tag. */
  lemma BlankEndsLog(block: seq<byte>, open: seq<Raw>)
    requires Holds(block, open) && open != [] && !IsCrc(open[|open| - 1].tag) && Blank(block, End(open))
    ensures NextRaw(block, open).None?
  {
    hide ReadBE32, XorWord;
    assert IsRaw(open[|open| - 1]);
    NotCrcLink(open[|open| - 1].tag);
    if End(open) + 4 <= |block| {
      BlankWord(block, End(open), LastLink(open));
    }
  }

  /** Where a log would begin, blank bytes read as one empty entry. */
  lemma BlankStart(block: seq<byte>)
    requires HEADER + 4 <= |block| && Blank(block, HEADER)
    ensures NextRaw(block, []) == Some(Raw(0, [])) && Holds(block, [Raw(0, [])]) && End([Raw(0, [])]) == HEADER + 4
  {
    hide ReadBE32, XorWord, Blank;
    StartEnd();
    BlankWord(block, HEADER, 0);
    BlankTag();
    assert WordDsize(0) == 4;
    assert block[HEADER + 4..HEADER + 4] == [];
    NextExtends(block, []);
    assert [] + [Raw(0, [])] == [Raw(0, [])];
    HoldsLast(block, [Raw(0, [])]);
    assert [Raw(0, [])][..0] == [];
  }

  lemma BlankTag()
    ensures XorWord(0xffff_ffff, LastLink([])) == 0 && IsValid(0)
  {
    Bits.XorSelf(0xffff_ffff);
  }

  lemma StartEnd()
    ensures End([]) == HEADER
  {
  }

  /** Entries that were followed by blank bytes when the commit was given up are not taken for a commit. */
  lemma AbandonedOnBlank(block: seq<byte>, log: seq<Raw>, open: seq<Raw>)
    requires HEADER + 4 <= |block| && Holds(block, open) && Blank(block, End(open)) && log <= open
    requires forall i :: |log| <= i < |open| ==> !IsCrc(open[i].tag)
    requires log == [] || log != open
    ensures NoTornCommit(block, log, log)
  {
    hide Holds, Sealed, TailsFit, NextRaw, Encode;
    forall m | Committed(block, m) && log <= m
      ensures m == log
    {
      if m != log {
        if open == [] {
          StartEnd();
          BlankStart(block);
          FollowsOpen(block, [], [Raw(0, [])], m, 1);
          BlankEndsLog(block, [Raw(0, [])]);
          NextAfter(block, [Raw(0, [])], m);
        } else {
          FollowsOpen(block, log, open, m, |open|);
          assert open[..|open|] == open;
          BlankEndsLog(block, open);
          NextAfter(block, open, m);
        }
      }
    }
  }

  lemma NextAfter(block: seq<byte>, log: seq<Raw>, m: seq<Raw>)
    requires Committed(block, m) && log <= m && |log| < |m|
    ensures NextRaw(block, log).Some?
  {
    var k := |log|;
    assert m[..k] == log && m[..k + 1] == log + [m[k]];
    CommittedParts(block, m, k + 1);
    CommittedParts(block, m, k);
    NextIs(block, log, m[k]);
  }
}
