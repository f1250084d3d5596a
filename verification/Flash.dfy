/**
 Commits to erased flash memory: where the rest of the block is all ones, what is there of a commit when power is lost
 does not pass for one, up to the tag of its checksum, wherever within an entry the programming stopped.
 */
module Flash {
  import Bits
  import opened Options
  import opened Words
  import opened Device
  import opened Tags
  import opened RawLog
  import opened Fetch
  import opened Commit
  import opened PowerLoss

  // ---------- the first byte of a tag ----------

  /** A number without its n lowest bits. */
  function Down(a: nat, n: nat): nat {
    if n == 0 then a else Down(Bits.Half(a), n - 1)
  }

  lemma {:induction false} DownTwice(a: nat, m: nat, n: nat)
    ensures Down(Down(a, m), n) == Down(a, m + n)
    decreases m
  {
    if m > 0 {
      DownTwice(Bits.Half(a), m - 1, n);
    }
  }

  lemma DownTwo(a: nat)
    ensures Down(a, 2) == a / 4
  {
    assert Down(a, 2) == Down(Bits.Half(a), 1) == Down(Bits.Half(Bits.Half(a)), 0);
  }

  lemma DownByte(a: nat)
    ensures Down(a, 8) == a / 0x100
  {
    hide Down;
    DownTwo(a);
    DownTwo(a / 4);
    DownTwo(a / 4 / 4);
    DownTwo(a / 4 / 4 / 4);
    DownTwice(a, 2, 2);
    DownTwice(a, 4, 2);
    DownTwice(a, 6, 2);
  }

  lemma DownThreeBytes(a: nat)
    ensures Down(a, 24) == a / 0x100_0000
  {
    hide Down;
    DownByte(a);
    DownByte(a / 0x100);
    DownByte(a / 0x100 / 0x100);
    DownTwice(a, 8, 8);
    DownTwice(a, 16, 8);
  }

  lemma {:induction false} XorDown(a: nat, b: nat, n: nat)
    ensures Down(Bits.Xor(a, b), n) == Bits.Xor(Down(a, n), Down(b, n))
    decreases n
  {
    if n > 0 {
      Bits.XorParts(a, b);
      XorDown(Bits.Half(a), Bits.Half(b), n - 1);
    }
  }

  lemma FirstByteIsTop(s: seq<byte>)
    requires |s| == 4
    ensures FromBE32(s) / 0x100_0000 == s[0]
  {
    var r := Reversed(s);
    assert r == [s[3], s[2], s[1], s[0]];
    assert r[1..] == [s[2], s[1], s[0]] && r[1..][1..] == [s[1], s[0]] && r[1..][1..][1..] == [s[0]];
    var a: nat, b: nat, c: nat, d: nat := s[0], s[1], s[2], s[3];
    assert FromLE([s[0]]) == a;
    assert FromLE([s[1], s[0]]) == 0x100 * a + b;
    assert FromLE([s[2], s[1], s[0]]) == 0x1_0000 * a + 0x100 * b + c;
    assert FromLE(r) == 0x100_0000 * a + 0x1_0000 * b + 0x100 * c + d;
  }

  /** The first byte of a tag on disk settles whether it is valid, and whether it is a checksum. */
  lemma SameFirstByte(block: seq<byte>, block': seq<byte>, at: nat, link: word)
    requires at + 4 <= |block| && at + 4 <= |block'| && block'[at] == block[at]
    ensures var w, w' := XorWord(ReadBE32(block, at), link), XorWord(ReadBE32(block', at), link);
            (IsValid(w') <==> IsValid(w)) && (IsCrc(w') <==> IsCrc(w))
  {
    hide Bits.Xor, Down, FromBE32;
    var a, a' := ReadBE32(block, at), ReadBE32(block', at);
    FirstByteIsTop(block[at..at + 4]);
    FirstByteIsTop(block'[at..at + 4]);
    XorDown(a, link, 24);
    XorDown(a', link, 24);
    DownThreeBytes(a);
    DownThreeBytes(a');
    DownThreeBytes(XorWord(a, link));
    DownThreeBytes(XorWord(a', link));
    TopTells(XorWord(a, link), XorWord(a', link));
  }

  lemma TopTells(w: word, w': word)
    requires w / 0x100_0000 == w' / 0x100_0000
    ensures (IsValid(w') <==> IsValid(w)) && (IsCrc(w') <==> IsCrc(w))
  {
  }

  // ---------- torn entries ----------

  /** An entry of which only some bytes are there: it reads as one that is no checksum, or as nothing. */
  lemma TornEntry(done: seq<byte>, torn: seq<byte>, log: seq<Raw>, open: seq<Raw>, r: Raw, stop: nat)
    requires Holds(done, open + [r]) && !IsCrc(r.tag) && log <= open
    requires forall i :: |log| <= i < |open| ==> !IsCrc(open[i].tag)
    requires |torn| == |done| && End(open) < stop <= End(open + [r])
    requires torn[..stop] == done[..stop] && Blank(torn, stop)
    ensures HEADER <= |torn| && NoTornCommit(torn, log, log)
  {
    hide Holds, Encode, Sealed, TailsFit, ReadBE32, XorWord, IsCrc, LastLink, NextRaw, Blank, NoTornCommit, Committed,
         WordDsize;
    var at, link := End(open), LastLink(open);
    EntryLies(done, open, r);
    SameSlices(torn, done, stop, at);
    OpenIsHeld(done, torn, open);
    SameFirstByte(done, torn, at, link);
    EndAfterHeader(open);
    if NextRaw(torn, open).None? {
      NothingFollows(torn, log, open);
    } else {
      var r' := NextTag(torn, open);
      var open' := open + [r'];
      if at + 4 <= stop {
        SameSlices(torn, done, stop, at + 4);
        SameWordAt(torn, done, at);
      }
      BlankBeyond(torn, stop, End(open'));
      AbandonedOnBlank(torn, log, open');
    }
  }

  lemma EndAfterHeader(log: seq<Raw>)
    ensures HEADER <= End(log)
  {
  }

  lemma EntryLies(block: seq<byte>, open: seq<Raw>, r: Raw)
    requires Holds(block, open + [r])
    ensures Holds(block, open) && End(open) + 4 <= End(open + [r]) == End(open) + WordDsize(r.tag) <= |block|
    ensures XorWord(ReadBE32(block, End(open)), LastLink(open)) == r.tag && IsValid(r.tag)
  {
    assert (open + [r])[..|open|] == open;
    HoldsLast(block, open + [r]);
    XorBack(r.tag, LastLink(open));
    assert IsRaw((open + [r])[|open|]);
  }

  lemma NextTag(block: seq<byte>, open: seq<Raw>) returns (r: Raw)
    requires Holds(block, open) && NextRaw(block, open).Some?
    ensures Holds(block, open + [r]) && End(open) + 4 <= End(open + [r]) == End(open) + WordDsize(r.tag)
    ensures End(open) + 4 <= |block| && r.tag == XorWord(ReadBE32(block, End(open)), LastLink(open))
  {
    r := NextRaw(block, open).value;
    NextExtends(block, open);
    EntryLies(block, open, r);
  }

  lemma NothingFollows(block: seq<byte>, log: seq<Raw>, open: seq<Raw>)
    requires HEADER <= |block| && Holds(block, open) && NextRaw(block, open).None? && log <= open
    requires forall i :: |log| <= i < |open| ==> !IsCrc(open[i].tag)
    ensures NoTornCommit(block, log, log)
  {
    hide Holds, NextRaw, Committed;
    forall m | Committed(block, m) && log <= m
      ensures m == log
    {
      if m != log {
        FollowsOpen(block, log, open, m, |open|);
        assert open[..|open|] == open;
        NextAfter(block, open, m);
      }
    }
  }

  lemma SameSlices(a: seq<byte>, b: seq<byte>, stop: nat, i: nat)
    requires i <= stop <= |a| == |b| && a[..stop] == b[..stop]
    ensures a[..i] == b[..i] && (i < stop ==> a[i] == b[i])
    ensures i >= 4 ==> a[i - 4..i] == b[i - 4..i]
  {
    assert a[..i] == a[..stop][..i] && b[..i] == b[..stop][..i];
    if i < stop {
      assert a[i] == a[..stop][i] && b[i] == b[..stop][i];
    }
    if i >= 4 {
      assert a[i - 4..i] == a[..stop][i - 4..i] && b[i - 4..i] == b[..stop][i - 4..i];
    }
  }

  lemma SameWordAt(a: seq<byte>, b: seq<byte>, at: nat)
    requires at + 4 <= |a| == |b| && a[at..at + 4] == b[at..at + 4]
    ensures ReadBE32(a, at) == ReadBE32(b, at)
  {
  }

  lemma BlankBeyond(block: seq<byte>, at: nat, at': nat)
    requires Blank(block, at) && at <= at'
    ensures Blank(block, at')
  {
  }

  /** Whichever entry the programming stopped in, or after, none of those entries is taken for a commit. */
  lemma {:induction false} TornEntries(done: seq<byte>, torn: seq<byte>, log: seq<Raw>, open: seq<Raw>, stop: nat)
    requires Holds(done, open) && log <= open && (log != [] ==> End(log) < stop)
    requires forall i :: |log| <= i < |open| ==> !IsCrc(open[i].tag)
    requires |torn| == |done| && HEADER + 4 <= |torn| && End(log) <= stop <= End(open) <= |torn|
    requires torn[..stop] == done[..stop] && Blank(torn, stop)
    ensures NoTornCommit(torn, log, log)
    decreases |open|
  {
    hide Holds, Encode, Blank, NoTornCommit, IsCrc;
    if stop == End(open) {
      OpenIsHeld(done, torn, open);
      AbandonedOnBlank(torn, log, open);
    } else {
      var front, r := open[..|open| - 1], open[|open| - 1];
      assert front + [r] == open;
      if log == open {
        assert false;
      }
      assert log <= front;
      EntryLies(done, front, r);
      if stop <= End(front) {
        TornEntries(done, torn, log, front, stop);
      } else {
        TornEntry(done, torn, log, front, r, stop);
      }
    }
  }

  /**
   Power lost over erased flash: of all tears only those within the tag of the checksum need an assumption.
   With TornCommitIsOldOrNew, which needs none for the checksum itself, all others leave the old log or the new one.
   */
  lemma TornOnBlank(before: seq<byte>, at: nat, bytes: seq<byte>, log: seq<Raw>, log': seq<Raw>, k: nat)
    requires Programs(before, at, bytes, log, log') && k + 8 <= |bytes|
    requires HEADER + 4 <= |before| && Blank(before, at)
    requires log != [] ==> at == End(log) && Fetched(before) == log
    ensures NoTornCommit(Overlay(before, at, bytes[..k]), log, log')
  {
    hide Holds, Encode, Blank, IsCrc, Sealed, TailsFit, Overlay, Fetched, Robust;
    var torn, done := Overlay(before, at, bytes[..k]), Overlay(before, at, bytes);
    var open := log'[..|log'| - 1];
    TornSlices(before, at, bytes, k, k);
    TornIsBlank(before, at, bytes[..k]);
    CommittedParts(done, log', |log'| - 1);
    EndAfterHeader(open);
    CommittedHolds(done, log');
    EndsWithin(done, open);
    if log != [] && k == 0 {
      NothingTorn(before, at, bytes[..k]);
      WholeIsFetched(before, log);
    } else if at + k < HEADER {
      StartEnd();
      BlankBeyond(torn, at + k, HEADER);
      assert torn[HEADER..HEADER] == [];
      NothingIsHeld(torn);
      AbandonedOnBlank(torn, [], []);
    } else {
      StartEnd();
      TornEntries(done, torn, log, open, at + k);
    }
  }

  lemma TornIsBlank(before: seq<byte>, at: nat, bytes: seq<byte>)
    requires at + |bytes| <= |before| && Blank(before, at)
    ensures Blank(Overlay(before, at, bytes), at + |bytes|)
  {
  }

  lemma EndsWithin(block: seq<byte>, log: seq<Raw>)
    requires Holds(block, log)
    ensures End(log) <= |block|
  {
  }

  lemma NothingTorn(before: seq<byte>, at: nat, bytes: seq<byte>)
    requires at <= |before| && |bytes| == 0
    ensures Overlay(before, at, bytes) == before
  {
  }

  lemma WholeIsFetched(block: seq<byte>, log: seq<Raw>)
    requires HEADER <= |block| && Fetched(block) == log
    ensures NoTornCommit(block, log, log)
  {
    hide Fetched, Committed;
    forall m | Committed(block, m) && log <= m
      ensures m == log
    {
      FetchedIsLongest(block, m);
    }
  }

  lemma NothingIsHeld(block: seq<byte>)
    requires HEADER <= |block|
    ensures Holds(block, [])
  {
  }
}
