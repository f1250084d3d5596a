/**
 The metadata log as it lies in a block: a revision, then for every entry its tag, xored with
 the tag before it and stored big-endian, followed by its data.
 */
module RawLog {
  import Bits
  import opened Words
  import opened Tags
  import opened TagLog

  datatype Raw = Raw(tag: word, data: seq<byte>)

  const HEADER: nat := 4

  // What the first tag of a block is xored with.
  const NO_TAG: word := 0xffff_ffff

  predicate IsRaw(r: Raw) {
    IsValid(r.tag) && 4 + |r.data| == WordDsize(r.tag)
  }

  predicate IsRawLog(log: seq<Raw>) {
    forall i :: 0 <= i < |log| ==> IsRaw(log[i])
  }

  function View(r: Raw): Entry {
    Entry(Unpack(r.tag), r.data)
  }

  function ViewLog(log: seq<Raw>): (v: seq<Entry>)
    ensures |v| == |log|
    ensures forall i :: 0 <= i < |log| ==> v[i] == View(log[i])
  {
    seq(|log|, i requires 0 <= i < |log| => View(log[i]))
  }

  /** lfs_tag_type1(tag) == LFS_TYPE_CRC; on a word with its valid bit set it fails */
  predicate IsCrc(w: word) { 0x5000_0000 <= w < 0x6000_0000 }

  /** lfs_tag_chunk(tag) & 1 */
  predicate ChunkIsOdd(w: word) { w / 0x10_0000 % 2 == 1 }

  /** A checksum tag whose low type bit is set flips the valid bit of the tag that follows. */
  function Flip(w: word): word { if ChunkIsOdd(w) then Toggle(w) else w }

  function Link(w: word): word {
    if IsCrc(w) then Flip(w) else w
  }

  function LastLink(log: seq<Raw>): word {
    if log == [] then NO_TAG else Link(log[|log| - 1].tag)
  }

  function EncodeOne(r: Raw, ptag: word): seq<byte> {
    ToBE32(XorWord(r.tag, ptag)) + r.data
  }

  function Encode(log: seq<Raw>): seq<byte>
    decreases |log|
  {
    if log == [] then []
    else Encode(log[..|log| - 1]) + EncodeOne(log[|log| - 1], LastLink(log[..|log| - 1]))
  }

  /** The offset after the log. */
  function End(log: seq<Raw>): nat { HEADER + |Encode(log)| }

  /** The block holds the log right after its revision. */
  predicate Holds(block: seq<byte>, log: seq<Raw>) {
    && IsRawLog(log)
    && End(log) <= |block|
    && block[HEADER..End(log)] == Encode(log)
  }

  function ReadBE32(block: seq<byte>, offset: nat): word
    requires offset + 4 <= |block|
  {
    FromBE32(block[offset..offset + 4])
  }

  lemma {:induction false} EncodePrefix(log: seq<Raw>, k: nat)
    requires k <= |log|
    ensures |Encode(log[..k])| <= |Encode(log)|
    ensures Encode(log)[..|Encode(log[..k])|] == Encode(log[..k])
    decreases |log|
  {
    if k == |log| {
      assert log[..k] == log;
    } else {
      var older := log[..|log| - 1];
      assert older[..k] == log[..k];
      EncodePrefix(older, k);
    }
  }

  lemma HoldsPrefix(block: seq<byte>, log: seq<Raw>, k: nat)
    requires Holds(block, log) && k <= |log|
    ensures Holds(block, log[..k]) && End(log[..k]) <= End(log)
  {
    EncodePrefix(log, k);
    var n := |Encode(log[..k])|;
    assert block[HEADER..HEADER + n] == block[HEADER..End(log)][..n];
  }

  lemma XorBack(t: word, p: word)
    ensures XorWord(XorWord(t, p), p) == t
  {
    Bits.XorBack(t, p);
  }

  lemma LastSlice(block: seq<byte>, log: seq<Raw>)
    requires Holds(block, log) && log != []
    ensures var r, older := log[|log| - 1], log[..|log| - 1];
            && IsRaw(r) && Holds(block, older)
            && End(log) == End(older) + 4 + |r.data|
            && block[End(older)..End(log)] == EncodeOne(r, LastLink(older))
  {
    var r, older := log[|log| - 1], log[..|log| - 1];
    HoldsPrefix(block, log, |log| - 1);
    var n := |Encode(older)|;
    assert block[End(older)..End(log)] == block[HEADER..End(log)][n..];
  }

  lemma OneReads(block: seq<byte>, offset: nat, end: nat, r: Raw, ptag: word)
    requires offset <= end <= |block| && block[offset..end] == EncodeOne(r, ptag)
    ensures end == offset + 4 + |r.data|
    ensures ReadBE32(block, offset) == XorWord(r.tag, ptag)
    ensures block[offset + 4..end] == r.data
  {
    var one := EncodeOne(r, ptag);
    assert |one| == 4 + |r.data|;
    assert block[offset..offset + 4] == one[..4] == ToBE32(XorWord(r.tag, ptag));
    BE32RoundTrip(XorWord(r.tag, ptag));
    assert block[offset + 4..end] == one[4..] == r.data;
  }

  /** Where the last entry of the log lies, and how its tag reads. */
  lemma HoldsLast(block: seq<byte>, log: seq<Raw>)
    requires Holds(block, log) && log != []
    ensures var r, older := log[|log| - 1], log[..|log| - 1];
            && Holds(block, older)
            && End(log) == End(older) + WordDsize(r.tag)
            && ReadBE32(block, End(older)) == XorWord(r.tag, LastLink(older))
            && block[End(older) + 4..End(log)] == r.data
  {
    var r, older := log[|log| - 1], log[..|log| - 1];
    LastSlice(block, log);
    OneReads(block, End(older), End(log), r, LastLink(older));
  }

  lemma EncodeAppend(log: seq<Raw>, r: Raw)
    ensures Encode(log + [r]) == Encode(log) + EncodeOne(r, LastLink(log))
    ensures LastLink(log + [r]) == Link(r.tag)
    ensures IsRawLog(log) && IsRaw(r) ==> IsRawLog(log + [r])
  {
    assert (log + [r])[..|log|] == log;
  }

  lemma WordBytes(block: seq<byte>, offset: nat)
    requires offset + 4 <= |block|
    ensures block[offset..offset + 4] == ToBE32(ReadBE32(block, offset))
  {
    BE32Inverse(block[offset..offset + 4]);
  }

  lemma JoinSlices(s: seq<byte>, a: nat, b: nat, c: nat)
    requires a <= b <= c <= |s|
    ensures s[a..b] + s[b..c] == s[a..c]
  {
  }

  lemma OneLies(block: seq<byte>, offset: nat, r: Raw, ptag: word)
    requires offset + 4 + |r.data| <= |block|
    requires ReadBE32(block, offset) == XorWord(r.tag, ptag)
    requires block[offset + 4..offset + 4 + |r.data|] == r.data
    ensures block[offset..offset + 4 + |r.data|] == EncodeOne(r, ptag)
  {
    WordBytes(block, offset);
    JoinSlices(block, offset, offset + 4, offset + 4 + |r.data|);
  }

  /** What follows the end of a log, read as an entry, extends the log. */
  lemma HoldsAppend(block: seq<byte>, log: seq<Raw>, r: Raw)
    requires Holds(block, log) && IsRaw(r)
    requires End(log) + WordDsize(r.tag) <= |block|
    requires ReadBE32(block, End(log)) == XorWord(r.tag, LastLink(log))
    requires block[End(log) + 4..End(log) + 4 + |r.data|] == r.data
    ensures Holds(block, log + [r])
    ensures End(log + [r]) == End(log) + WordDsize(r.tag)
  {
    var a, c := End(log), End(log) + 4 + |r.data|;
    EncodeAppend(log, r);
    OneLies(block, a, r, LastLink(log));
    JoinSlices(block, HEADER, a, c);
    assert |EncodeOne(r, LastLink(log))| == c - a;
    assert End(log + [r]) == c;
  }

  lemma HoldsFrame(block: seq<byte>, block': seq<byte>, log: seq<Raw>)
    requires Holds(block, log) && End(log) <= |block'| && block'[..End(log)] == block[..End(log)]
    ensures Holds(block', log)
  {
    assert block'[HEADER..End(log)] == block'[..End(log)][HEADER..] == block[..End(log)][HEADER..]
           == block[HEADER..End(log)];
  }
}
