/** Reading a metadata log from the front, as a traversal does: every tag is marked as read from disk. */
module LogReader {
  import Bits
  import opened Words
  import opened Tags
  import opened TagLog
  import opened RawLog
  import opened Compaction

  /** tag | 0x80000000: marks a tag as read from disk */
  function OnDiskTag(w: word): word { Clear(w) + 0x8000_0000 }

  /** The k-th entry of a log, read with any tag before it whose low bits are right. */
  lemma EntryReads(block: seq<byte>, log: seq<Raw>, k: nat, ptag: word, tag: word)
    requires Holds(block, log) && k < |log| && Clear(ptag) == Clear(LastLink(log[..k]))
    requires End(log[..k]) + 4 <= |block|
    requires tag == OnDiskTag(XorWord(ReadBE32(block, End(log[..k])), ptag))
    ensures Unpack(tag) == Unpack(log[k].tag) && Clear(tag) == Clear(LastLink(log[..k + 1]))
    ensures WordDsize(tag) == 4 + |log[k].data| && End(log[..k + 1]) == End(log[..k]) + WordDsize(tag) <= |block|
    ensures block[End(log[..k]) + 4..End(log[..k + 1])] == log[k].data
  {
    hide Encode, ToBE32, FromBE32, XorWord, Bits.Xor, Clear, Link, Unpack;
    HoldsPrefix(block, log, k + 1);
    assert log[..k + 1][..k] == log[..k];
    HoldsLast(block, log[..k + 1]);
    var r, link, raw := log[k], LastLink(log[..k]), ReadBE32(block, End(log[..k]));
    assert IsRaw(r);
    SameLowBits(r.tag, link, ptag, raw);
    ClearOfValid(r.tag);
    OnDiskFields(r.tag, tag);
    LinkLowBits(r.tag);
  }

  lemma SameLowBits(t: word, link: word, ptag: word, raw: word)
    requires raw == XorWord(t, link) && Clear(ptag) == Clear(link)
    ensures Clear(XorWord(raw, ptag)) == Clear(t)
  {
    hide XorWord, Bits.Xor;
    XorValid(t, link);
    XorValid(raw, ptag);
    Bits.XorBack(Clear(t), Clear(link));
  }

  lemma OnDiskFields(t: word, tag: word)
    requires IsValid(t) && tag == t + 0x8000_0000
    ensures Unpack(tag) == Unpack(t) && Clear(tag) == t && WordDsize(tag) == WordDsize(t)
  {
    TopBitApart(t);
    DsizeAgrees(tag);
    DsizeAgrees(t);
  }

  lemma LinkLowBits(t: word)
    ensures Clear(Link(t)) == Clear(t)
  {
    UnpackIgnoresValid(t);
  }

  lemma EndGrows(block: seq<byte>, log: seq<Raw>, k: nat)
    requires Holds(block, log) && k <= |log|
    ensures if k < |log| then End(log[..k]) + 4 <= End(log) <= |block| else End(log[..k]) == End(log)
  {
    if k < |log| {
      HoldsPrefix(block, log, k + 1);
      assert log[..k + 1][..k] == log[..k];
      HoldsLast(block, log[..k + 1]);
    } else {
      assert log[..k] == log;
    }
  }

  /** The entries on disk, as a traversal reads them from the front. */
  method ReadLog(block: seq<byte>, dirOffset: nat, ghost log: seq<Raw>) returns (items: seq<Item>)
    requires Holds(block, log) && dirOffset == End(log)
    ensures items == OnDisk(ViewLog(log))
  {
    hide Encode, ToBE32, FromBE32, XorWord, LastLink, WordDsize, Clear, Unpack, Holds;
    items := [];
    var offset: nat, ptag := 0, NO_TAG;
    ghost var k: nat := 0;
    StartOfLog(log);
    EndGrows(block, log, 0);
    while offset + WordDsize(ptag) < dirOffset
      invariant k <= |log| && offset + WordDsize(ptag) == End(log[..k])
      invariant Clear(ptag) == Clear(LastLink(log[..k]))
      invariant k < |log| <==> End(log[..k]) < dirOffset
      invariant items == OnDisk(ViewLog(log[..k]))
      decreases |log| - k
    {
      EndGrows(block, log, k);
      offset := offset + WordDsize(ptag);
      var tag := OnDiskTag(XorWord(ReadBE32(block, offset), ptag));
      EntryReads(block, log, k, ptag, tag);
      items := items + [Item(Unpack(tag), block[offset + 4..offset + WordDsize(tag)], true)];
      OneMoreItem(log, k);
      ptag := tag;
      k := k + 1;
      EndGrows(block, log, k);
    }
    assert log[..k] == log;
  }

  lemma StartOfLog(log: seq<Raw>)
    ensures WordDsize(NO_TAG) == End(log[..0]) && Clear(NO_TAG) == Clear(LastLink(log[..0]))
    ensures OnDisk(ViewLog(log[..0])) == []
  {
    assert log[..0] == [];
  }

  lemma OneMoreItem(log: seq<Raw>, k: nat)
    requires k < |log|
    ensures OnDisk(ViewLog(log[..k + 1])) == OnDisk(ViewLog(log[..k])) + [Item(Unpack(log[k].tag), log[k].data, true)]
  {
  }
}
