/** Bytes and 32-bit words, and the on-disk byte order of words. */
module Words {
  import opened Bits

  type byte = b: nat | b < 0x100
  type word = w: nat | w < 0x1_0000_0000

  function Min(a: nat, b: nat): nat { if a < b then a else b }

  function Max(a: nat, b: nat): nat { if a < b then b else a }

  function XorWord(a: word, b: word): word {
    WordXorFits(a, b);
    Xor(a, b)
  }

  lemma WordSize()
    ensures Pow2(32) == 0x1_0000_0000 && Pow2(31) == 0x8000_0000
  {
    assert Pow2(8) == 0x100;
    Pow2Adds(8, 8);
    Pow2Adds(16, 16);
    assert Pow2(32) == 2 * Pow2(31);
  }

  lemma WordXorFits(a: word, b: word)
    ensures Xor(a, b) < 0x1_0000_0000
  {
    WordSize();
    XorBound(32, a, b);
  }

  /** The k-th byte of a word, counted from the least significant one. */
  function ByteOf(w: nat, k: nat): byte {
    if k == 0 then w % 0x100 else ByteOf(w / 0x100, k - 1)
  }

  lemma ShiftBytes(b: byte, rest: nat, k: nat)
    ensures ByteOf(0x100 * rest + b, k) == if k == 0 then b else ByteOf(rest, k - 1)
  {
    assert (0x100 * rest + b) % 0x100 == b && (0x100 * rest + b) / 0x100 == rest;
  }

  lemma Unshift(w: nat)
    ensures 0x100 * (w / 0x100) + ByteOf(w, 0) == w
    ensures forall k :: k > 0 ==> ByteOf(w, k) == ByteOf(w / 0x100, k - 1)
  {
  }

  lemma {:induction false} BytesOfByte(b: byte, k: nat)
    ensures ByteOf(b, k) == if k == 0 then b else 0
  {
    if k > 0 {
      BytesOfByte(0, k - 1);
    }
  }

  lemma Shrinks(w: nat, bound: nat)
    requires w < 0x100 * bound
    ensures w / 0x100 < bound
  {
  }

  // ---------- little-endian ----------

  /** The n lowest bytes of a number, least significant first. */
  function ToLE(w: nat, n: nat): (s: seq<byte>)
    ensures |s| == n
  {
    seq(n, i requires 0 <= i < n => ByteOf(w, i))
  }

  function FromLE(s: seq<byte>): nat
    decreases |s|
  {
    if s == [] then 0 else 0x100 * FromLE(s[1..]) + s[0]
  }

  function Pow256(n: nat): (p: nat)
    ensures p > 0
  {
    if n == 0 then 1 else 0x100 * Pow256(n - 1)
  }

  lemma {:induction false} FromLEFits(s: seq<byte>)
    ensures FromLE(s) < Pow256(|s|)
    decreases |s|
  {
    if s != [] {
      FromLEFits(s[1..]);
    }
  }

  lemma ToLETail(w: nat, n: nat)
    requires n > 0
    ensures ToLE(w, n)[1..] == ToLE(w / 0x100, n - 1)
  {
    Unshift(w);
  }

  /** Numbers that fit survive being stored and read back. */
  lemma {:induction false} LERoundTrip(w: nat, n: nat)
    requires w < Pow256(n)
    ensures FromLE(ToLE(w, n)) == w
    decreases n
  {
    if n > 0 {
      Shrinks(w, Pow256(n - 1));
      ToLETail(w, n);
      LERoundTrip(w / 0x100, n - 1);
      Unshift(w);
    }
  }

  /** Bytes survive being read as a number and stored again. */
  lemma {:induction false} LEInverse(s: seq<byte>)
    ensures ToLE(FromLE(s), |s|) == s
    decreases |s|
  {
    if s != [] {
      LEInverse(s[1..]);
      forall i | 0 <= i < |s|
        ensures ByteOf(FromLE(s), i) == s[i]
      {
        ShiftBytes(s[0], FromLE(s[1..]), i);
        if i > 0 {
          assert ToLE(FromLE(s[1..]), |s| - 1)[i - 1] == s[1..][i - 1];
        }
      }
    }
  }

  lemma FourBytesFit()
    ensures Pow256(4) == 0x1_0000_0000
  {
    assert Pow256(2) == 0x1_0000;
  }

  /** Revisions, checksums and everything else but tags are stored little-endian. */
  function ToLE32(w: word): (s: seq<byte>)
    ensures |s| == 4
  {
    ToLE(w, 4)
  }

  function FromLE32(s: seq<byte>): word
    requires |s| == 4
  {
    FromLEFits(s);
    FourBytesFit();
    FromLE(s)
  }

  lemma LE32RoundTrip(w: word)
    ensures FromLE32(ToLE32(w)) == w
  {
    FourBytesFit();
    LERoundTrip(w, 4);
  }

  lemma LE32Inverse(s: seq<byte>)
    requires |s| == 4
    ensures ToLE32(FromLE32(s)) == s
  {
    LEInverse(s);
  }

  // ---------- big-endian ----------

  function Reversed(s: seq<byte>): (r: seq<byte>)
    ensures |r| == |s|
  {
    seq(|s|, i requires 0 <= i < |s| => s[|s| - 1 - i])
  }

  lemma ReversedTwice(s: seq<byte>)
    ensures Reversed(Reversed(s)) == s
  {
  }

  /** Tags are stored big-endian, so that the valid bit is the first bit of a tag. */
  function ToBE32(w: word): (s: seq<byte>)
    ensures |s| == 4
  {
    Reversed(ToLE32(w))
  }

  function FromBE32(s: seq<byte>): word
    requires |s| == 4
  {
    FromLE32(Reversed(s))
  }

  lemma BE32RoundTrip(w: word)
    ensures FromBE32(ToBE32(w)) == w
  {
    hide ToLE32, FromLE32;
    ReversedTwice(ToLE32(w));
    LE32RoundTrip(w);
  }

  lemma BE32Inverse(s: seq<byte>)
    requires |s| == 4
    ensures ToBE32(FromBE32(s)) == s
  {
    hide ToLE32, FromLE32;
    LE32Inverse(Reversed(s));
    ReversedTwice(s);
  }
}
