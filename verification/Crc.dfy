/** The reflected CRC-32 that closes every metadata commit. */
module Crc {
  import opened Bits
  import opened Words

  /** The polynomial of section 3.2.9 of IEEE 802.3, with its bits reversed. */
  const POLYNOMIAL: word := 0xedb8_8320

  /** One step of polynomial division, least significant bit first. */
  function BitStep(c: nat): nat {
    if Odd(c) then Xor(Half(c), POLYNOMIAL) else Half(c)
  }

  /** n steps of polynomial division. */
  function Divide(c: nat, n: nat): nat
    decreases n
  {
    if n == 0 then c else Divide(BitStep(c), n - 1)
  }

  /** The reference: every byte is folded in at the low end and divided out, `width` bits at a time. */
  function DivideAll(crc: nat, data: seq<byte>, width: nat): nat
    decreases |data|
  {
    if data == [] then crc
    else Divide(Xor(DivideAll(crc, data[..|data| - 1], width), data[|data| - 1]), width)
  }

  /** The table of lfs_crc, indexed by a nibble. */
  function RTable(n: digit): word
  {
    if n == 0x0 then 0x00000000 else if n == 0x1 then 0x1db71064
    else if n == 0x2 then 0x3b6e20c8 else if n == 0x3 then 0x26d930ac
    else if n == 0x4 then 0x76dc4190 else if n == 0x5 then 0x6b6b51f4
    else if n == 0x6 then 0x4db26158 else if n == 0x7 then 0x5005713c
    else if n == 0x8 then 0xedb88320 else if n == 0x9 then 0xf00f9344
    else if n == 0xa then 0xd6d6a3e8 else if n == 0xb then 0xcb61b38c
    else if n == 0xc then 0x9b64c2b0 else if n == 0xd then 0x86d3d2d4
    else if n == 0xe then 0xa00ae278 else 0xbdbdf21c
  }

  /** One table lookup of lfs_crc: (crc >> 4) ^ rtable[(crc ^ n) & 0xf] */
  function NibbleStep(c: word, n: byte): word {
    XorWord(c / 0x10, RTable(Xor(c, n) % 0x10))
  }

  /** What lfs_crc does with a message: two table lookups for each byte. */
  function Crc32(crc: word, data: seq<byte>): word
    decreases |data|
  {
    if data == [] then crc
    else CrcStep(Crc32(crc, data[..|data| - 1]), data[|data| - 1])
  }

  function CrcStep(c: word, b: byte): word {
    NibbleStep(NibbleStep(c, b), b / 0x10)
  }

  /** lfs_crc. */
  method Compute(crc: word, buffer: seq<byte>) returns (r: word)
    ensures r == Crc32(crc, buffer)
  {
    hide NibbleStep;
    r := crc;
    for i := 0 to |buffer|
      invariant r == Crc32(crc, buffer[..i])
    {
      r := NibbleStep(r, buffer[i]);
      r := NibbleStep(r, buffer[i] / 0x10);
      assert buffer[..i + 1][..i] == buffer[..i];
    }
    assert buffer[..|buffer|] == buffer;
  }

  lemma CrcAppend(c: word, data: seq<byte>, b: byte)
    ensures Crc32(c, data + [b]) == CrcStep(Crc32(c, data), b)
  {
    assert (data + [b])[..|data|] == data;
  }

  /** A checksum may be accumulated over pieces. */
  lemma {:induction false} Composes(crc: word, a: seq<byte>, b: seq<byte>)
    ensures Crc32(Crc32(crc, a), b) == Crc32(crc, a + b)
    decreases |b|
  {
    hide CrcStep;
    if b == [] {
      assert a + b == a;
    } else {
      var front, last := b[..|b| - 1], b[|b| - 1];
      Composes(crc, a, front);
      ComposesStep(crc, Crc32(crc, a), a + front, front, last);
      assert front + [last] == b && a + front + [last] == a + b;
    }
  }

  lemma ComposesStep(crc: word, c: word, all: seq<byte>, data: seq<byte>, b: byte)
    requires Crc32(c, data) == Crc32(crc, all)
    ensures Crc32(c, data + [b]) == Crc32(crc, all + [b])
  {
    CrcAppend(c, data, b);
    CrcAppend(crc, all, b);
  }

  // ---------- polynomial division ----------

  /** d moved up n places. */
  function Up(d: nat, n: nat): nat {
    if n == 0 then d else Glue(Up(d, n - 1), false)
  }

  /** What is folded in one place up has arrived at the low end one step later. */
  lemma BitAhead(c: nat, d: nat)
    ensures BitStep(Xor(c, Glue(d, false))) == Xor(BitStep(c), d)
  {
    GlueParts(d, false);
    XorParts(c, Glue(d, false));
    XorSwaps(Half(c), d, POLYNOMIAL);
  }

  lemma {:induction false} DivideAdds(c: nat, m: nat, k: nat)
    ensures Divide(Divide(c, m), k) == Divide(c, m + k)
    decreases m
  {
    if m != 0 {
      DivideAdds(BitStep(c), m - 1, k);
    }
  }

  /** What is folded in n places up has arrived at the low end after n steps. */
  lemma {:induction false} DivideAhead(c: nat, d: nat, n: nat)
    ensures Divide(Xor(c, Up(d, n)), n) == Xor(Divide(c, n), d)
    decreases n
  {
    if n != 0 {
      BitAhead(c, Up(d, n - 1));
      DivideAhead(BitStep(c), d, n - 1);
    }
  }

  /** Folding in after m steps is folding in m places up before them. */
  lemma FoldEarlier(c: nat, d: nat, m: nat, k: nat)
    ensures Divide(Xor(Divide(c, m), d), k) == Divide(Xor(c, Up(d, m)), m + k)
  {
    DivideAhead(c, d, m);
    DivideAdds(Xor(c, Up(d, m)), m, k);
  }

  /** One more piece of a message joins what is already being divided. */
  lemma FoldNext(c: nat, a: nat, d: nat, m: nat, k: nat)
    ensures Divide(Xor(Divide(Xor(c, a), m), d), k) == Divide(Xor(c, Xor(a, Up(d, m))), m + k)
  {
    FoldEarlier(Xor(c, a), d, m, k);
    XorAssociates(c, a, Up(d, m));
  }

  /** Division distributes over xor. */
  lemma BitStepXor(a: nat, b: nat)
    ensures BitStep(Xor(a, b)) == Xor(BitStep(a), BitStep(b))
  {
    XorParts(a, b);
    var x, y := Half(a), Half(b);
    XorSwaps(x, y, POLYNOMIAL);
    XorAssociates(x, y, POLYNOMIAL);
    XorSwaps(x, POLYNOMIAL, Xor(y, POLYNOMIAL));
    XorAssociates(x, y, POLYNOMIAL);
    XorBack(Xor(x, y), POLYNOMIAL);
  }

  lemma {:induction false} DivideXor(a: nat, b: nat, n: nat)
    ensures Divide(Xor(a, b), n) == Xor(Divide(a, n), Divide(b, n))
    decreases n
  {
    if n != 0 {
      BitStepXor(a, b);
      DivideXor(BitStep(a), BitStep(b), n - 1);
    }
  }

  // ---------- the table ----------

  type digit = d: nat | d < 0x10

  function Hex(h: nat, d: digit): nat { 0x10 * h + d }

  lemma PutHex(h: nat, d: digit)
    ensures Put(4, h, d) == Hex(h, d)
  {
    assert Pow2(4) == 0x10;
    PutIsSum(4, h, d);
  }

  lemma XorHex(h: nat, h': nat, x: nat, a: digit, b: digit, e: digit)
    requires Xor(h, h') == x && Xor(a, b) == e
    ensures Xor(Hex(h, a), Hex(h', b)) == Hex(x, e)
  {
    PutHex(h, a);
    PutHex(h', b);
    PutHex(x, e);
    XorPut(4, h, a, h', b);
  }

  lemma XorHex4(h: nat, h': nat, x: nat,
                a3: digit, a2: digit, a1: digit, a0: digit,
                b3: digit, b2: digit, b1: digit, b0: digit,
                e3: digit, e2: digit, e1: digit, e0: digit)
    requires Xor(h, h') == x && Xor(a3, b3) == e3 && Xor(a2, b2) == e2 && Xor(a1, b1) == e1 && Xor(a0, b0) == e0
    ensures Xor(Hex(Hex(Hex(Hex(h, a3), a2), a1), a0), Hex(Hex(Hex(Hex(h', b3), b2), b1), b0))
         == Hex(Hex(Hex(Hex(x, e3), e2), e1), e0)
  {
    XorHex(h, h', x, a3, b3, e3);
    XorHex(Hex(h, a3), Hex(h', b3), Hex(x, e3), a2, b2, e2);
    XorHex(Hex(Hex(h, a3), a2), Hex(Hex(h', b3), b2), Hex(Hex(x, e3), e2), a1, b1, e1);
    XorHex(Hex(Hex(Hex(h, a3), a2), a1), Hex(Hex(Hex(h', b3), b2), b1), Hex(Hex(Hex(x, e3), e2), e1), a0, b0, e0);
  }

  lemma Entry3()
    ensures Xor(0x1db71064, 0x3b6e20c8) == 0x26d930ac
  {
    XorHex4(0, 0, 0, 0x1, 0xd, 0xb, 0x7, 0x3, 0xb, 0x6, 0xe, 0x2, 0x6, 0xd, 0x9);
    XorHex4(0x1db7, 0x3b6e, 0x26d9, 0x1, 0x0, 0x6, 0x4, 0x2, 0x0, 0xc, 0x8, 0x3, 0x0, 0xa, 0xc);
  }

  lemma Entry5()
    ensures Xor(0x1db71064, 0x76dc4190) == 0x6b6b51f4
  {
    XorHex4(0, 0, 0, 0x1, 0xd, 0xb, 0x7, 0x7, 0x6, 0xd, 0xc, 0x6, 0xb, 0x6, 0xb);
    XorHex4(0x1db7, 0x76dc, 0x6b6b, 0x1, 0x0, 0x6, 0x4, 0x4, 0x1, 0x9, 0x0, 0x5, 0x1, 0xf, 0x4);
  }

  lemma Entry6()
    ensures Xor(0x3b6e20c8, 0x76dc4190) == 0x4db26158
  {
    XorHex4(0, 0, 0, 0x3, 0xb, 0x6, 0xe, 0x7, 0x6, 0xd, 0xc, 0x4, 0xd, 0xb, 0x2);
    XorHex4(0x3b6e, 0x76dc, 0x4db2, 0x2, 0x0, 0xc, 0x8, 0x4, 0x1, 0x9, 0x0, 0x6, 0x1, 0x5, 0x8);
  }

  lemma Entry7()
    ensures Xor(0x26d930ac, 0x76dc4190) == 0x5005713c
  {
    XorHex4(0, 0, 0, 0x2, 0x6, 0xd, 0x9, 0x7, 0x6, 0xd, 0xc, 0x5, 0x0, 0x0, 0x5);
    XorHex4(0x26d9, 0x76dc, 0x5005, 0x3, 0x0, 0xa, 0xc, 0x4, 0x1, 0x9, 0x0, 0x7, 0x1, 0x3, 0xc);
  }

  lemma Entry9()
    ensures Xor(0x1db71064, 0xedb88320) == 0xf00f9344
  {
    XorHex4(0, 0, 0, 0x1, 0xd, 0xb, 0x7, 0xe, 0xd, 0xb, 0x8, 0xf, 0x0, 0x0, 0xf);
    XorHex4(0x1db7, 0xedb8, 0xf00f, 0x1, 0x0, 0x6, 0x4, 0x8, 0x3, 0x2, 0x0, 0x9, 0x3, 0x4, 0x4);
  }

  lemma Entry10()
    ensures Xor(0x3b6e20c8, 0xedb88320) == 0xd6d6a3e8
  {
    XorHex4(0, 0, 0, 0x3, 0xb, 0x6, 0xe, 0xe, 0xd, 0xb, 0x8, 0xd, 0x6, 0xd, 0x6);
    XorHex4(0x3b6e, 0xedb8, 0xd6d6, 0x2, 0x0, 0xc, 0x8, 0x8, 0x3, 0x2, 0x0, 0xa, 0x3, 0xe, 0x8);
  }

  lemma Entry11()
    ensures Xor(0x26d930ac, 0xedb88320) == 0xcb61b38c
  {
    XorHex4(0, 0, 0, 0x2, 0x6, 0xd, 0x9, 0xe, 0xd, 0xb, 0x8, 0xc, 0xb, 0x6, 0x1);
    XorHex4(0x26d9, 0xedb8, 0xcb61, 0x3, 0x0, 0xa, 0xc, 0x8, 0x3, 0x2, 0x0, 0xb, 0x3, 0x8, 0xc);
  }

  lemma Entry12()
    ensures Xor(0x76dc4190, 0xedb88320) == 0x9b64c2b0
  {
    XorHex4(0, 0, 0, 0x7, 0x6, 0xd, 0xc, 0xe, 0xd, 0xb, 0x8, 0x9, 0xb, 0x6, 0x4);
    XorHex4(0x76dc, 0xedb8, 0x9b64, 0x4, 0x1, 0x9, 0x0, 0x8, 0x3, 0x2, 0x0, 0xc, 0x2, 0xb, 0x0);
  }

  lemma Entry13()
    ensures Xor(0x6b6b51f4, 0xedb88320) == 0x86d3d2d4
  {
    XorHex4(0, 0, 0, 0x6, 0xb, 0x6, 0xb, 0xe, 0xd, 0xb, 0x8, 0x8, 0x6, 0xd, 0x3);
    XorHex4(0x6b6b, 0xedb8, 0x86d3, 0x5, 0x1, 0xf, 0x4, 0x8, 0x3, 0x2, 0x0, 0xd, 0x2, 0xd, 0x4);
  }

  lemma Entry14()
    ensures Xor(0x4db26158, 0xedb88320) == 0xa00ae278
  {
    XorHex4(0, 0, 0, 0x4, 0xd, 0xb, 0x2, 0xe, 0xd, 0xb, 0x8, 0xa, 0x0, 0x0, 0xa);
    XorHex4(0x4db2, 0xedb8, 0xa00a, 0x6, 0x1, 0x5, 0x8, 0x8, 0x3, 0x2, 0x0, 0xe, 0x2, 0x7, 0x8);
  }

  lemma Entry15()
    ensures Xor(0x5005713c, 0xedb88320) == 0xbdbdf21c
  {
    XorHex4(0, 0, 0, 0x5, 0x0, 0x0, 0x5, 0xe, 0xd, 0xb, 0x8, 0xb, 0xd, 0xb, 0xd);
    XorHex4(0x5005, 0xedb8, 0xbdbd, 0x7, 0x1, 0x3, 0xc, 0x8, 0x3, 0x2, 0x0, 0xf, 0x2, 0x1, 0xc);
  }

  lemma FourDivisions(n: nat, x1: nat, x2: nat, x3: nat, x4: nat)
    requires x1 == BitStep(n) && x2 == BitStep(x1) && x3 == BitStep(x2) && x4 == BitStep(x3)
    ensures Divide(n, 4) == x4
  {
    assert Divide(x2, 2) == Divide(x3, 1) == x4;
    assert Divide(n, 4) == Divide(x1, 3);
  }

  lemma OneDivides()
    ensures BitStep(1) == POLYNOMIAL
  {
    hide Xor;
    XorCommutes(0, POLYNOMIAL);
    XorZero(POLYNOMIAL);
  }

  lemma PowersDivide()
    ensures Divide(1, 4) == RTable(1) && Divide(2, 4) == RTable(2)
    ensures Divide(4, 4) == RTable(4) && Divide(8, 4) == RTable(8)
  {
    var p, p2, p4, p8 := POLYNOMIAL, RTable(4), RTable(2), RTable(1);
    OneDivides();
    assert BitStep(2) == 1 && BitStep(4) == 2 && BitStep(8) == 4;
    assert BitStep(p) == p2 && BitStep(p2) == p4 && BitStep(p4) == p8;
    FourDivisions(1, p, p2, p4, p8);
    FourDivisions(2, 1, p, p2, p4);
    FourDivisions(4, 2, 1, p, p2);
    FourDivisions(8, 4, 2, 1, p);
  }

  lemma Combine(a: digit, b: digit, n: digit)
    requires Divide(a, 4) == RTable(a) && Divide(b, 4) == RTable(b)
    requires Xor(a, b) == n && Xor(RTable(a), RTable(b)) == RTable(n)
    ensures Divide(n, 4) == RTable(n)
  {
    DivideXor(a, b, 4);
  }

  lemma SmallXors()
    ensures Xor(1, 2) == 3 && Xor(1, 4) == 5 && Xor(2, 4) == 6 && Xor(3, 4) == 7
  {
  }

  /** What the entries of two indices say about their xor. */
  lemma SmallEntries(a: digit, b: digit, n: digit)
    requires (a == 1 && b == 2 && n == 3) || (a == 1 && b == 4 && n == 5) || (a == 2 && b == 4 && n == 6)
             || (a == 3 && b == 4 && n == 7)
    ensures Xor(a, b) == n && Xor(RTable(a), RTable(b)) == RTable(n)
  {
    hide Xor;
    SmallXors();
    if n == 3 {
      Entry3();
    } else if n == 5 {
      Entry5();
    } else if n == 6 {
      Entry6();
    } else {
      Entry7();
    }
  }

  lemma UpToSeven(n: digit)
    requires n < 8
    ensures Divide(n, 4) == RTable(n)
    decreases n
  {
    if n == 0 {
      FourDivisions(0, 0, 0, 0, 0);
    } else if n == 1 || n == 2 || n == 4 {
      PowersDivide();
    } else {
      var a := if n == 3 || n == 5 then 1 else n - 4;
      var b := n - a;
      SmallEntries(a, b, n);
      UpToSeven(a);
      UpToSeven(b);
      Combine(a, b, n);
    }
  }

  lemma WithEight(m: digit)
    requires m < 8
    ensures Xor(m, 8) == 8 + m
  {
    hide Xor, Put;
    assert Pow2(3) == 8;
    PutBack(3, m);
    PutIsSum(3, 1, 0);
    XorPut(3, 0, m, 1, 0);
    XorZero(m);
    XorCommutes(0, 1);
    XorZero(1);
    PutIsSum(3, 1, m);
  }

  lemma FromNineToTwelve(m: digit)
    requires m <= 4
    ensures Xor(RTable(m), RTable(8)) == RTable(8 + m)
  {
    if m == 0 {
      XorCommutes(0, RTable(8));
      XorZero(RTable(8));
    } else if m == 1 {
      Entry9();
    } else if m == 2 {
      Entry10();
    } else if m == 3 {
      Entry11();
    } else {
      Entry12();
    }
  }

  lemma EightAndMore(m: digit)
    requires m < 8
    ensures Xor(RTable(m), RTable(8)) == RTable(8 + m)
  {
    if m <= 4 {
      FromNineToTwelve(m);
    } else if m == 5 {
      Entry13();
    } else if m == 6 {
      Entry14();
    } else {
      Entry15();
    }
  }

  /** Every entry of the table is its index, divided four times. */
  lemma TableDivides(n: digit)
    ensures RTable(n) == Divide(n, 4)
  {
    hide RTable, Divide, Xor;
    if n < 8 {
      UpToSeven(n);
    } else {
      UpToSeven(n - 8);
      PowersDivide();
      WithEight(n - 8);
      EightAndMore(n - 8);
      Combine(n - 8, 8, n);
    }
  }

  // ---------- lfs_crc divides ----------

  lemma {:induction false} UpIsPut(d: nat, n: nat)
    ensures Up(d, n) == Put(n, d, 0)
    decreases n
  {
    if n != 0 {
      UpIsPut(d, n - 1);
    }
  }

  /** Pieces that do not overlap: xoring them is putting them together. */
  lemma XorUp(n: nat, lo: nat, hi: nat)
    requires lo < Pow2(n)
    ensures Xor(lo, Up(hi, n)) == hi * Pow2(n) + lo
  {
    UpIsPut(hi, n);
    PutBack(n, lo);
    XorPut(n, 0, lo, hi, 0);
    XorZero(lo);
    XorCommutes(0, hi);
    XorZero(hi);
    PutIsSum(n, hi, lo);
  }

  lemma SplitNibble(c: nat)
    ensures c == Xor(c % 0x10, Up(c / 0x10, 4))
  {
    assert Pow2(4) == 0x10;
    XorUp(4, c % 0x10, c / 0x10);
  }

  lemma HexParts(h: nat, d: digit)
    ensures Hex(h, d) / 0x10 == h && Hex(h, d) % 0x10 == d
  {
  }

  lemma XorDigits(c: nat, d: nat)
    ensures Xor(c, d) / 0x10 == Xor(c / 0x10, d / 0x10)
    ensures Xor(c, d) % 0x10 == Xor(c % 0x10, d % 0x10)
  {
    var x, y := Xor(c / 0x10, d / 0x10), Xor(c % 0x10, d % 0x10);
    assert Pow2(4) == 0x10;
    XorBound(4, c % 0x10, d % 0x10);
    PutHex(c / 0x10, c % 0x10);
    PutHex(d / 0x10, d % 0x10);
    PutHex(x, y);
    XorPut(4, c / 0x10, c % 0x10, d / 0x10, d % 0x10);
    HexParts(x, y);
  }

  lemma NibbleXor(c: nat, n: digit)
    ensures Xor(c, n) / 0x10 == c / 0x10
  {
    XorDigits(c, n);
    XorZero(c / 0x10);
  }

  /** A table lookup is four steps of polynomial division. */
  lemma NibbleDivides(c: word, n: digit)
    ensures NibbleStep(c, n) == Divide(Xor(c, n), 4)
  {
    var x := Xor(c, n);
    var lo, hi := x % 0x10, x / 0x10;
    NibbleXor(c, n);
    SplitNibble(x);
    TableDivides(lo);
    DivideAhead(lo, hi, 4);
    XorCommutes(RTable(lo), hi);
  }

  lemma LowNibble(c: nat, d: byte)
    ensures Xor(c, d) % 0x10 == Xor(c, d % 0x10) % 0x10
  {
    hide Xor;
    XorDigits(c, d);
    XorDigits(c, d % 0x10);
  }

  lemma SameLookup(c: word, d: byte)
    ensures NibbleStep(c, d) == NibbleStep(c, d % 0x10)
  {
    LowNibble(c, d);
  }

  /** Two table lookups are eight steps of polynomial division. */
  lemma CrcStepDivides(c: word, b: byte)
    ensures CrcStep(c, b) == Divide(Xor(c, b), 8)
  {
    var lo, hi := b % 0x10, b / 0x10;
    SameLookup(c, b);
    NibbleDivides(c, lo);
    NibbleDivides(NibbleStep(c, lo), hi);
    FoldNext(c, lo, hi, 4, 4);
    SplitNibble(b);
  }

  /** The nibble table computes the reflected CRC-32 of every message from every state. */
  lemma {:induction false} TableIsPolynomialDivision(crc: word, data: seq<byte>)
    ensures Crc32(crc, data) == DivideAll(crc, data, 8)
    decreases |data|
  {
    if data != [] {
      TableIsPolynomialDivision(crc, data[..|data| - 1]);
      CrcStepDivides(Crc32(crc, data[..|data| - 1]), data[|data| - 1]);
    }
  }

  // ---------- what the checksum detects ----------

  lemma PolynomialTop()
    ensures POLYNOMIAL == Put(31, 1, 0x6db8_8320) && 0x6db8_8320 < Pow2(31)
  {
    WordSize();
    PutIsSum(31, 1, 0x6db8_8320);
  }

  /** The polynomial sets the top bit of whatever it is folded into. */
  lemma SetsTopBit(h: nat)
    requires h < 0x8000_0000
    ensures 0x8000_0000 <= Xor(h, POLYNOMIAL) < 0x1_0000_0000
  {
    hide Xor, Put, Pow2;
    WordSize();
    PolynomialTop();
    PutBack(31, h);
    XorPut(31, 0, h, 1, 0x6db8_8320);
    XorCommutes(0, 1);
    XorZero(1);
    XorBound(31, h, 0x6db8_8320);
    PutIsSum(31, 1, Xor(h, 0x6db8_8320));
  }

  lemma BitStepFits(c: word)
    ensures BitStep(c) < 0x1_0000_0000
    ensures BitStep(c) >= 0x8000_0000 <==> Odd(c)
  {
    SetsTopBit(Half(c));
  }

  lemma BitStepInjective(x: word, y: word)
    requires BitStep(x) == BitStep(y)
    ensures x == y
  {
    BitStepFits(x);
    BitStepFits(y);
    if Odd(x) {
      XorCancels(Half(x), Half(y), POLYNOMIAL);
    }
    SameParts(x, y);
  }

  lemma {:induction false} DivideInjective(x: word, y: word, n: nat)
    requires Divide(x, n) == Divide(y, n)
    ensures x == y
    decreases n
  {
    if n != 0 {
      BitStepFits(x);
      BitStepFits(y);
      DivideInjective(BitStep(x), BitStep(y), n - 1);
      BitStepInjective(x, y);
    }
  }

  lemma {:induction false} DivideZero(n: nat)
    ensures Divide(0, n) == 0
  {
    if n != 0 {
      DivideZero(n - 1);
    }
  }

  lemma StepFolds(c: word, a: nat, b: byte, m: nat, x: word)
    requires x == Divide(Xor(c, a), m)
    ensures CrcStep(x, b) == Divide(Xor(c, Xor(a, Up(b, m))), m + 8)
  {
    CrcStepDivides(x, b);
    FoldNext(c, a, b, m, 8);
  }

  lemma FourSteps(c: word, b0: byte, b1: byte, b2: byte, b3: byte, x1: word, x2: word, x3: word, x4: word)
    requires CrcStep(c, b0) == x1 && CrcStep(x1, b1) == x2 && CrcStep(x2, b2) == x3 && CrcStep(x3, b3) == x4
    ensures Crc32(c, [b0, b1, b2, b3]) == x4
  {
    CrcAppend(c, [], b0);
    assert [] + [b0] == [b0] && [b0] + [b1] == [b0, b1];
    CrcAppend(c, [b0], b1);
    assert [b0, b1] + [b2] == [b0, b1, b2] && [b0, b1, b2] + [b3] == [b0, b1, b2, b3];
    CrcAppend(c, [b0, b1], b2);
    CrcAppend(c, [b0, b1, b2], b3);
  }

  /** The bytes of a word, each in its place. */
  lemma Places(b0: byte, b1: byte, b2: byte, b3: byte)
    ensures Xor(Xor(Xor(b0, Up(b1, 8)), Up(b2, 16)), Up(b3, 24)) == 0x100_0000 * b3 + 0x1_0000 * b2 + 0x100 * b1 + b0
  {
    hide Xor, Up;
    assert Pow2(8) == 0x100 && Pow2(16) == 0x1_0000 && Pow2(24) == 0x100_0000;
    XorUp(8, b0, b1);
    XorUp(16, b1 * 0x100 + b0, b2);
    XorUp(24, b2 * 0x1_0000 + b1 * 0x100 + b0, b3);
  }

  lemma FoldFour(c: word, b0: byte, b1: byte, b2: byte, b3: byte)
    ensures Crc32(c, [b0, b1, b2, b3]) == Divide(Xor(c, 0x100_0000 * b3 + 0x1_0000 * b2 + 0x100 * b1 + b0), 32)
  {
    hide Xor, Up, Divide, CrcStep;
    var a1 := Xor(b0, Up(b1, 8));
    var a2 := Xor(a1, Up(b2, 16));
    var x1, x2, x3 := CrcStep(c, b0), CrcStep(CrcStep(c, b0), b1), CrcStep(CrcStep(CrcStep(c, b0), b1), b2);
    CrcStepDivides(c, b0);
    StepFolds(c, b0, b1, 8, x1);
    StepFolds(c, a1, b2, 16, x2);
    StepFolds(c, a2, b3, 24, x3);
    FourSteps(c, b0, b1, b2, b3, x1, x2, x3, CrcStep(x3, b3));
    Places(b0, b1, b2, b3);
  }

  lemma FromFour(b0: byte, b1: byte, b2: byte, b3: byte)
    ensures FromLE32([b0, b1, b2, b3]) == 0x100_0000 * b3 + 0x1_0000 * b2 + 0x100 * b1 + b0
  {
    var s := [b0, b1, b2, b3];
    assert s[1..] == [b1, b2, b3] && [b1, b2, b3][1..] == [b2, b3] && [b2, b3][1..] == [b3] && [b3][1..] == [];
    assert FromLE([b3]) == b3;
    assert FromLE([b2, b3]) == 0x100 * b3 + b2;
    assert FromLE([b1, b2, b3]) == 0x1_0000 * b3 + 0x100 * b2 + b1;
  }

  /** Four bytes go through the register in one piece. */
  lemma FourBytes(c: word, s: seq<byte>)
    requires |s| == 4
    ensures Crc32(c, s) == Divide(Xor(c, FromLE32(s)), 32)
  {
    hide Xor, Divide, Crc32, FromLE32;
    assert s == [s[0], s[1], s[2], s[3]];
    FoldFour(c, s[0], s[1], s[2], s[3]);
    FromFour(s[0], s[1], s[2], s[3]);
  }

  /** A message followed by its own checksum divides to zero: what the read-back of a commit tests. */
  lemma Residue(crc: word, message: seq<byte>)
    ensures Crc32(crc, message + ToLE32(Crc32(crc, message))) == 0
  {
    var c := Crc32(crc, message);
    Composes(crc, message, ToLE32(c));
    FourBytes(c, ToLE32(c));
    LE32RoundTrip(c);
    XorSelf(c);
    DivideZero(32);
  }

  lemma StepInjective(x: word, y: word, b: byte)
    requires CrcStep(x, b) == CrcStep(y, b)
    ensures x == y
  {
    CrcStepDivides(x, b);
    CrcStepDivides(y, b);
    DivideInjective(XorWord(x, b), XorWord(y, b), 8);
    XorCancels(x, y, b);
  }

  /** Two different states never meet again over a common tail. */
  lemma {:induction false} TailInjective(x: word, y: word, tail: seq<byte>)
    requires Crc32(x, tail) == Crc32(y, tail)
    ensures x == y
    decreases |tail|
  {
    if tail != [] {
      var n := |tail| - 1;
      StepInjective(Crc32(x, tail[..n]), Crc32(y, tail[..n]), tail[n]);
      TailInjective(x, y, tail[..n]);
    }
  }

  lemma WindowInjective(c: word, w: seq<byte>, w': seq<byte>)
    requires |w| == |w'| == 4
    requires Crc32(c, w) == Crc32(c, w')
    ensures w == w'
  {
    FourBytes(c, w);
    FourBytes(c, w');
    var v, v' := FromLE32(w), FromLE32(w');
    DivideInjective(XorWord(c, v), XorWord(c, v'), 32);
    XorCommutes(c, v);
    XorCommutes(c, v');
    XorCancels(v, v', c);
    LE32Inverse(w);
    LE32Inverse(w');
  }

  /** Every change confined to four consecutive bytes is detected, whatever surrounds it. */
  lemma BurstDetected(crc: word, before: seq<byte>, w: seq<byte>, w': seq<byte>, after: seq<byte>)
    requires |w| == |w'| == 4 && w != w'
    ensures Crc32(crc, before + w + after) != Crc32(crc, before + w' + after)
  {
    if Crc32(crc, before + w + after) == Crc32(crc, before + w' + after) {
      Composes(crc, before + w, after);
      Composes(crc, before + w', after);
      TailInjective(Crc32(crc, before + w), Crc32(crc, before + w'), after);
      Composes(crc, before, w);
      Composes(crc, before, w');
      WindowInjective(Crc32(crc, before), w, w');
    }
  }
}
