/** Counting the ones of a word, in all of its fields at once. */
module Popcount {
  import opened Bits

  const WORD: nat := 0x1_0000_0000_0000_0000

  /** The number of ones. */
  function Popc(n: nat): nat {
    if n == 0 then 0 else Popc(Half(n)) + if Odd(n) then 1 else 0
  }

  lemma PopcBit(n: nat, b: nat)
    requires b < 2
    ensures Popc(2 * n + b) == Popc(n) + b
  {
    assert Half(2 * n + b) == n;
  }

  lemma PopcPair(n: nat, b: nat)
    requires b < 4
    ensures Popc(4 * n + b) == Popc(n) + Popc(b) && Popc(b) <= 2 && Popc(b) == b / 2 + b % 2
  {
    hide Popc;
    PopcNone();
    var x, y := b / 2, b % 2;
    PopcBit(2 * n + x, y);
    PopcBit(n, x);
    PopcBit(x, y);
    PopcBit(0, x);
    assert 2 * (2 * n + x) + y == 4 * n + b;
  }

  lemma PopcDigit(n: nat, d: nat)
    requires d < 16
    ensures Popc(16 * n + d) == Popc(n) + Popc(d) && Popc(d) == Popc(d / 4) + Popc(d % 4) <= 4
  {
    hide Popc;
    var x, y := d / 4, d % 4;
    PopcPair(4 * n + x, y);
    PopcPair(n, x);
    PopcPair(x, y);
    assert 4 * (4 * n + x) + y == 16 * n + d;
  }

  lemma PopcNone()
    ensures Popc(0) == 0
  {
  }

  // ---------- masks ----------

  /** The same four bits, k times. */
  function Repeat(d: nat, k: nat): nat {
    if k == 0 then 0 else 16 * Repeat(d, k - 1) + d
  }

  lemma RepeatFour(d: nat, k: nat)
    ensures Repeat(d, k + 4) == 0x1_0000 * Repeat(d, k) + 0x1111 * d
  {
    assert Repeat(d, k + 4) == 16 * Repeat(d, k + 3) + d;
    assert Repeat(d, k + 2) == 16 * Repeat(d, k + 1) + d;
  }

  lemma Repeated(d: nat)
    ensures Repeat(d, 16) == 0x1111_1111_1111_1111 * d
  {
    hide Repeat;
    RepeatFour(d, 12);
    RepeatFour(d, 8);
    RepeatFour(d, 4);
    RepeatFour(d, 0);
    RepeatNone(d);
  }

  lemma RepeatNone(d: nat)
    ensures Repeat(d, 0) == 0
  {
  }

  lemma AndNone(a: nat)
    ensures And(0, a) == 0 == And(a, 0)
  {
    if a != 0 {
      AndNone(a / 2);
    }
  }

  lemma AndBit(a: nat, x: nat, b: nat, y: nat)
    requires x < 2 && y < 2
    ensures And(2 * a + x, 2 * b + y) == 2 * And(a, b) + if x == y == 1 then 1 else 0
  {
    AndParts(2 * a + x, 2 * b + y);
    assert Half(2 * a + x) == a && Half(2 * b + y) == b;
  }

  lemma AndPair(a: nat, x: nat, b: nat, y: nat)
    requires x < 4 && y < 4
    ensures And(4 * a + x, 4 * b + y) == 4 * And(a, b) + And(x, y) && And(x, y) < 4
    ensures And(x, 1) == x % 2 && And(x, 3) == x
  {
    hide And;
    AndNone(0);
    var x1, x0, y1, y0 := x / 2, x % 2, y / 2, y % 2;
    AndBit(2 * a + x1, x0, 2 * b + y1, y0);
    AndBit(a, x1, b, y1);
    AndBit(x1, x0, y1, y0);
    AndBit(0, x1, 0, y1);
    AndBit(x1, x0, 0, 1);
    AndBit(0, x1, 0, 0);
    AndBit(x1, x0, 1, 1);
    AndBit(0, x1, 0, 1);
    assert 2 * (2 * a + x1) + x0 == 4 * a + x && 2 * (2 * b + y1) + y0 == 4 * b + y;
  }

  lemma AndDigit(a: nat, x: nat, b: nat, y: nat)
    requires x < 16 && y < 16
    ensures And(16 * a + x, 16 * b + y) == 16 * And(a, b) + And(x, y) && And(x, y) < 16
  {
    hide And;
    AndNone(0);
    var x1, x0, y1, y0 := x / 4, x % 4, y / 4, y % 4;
    AndPair(4 * a + x1, x0, 4 * b + y1, y0);
    AndPair(a, x1, b, y1);
    AndPair(x1, x0, y1, y0);
    assert 4 * (4 * a + x1) + x0 == 16 * a + x && 4 * (4 * b + y1) + y0 == 16 * b + y;
  }

  lemma AndMasks(x: nat)
    requires x < 16
    ensures And(x, 5) == 4 * (x / 4 % 2) + x % 2 && And(x, 3) == x % 4 && And(x, 15) == x && And(x, 0) == 0
  {
    hide And;
    AndNone(x);
    AndNone(x / 4);
    var x1, x0 := x / 4, x % 4;
    AndPair(x1, x0, 1, 1);
    AndPair(x1, x0, 0, 3);
    AndPair(x1, x0, 3, 3);
    AndPair(0, x1, 0, 1);
  }

  // ---------- counting in fields ----------

  /** The number of ones of every two bits. */
  function InPairs(v: nat): nat {
    if v == 0 then 0 else 16 * InPairs(v / 16) + 4 * Popc(v % 16 / 4) + Popc(v % 16 % 4)
  }

  /** The number of ones of every four bits. */
  function InDigits(v: nat): nat {
    if v == 0 then 0 else 16 * InDigits(v / 16) + Popc(v % 16)
  }

  /** The number of ones of every eight bits. */
  function InBytes(v: nat): nat {
    if v == 0 then 0 else 256 * InBytes(v / 256) + Popc(v % 256)
  }

  /** The five lowest bits at the place of a digit, the lowest of which is shifted out. */
  lemma PairsOfBits(h: nat, e: nat, a: nat, b: nat, c: nat, d: nat, m: nat)
    requires e < 2 && a < 2 && b < 2 && c < 2 && d < 2
    ensures And(16 * h + (8 * e + 4 * a + 2 * b + c), 16 * m + 5) == 16 * And(h, m) + 4 * a + c
    ensures Popc(2 * a + b) == a + b && Popc(2 * c + d) == c + d
  {
    hide Popc, And;
    var x := 8 * e + 4 * a + 2 * b + c;
    AndDigit(h, x, m, 5);
    AndMasks(x);
    assert x / 4 == 2 * e + a;
    PopcPair(0, 2 * a + b);
    PopcPair(0, 2 * c + d);
  }

  lemma PairsOfDigit(v: nat, m: nat)
    ensures And(v / 2, 16 * m + 5) + 4 * Popc(v % 16 / 4) + Popc(v % 16 % 4) == 16 * And(v / 16 / 2, m) + v % 16
  {
    hide Popc, And;
    var h, high, low := v / 16, v % 16 / 4, v % 16 % 4;
    PairsOfBits(h / 2, h % 2, high / 2, high % 2, low / 2, low % 2, m);
    assert v == 16 * h + 4 * high + low;
    assert v / 2 == 16 * (h / 2) + (8 * (h % 2) + 4 * (high / 2) + 2 * (high % 2) + low / 2);
  }

  /** v - ((v >> 1) & 0x5555...) */
  lemma {:induction false} CountPairs(v: nat, k: nat)
    requires v <= Repeat(15, k)
    ensures And(v / 2, Repeat(5, k)) + InPairs(v) == v
    decreases k
  {
    hide And, Popc;
    if v == 0 {
      AndNone(Repeat(5, k));
    } else {
      CountPairs(v / 16, k - 1);
      PairsOfDigit(v, Repeat(5, k - 1));
    }
  }

  lemma DigitOfPairs(h: nat, p: nat, q: nat, m: nat)
    requires p < 4 && q < 4
    ensures And(16 * h + (4 * p + q), 16 * m + 3) == 16 * And(h, m) + q
    ensures And((16 * h + (4 * p + q)) / 4, 16 * m + 3) == 16 * And(h / 4, m) + p
  {
    hide And;
    var x, y := 4 * p + q, 4 * (h % 4) + p;
    AndDigit(h, x, m, 3);
    AndMasks(x);
    AndDigit(h / 4, y, m, 3);
    AndMasks(y);
    assert (16 * h + x) / 4 == 16 * (h / 4) + y;
  }

  /** (v & 0x3333...) + ((v >> 2) & 0x3333...) */
  lemma {:induction false} CountDigits(v: nat, k: nat)
    requires v <= Repeat(15, k)
    ensures And(InPairs(v), Repeat(3, k)) + And(InPairs(v) / 4, Repeat(3, k)) == InDigits(v)
    decreases k
  {
    hide And, Popc;
    if v == 0 {
      AndNone(Repeat(3, k));
    } else {
      var d := v % 16;
      CountDigits(v / 16, k - 1);
      PopcPair(0, d / 4);
      PopcPair(0, d % 4);
      PopcDigit(0, d);
      DigitOfPairs(InPairs(v / 16), Popc(d / 4), Popc(d % 4), Repeat(3, k - 1));
      InPairsFront(v);
    }
  }

  lemma InPairsFront(v: nat)
    ensures InPairs(v) == 16 * InPairs(v / 16) + 4 * Popc(v % 16 / 4) + Popc(v % 16 % 4)
  {
    hide Popc;
    PopcNone();
  }

  /** A byte of the sum of neighbouring digits, and what the mask leaves of it. */
  lemma ByteOfDigits(h: nat, p: nat, q: nat, m: nat)
    requires p <= 4 && q <= 4 && h % 16 <= 4
    ensures var s := 256 * h + 16 * p + q;
            And(s + s / 16, 256 * m + 15) == 256 * And(h + h / 16, m) + (p + q)
  {
    hide And;
    var s, x := 256 * h + 16 * p + q, h % 16 + p;
    assert s + s / 16 == 16 * (16 * (h + h / 16) + x) + (p + q);
    AndDigit(16 * (h + h / 16) + x, p + q, 16 * m, 15);
    AndDigit(h + h / 16, x, m, 0);
    AndMasks(p + q);
    AndMasks(x);
  }

  /** Two digits for every one: 0x0f0f... */
  function RepeatByte(k: nat): nat {
    if k == 0 then 0 else 256 * RepeatByte(k - 1) + 15
  }

  lemma BytesRepeated()
    ensures RepeatByte(8) == 0x0f0f_0f0f_0f0f_0f0f
  {
    var k := 4;
    assert RepeatByte(k) == 0x0f0f_0f0f;
    assert RepeatByte(k + 2) == 0x1_0000 * RepeatByte(k) + 0x0f0f;
    assert RepeatByte(k + 4) == 0x1_0000 * RepeatByte(k + 2) + 0x0f0f;
  }

  lemma InDigitsFront(v: nat)
    ensures InDigits(v) == 16 * InDigits(v / 16) + Popc(v % 16) && InDigits(v) % 16 == Popc(v % 16) <= 4
  {
    InDigitsIs(v);
    LowDigit(InDigits(v / 16), Popc(v % 16));
  }

  lemma InDigitsIs(v: nat)
    ensures InDigits(v) == 16 * InDigits(v / 16) + Popc(v % 16) && Popc(v % 16) <= 4
  {
    hide Popc;
    PopcNone();
    PopcDigit(0, v % 16);
  }

  lemma LowDigit(h: nat, d: nat)
    requires d < 16
    ensures (16 * h + d) % 16 == d && (16 * h + d) / 16 == h
  {
  }

  /** (v + (v >> 4)) & 0x0f0f... */
  lemma {:induction false} CountBytes(v: nat, k: nat)
    requires v <= Repeat(15, 2 * k)
    ensures And(InDigits(v) + InDigits(v) / 16, RepeatByte(k)) == InBytes(v)
    decreases k
  {
    hide And, Popc, InDigits;
    if v == 0 {
      InDigitsFront(v);
      AndNone(RepeatByte(k));
    } else {
      var h, p, q := v / 256, v / 16 % 16, v % 16;
      TwoDigits(v);
      RepeatTwo(2 * k - 2);
      CountBytes(h, k - 1);
      InDigitsFront(v);
      InDigitsFront(v / 16);
      InDigitsFront(h);
      PopcDigit(p, q);
      ByteOfDigits(InDigits(h), Popc(p), Popc(q), RepeatByte(k - 1));
    }
  }

  lemma TwoDigits(v: nat)
    ensures v / 16 / 16 == v / 256 && v % 256 == 16 * (v / 16 % 16) + v % 16
  {
  }

  lemma RepeatTwo(k: nat)
    ensures Repeat(15, k + 2) == 256 * Repeat(15, k) + 255
  {
    assert Repeat(15, k + 2) == 16 * Repeat(15, k + 1) + 15;
  }

  lemma {:induction false} DigitsBounded(v: nat, k: nat)
    requires v <= Repeat(15, k)
    ensures InDigits(v) <= Repeat(4, k)
    decreases k
  {
    hide Popc;
    if v != 0 {
      DigitsBounded(v / 16, k - 1);
      PopcDigit(0, v % 16);
    }
  }

  /** Multiplying by 0x0101... adds up all bytes in the highest one, if no sum outgrows a byte. */
  lemma HighestByte(a: nat, b: nat, c: nat, d: nat, e: nat, f: nat, g: nat, h: nat, w: nat)
    requires a <= 8 && b <= 8 && c <= 8 && d <= 8 && e <= 8 && f <= 8 && g <= 8 && h <= 8
    requires w == a + 0x100 * (b + 0x100 * (c + 0x100 * (d + 0x100 * (e + 0x100 * (f + 0x100 * (g + 0x100 * h))))))
    ensures w * 0x0101_0101_0101_0101 % WORD / 0x100_0000_0000_0000 == a + b + c + d + e + f + g + h
  {
    var s2, s3, s4, s5, s6, s7 :=
          a + b, a + b + c, a + b + c + d, a + b + c + d + e, a + b + c + d + e + f, a + b + c + d + e + f + g;
    var low := a + 0x100 * (s2 + 0x100 * (s3 + 0x100 * (s4 + 0x100 * (s5 + 0x100 * (s6 + 0x100 * s7)))));
    var high := (b + c + d + e + f + g + h)
      + 0x100 * ((c + d + e + f + g + h) + 0x100 * ((d + e + f + g + h) + 0x100 * ((e + f + g + h)
      + 0x100 * ((f + g + h) + 0x100 * ((g + h) + 0x100 * h)))));
    assert w * 0x0101_0101_0101_0101 == WORD * high + 0x100_0000_0000_0000 * (s7 + h) + low;
    TakeHighest(high, s7 + h, low);
  }

  lemma TakeHighest(high: nat, sum: nat, low: nat)
    requires sum < 0x100 && low < 0x100_0000_0000_0000
    ensures (WORD * high + 0x100_0000_0000_0000 * sum + low) % WORD / 0x100_0000_0000_0000 == sum
  {
    TakeLow(high, 0x100_0000_0000_0000 * sum + low);
    TakeTop(sum, low);
    assert WORD * high + 0x100_0000_0000_0000 * sum + low == WORD * high + (0x100_0000_0000_0000 * sum + low);
  }

  lemma TakeLow(high: nat, rest: nat)
    requires rest < WORD
    ensures (WORD * high + rest) % WORD == rest
  {
  }

  lemma TakeTop(sum: nat, low: nat)
    requires low < 0x100_0000_0000_0000
    ensures (0x100_0000_0000_0000 * sum + low) / 0x100_0000_0000_0000 == sum
  {
  }

  lemma PopcByte(h: nat, p: nat, q: nat)
    requires p < 16 && q < 16
    ensures Popc(256 * h + (16 * p + q)) == Popc(16 * p + q) + Popc(h) && Popc(16 * p + q) <= 8
  {
    hide Popc;
    PopcDigit(p, q);
    PopcDigit(16 * h + p, q);
    PopcDigit(h, p);
    PopcDigit(0, p);
    assert 256 * h + (16 * p + q) == 16 * (16 * h + p) + q;
  }

  lemma InBytesFront(v: nat)
    ensures InBytes(v) == Popc(v % 256) + 0x100 * InBytes(v / 256)
    ensures Popc(v) == Popc(v % 256) + Popc(v / 256) && Popc(v % 256) <= 8
  {
    hide Popc;
    PopcNone();
    var b := v % 256;
    PopcByte(v / 256, b / 16, b % 16);
  }

  lemma AddUp(v: nat)
    requires v < WORD
    ensures InBytes(v) * 0x0101_0101_0101_0101 % WORD / 0x100_0000_0000_0000 == Popc(v)
  {
    hide Popc, InBytes;
    var v1 := v / 0x100;
    var v2 := v1 / 0x100;
    var v3 := v2 / 0x100;
    var v4 := v3 / 0x100;
    var v5 := v4 / 0x100;
    var v6 := v5 / 0x100;
    var v7 := v6 / 0x100;
    InBytesFront(v);
    InBytesFront(v1);
    InBytesFront(v2);
    InBytesFront(v3);
    InBytesFront(v4);
    InBytesFront(v5);
    InBytesFront(v6);
    InBytesFront(v7);
    assert v7 / 0x100 == 0;
    NoBytes();
    HighestByte(Popc(v % 256), Popc(v1 % 256), Popc(v2 % 256), Popc(v3 % 256), Popc(v4 % 256), Popc(v5 % 256),
                Popc(v6 % 256), Popc(v7 % 256),
                InBytes(v));
  }

  lemma NoBytes()
    ensures InBytes(0) == 0 == Popc(0)
  {
  }

  /** lfs_popc64, with the wrap-around of every operation: it counts the ones. */
  function Popc64(v: nat): (count: nat)
    requires v < WORD
    ensures count == Popc(v)
  {
    hide And, Popc;
    FieldsAreCounted(v);
    var pairs := (v + WORD - And(v / 2, 0x5555_5555_5555_5555)) % WORD;
    var digits := (And(pairs, 0x3333_3333_3333_3333) + And(pairs / 4, 0x3333_3333_3333_3333)) % WORD;
    And((digits + digits / 16) % WORD, 0x0f0f_0f0f_0f0f_0f0f) * 0x0101_0101_0101_0101 % WORD / 0x100_0000_0000_0000
  }

  lemma FieldsAreCounted(v: nat)
    requires v < WORD
    ensures (v + WORD - And(v / 2, 0x5555_5555_5555_5555)) % WORD == InPairs(v)
    ensures (And(InPairs(v), 0x3333_3333_3333_3333) + And(InPairs(v) / 4, 0x3333_3333_3333_3333)) % WORD == InDigits(v)
    ensures And((InDigits(v) + InDigits(v) / 16) % WORD,
                0x0f0f_0f0f_0f0f_0f0f) * 0x0101_0101_0101_0101 % WORD / 0x100_0000_0000_0000 == Popc(v)
  {
    hide And, Popc, InPairs, InDigits, InBytes, Repeat, RepeatByte;
    Repeated(3);
    Repeated(4);
    Repeated(5);
    Repeated(15);
    BytesRepeated();
    CountPairs(v, 16);
    CountDigits(v, 16);
    DigitsBounded(v, 16);
    CountBytes(v, 8);
    AddUp(v);
    assert InPairs(v) < WORD && InDigits(v) + InDigits(v) / 16 < WORD;
    assert v + WORD - And(v / 2, 0x5555_5555_5555_5555) == WORD + InPairs(v);
  }
}
