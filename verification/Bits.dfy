/** Bitwise operations on natural numbers, and how they act on the fields of a word. */
module Bits {

  function Half(a: nat): nat { a / 2 }

  predicate Odd(a: nat) { a % 2 == 1 }

  function Glue(half: nat, odd: bool): nat { 2 * half + if odd then 1 else 0 }

  function Xor(a: nat, b: nat): nat
    decreases a + b
  {
    if a == 0 && b == 0 then 0 else Glue(Xor(Half(a), Half(b)), Odd(a) != Odd(b))
  }

  function And(a: nat, b: nat): nat
    decreases a
  {
    if a == 0 then 0 else Glue(And(Half(a), Half(b)), Odd(a) && Odd(b))
  }

  /** The n lowest bits of lo, below hi. */
  function Put(n: nat, hi: nat, lo: nat): nat {
    if n == 0 then hi else Glue(Put(n - 1, hi, Half(lo)), Odd(lo))
  }

  lemma GlueParts(half: nat, odd: bool)
    ensures Half(Glue(half, odd)) == half && Odd(Glue(half, odd)) == odd
  {
  }

  lemma SameParts(a: nat, b: nat)
    requires Half(a) == Half(b) && Odd(a) == Odd(b)
    ensures a == b
  {
  }

  lemma PartsGlue(a: nat)
    ensures Glue(Half(a), Odd(a)) == a
  {
  }

  lemma XorParts(a: nat, b: nat)
    ensures Half(Xor(a, b)) == Xor(Half(a), Half(b)) && Odd(Xor(a, b)) == (Odd(a) != Odd(b))
  {
    if a != 0 || b != 0 {
      GlueParts(Xor(Half(a), Half(b)), Odd(a) != Odd(b));
    }
  }

  lemma AndParts(a: nat, b: nat)
    ensures Half(And(a, b)) == And(Half(a), Half(b)) && Odd(And(a, b)) == (Odd(a) && Odd(b))
  {
    if a != 0 {
      GlueParts(And(Half(a), Half(b)), Odd(a) && Odd(b));
    }
  }

  lemma {:induction false} XorCommutes(a: nat, b: nat)
    ensures Xor(a, b) == Xor(b, a)
    decreases a + b
  {
    if a != 0 || b != 0 {
      XorCommutes(Half(a), Half(b));
    }
  }

  lemma {:induction false} XorZero(a: nat)
    ensures Xor(a, 0) == a
    decreases a
  {
    if a != 0 {
      XorZero(Half(a));
      PartsGlue(a);
    }
  }

  lemma {:induction false} XorSelf(a: nat)
    ensures Xor(a, a) == 0
    decreases a
  {
    if a != 0 {
      XorSelf(Half(a));
    }
  }

  lemma {:induction false} XorAssociates(a: nat, b: nat, c: nat)
    ensures Xor(Xor(a, b), c) == Xor(a, Xor(b, c))
    decreases a + b + c
  {
    if a != 0 || b != 0 || c != 0 {
      XorAssociates(Half(a), Half(b), Half(c));
      XorParts(a, b);
      XorParts(b, c);
      XorParts(Xor(a, b), c);
      XorParts(a, Xor(b, c));
      SameParts(Xor(Xor(a, b), c), Xor(a, Xor(b, c)));
    }
  }

  /** Xoring twice with the same word gives back the first one. */
  lemma XorBack(a: nat, b: nat)
    ensures Xor(Xor(a, b), b) == a
  {
    XorAssociates(a, b, b);
    XorSelf(b);
    XorZero(a);
  }

  lemma XorCancels(a: nat, b: nat, c: nat)
    requires Xor(a, c) == Xor(b, c)
    ensures a == b
  {
    XorBack(a, c);
    XorBack(b, c);
  }

  lemma XorSwaps(a: nat, b: nat, c: nat)
    ensures Xor(Xor(a, b), c) == Xor(Xor(a, c), b)
  {
    XorAssociates(a, b, c);
    XorCommutes(b, c);
    XorAssociates(a, c, b);
  }

  // ---------- words in fields ----------

  lemma PutParts(n: nat, hi: nat, lo: nat)
    requires n > 0
    ensures Half(Put(n, hi, lo)) == Put(n - 1, hi, Half(lo)) && Odd(Put(n, hi, lo)) == Odd(lo)
  {
    GlueParts(Put(n - 1, hi, Half(lo)), Odd(lo));
  }

  /** The bits of a word split at any place can be xored apart. */
  lemma {:induction false} XorPut(n: nat, hi: nat, lo: nat, hi': nat, lo': nat)
    ensures Xor(Put(n, hi, lo), Put(n, hi', lo')) == Put(n, Xor(hi, hi'), Xor(lo, lo'))
    decreases n
  {
    if n != 0 {
      PutParts(n, hi, lo);
      PutParts(n, hi', lo');
      XorPut(n - 1, hi, Half(lo), hi', Half(lo'));
      XorParts(lo, lo');
      PutParts(n, Xor(hi, hi'), Xor(lo, lo'));
      XorParts(Put(n, hi, lo), Put(n, hi', lo'));
      SameParts(Xor(Put(n, hi, lo), Put(n, hi', lo')), Put(n, Xor(hi, hi'), Xor(lo, lo')));
    }
  }

  /** The bits of a word split at any place can be masked apart. */
  lemma {:induction false} AndPut(n: nat, hi: nat, lo: nat, hi': nat, lo': nat)
    ensures And(Put(n, hi, lo), Put(n, hi', lo')) == Put(n, And(hi, hi'), And(lo, lo'))
    decreases n
  {
    if n != 0 {
      PutParts(n, hi, lo);
      PutParts(n, hi', lo');
      AndPut(n - 1, hi, Half(lo), hi', Half(lo'));
      AndParts(lo, lo');
      PutParts(n, And(hi, hi'), And(lo, lo'));
      AndParts(Put(n, hi, lo), Put(n, hi', lo'));
      SameParts(And(Put(n, hi, lo), Put(n, hi', lo')), Put(n, And(hi, hi'), And(lo, lo')));
    }
  }

  function Pow2(n: nat): (p: nat)
    ensures p > 0
  {
    if n == 0 then 1 else 2 * Pow2(n - 1)
  }

  lemma {:induction false} Pow2Adds(m: nat, k: nat)
    ensures Pow2(m + k) == Pow2(m) * Pow2(k)
    decreases m
  {
    if m != 0 {
      Pow2Adds(m - 1, k);
      var p, q := Pow2(m - 1), Pow2(k);
      assert 2 * p * q == 2 * (p * q);
    }
  }

  lemma {:induction false} PutIsSum(n: nat, hi: nat, lo: nat)
    requires lo < Pow2(n)
    ensures Put(n, hi, lo) == hi * Pow2(n) + lo
    decreases n
  {
    if n != 0 {
      PutIsSum(n - 1, hi, Half(lo));
      GlueSum(hi, Pow2(n - 1), lo);
    }
  }

  lemma GlueSum(hi: nat, p: nat, lo: nat)
    ensures Glue(hi * p + Half(lo), Odd(lo)) == hi * (2 * p) + lo
  {
    var q := hi * p;
    assert hi * (2 * p) == 2 * q;
    PartsGlue(lo);
  }

  lemma {:induction false} PutBack(n: nat, lo: nat)
    requires lo < Pow2(n)
    ensures Put(n, 0, lo) == lo
  {
    PutIsSum(n, 0, lo);
  }

  lemma {:induction false} PutLow(n: nat, lo: nat)
    ensures Put(n, 0, lo) < Pow2(n)
    decreases n
  {
    if n != 0 {
      PutLow(n - 1, Half(lo));
    }
  }

  lemma XorBound(n: nat, a: nat, b: nat)
    requires a < Pow2(n) && b < Pow2(n)
    ensures Xor(a, b) < Pow2(n)
  {
    PutBack(n, a);
    PutBack(n, b);
    XorPut(n, 0, a, 0, b);
    PutLow(n, Xor(a, b));
  }

  lemma AndZero(w: nat)
    ensures And(0, w) == 0
  {
  }

  /** A mask of ones keeps everything below it. */
  lemma {:induction false} AndOnes(n: nat, w: nat)
    requires w < Pow2(n)
    ensures And(Pow2(n) - 1, w) == w
    decreases n
  {
    if n != 0 {
      assert Half(Pow2(n) - 1) == Pow2(n - 1) - 1 && Odd(Pow2(n) - 1);
      AndOnes(n - 1, Half(w));
      PartsGlue(w);
    }
  }
}
