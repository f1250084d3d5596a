/**
 Where the bytes of a file lie. Block n of a file begins with ctz(n) + 1 pointers to earlier blocks
 (block 0 has none), so the block that holds a byte cannot be found by division alone; lfs_ctz_index
 finds it in closed form, from the number of ones in the block's number.
 */
module CtzIndex {
  import opened Bits
  import opened Popcount

  const PTR_SIZE: nat := 8

  // The block sizes for which one correction is enough whatever the 64-bit size of the file.
  const MIN_BLOCK_SIZE: nat := 544

  const MAX_SIZE: nat := WORD

  // ---------- counting bits ----------

  function Ctz(n: nat): nat
    requires n > 0
  {
    if Odd(n) then 0 else 1 + Ctz(Half(n))
  }

  /** lfs_ctz64 */
  method Ctz64(a: nat) returns (result: nat)
    requires 0 < a < MAX_SIZE
    ensures result == Ctz(a)
  {
    result := 0;
    var rest := a;
    while !Odd(rest)
      invariant rest > 0 && Ctz(a) == result + Ctz(rest)
      decreases rest
    {
      rest := Half(rest);
      result := result + 1;
    }
  }

  lemma HalfOfPred(n: nat)
    requires n > 0
    ensures Odd(n) ==> Half(n - 1) == Half(n) && !Odd(n - 1)
    ensures !Odd(n) ==> Half(n) > 0 && Half(n - 1) == Half(n) - 1 && Odd(n - 1)
  {
  }

  /** Counting up by one clears the trailing ones and sets the bit above them. */
  lemma {:induction false} PopcStep(n: nat)
    requires n > 0
    ensures Popc(n) + Ctz(n) == Popc(n - 1) + 1
    decreases n
  {
    HalfOfPred(n);
    if !Odd(n) {
      PopcStep(Half(n));
    }
  }

  lemma {:induction false} PopcFits(n: nat, k: nat)
    requires n < Pow2(k)
    ensures Popc(n) <= k
    decreases k
  {
    if k > 0 {
      PopcFits(Half(n), k - 1);
    }
  }

  /** The pointers in the first n + 1 blocks. */
  function Pointers(n: nat): nat {
    if n == 0 then 0 else Pointers(n - 1) + Ctz(n) + 1
  }

  lemma {:induction false} PointersClosed(n: nat)
    ensures Pointers(n) + Popc(n) == 2 * n
    decreases n
  {
    if n > 0 {
      PointersClosed(n - 1);
      PopcStep(n);
    }
  }

  // ---------- the layout ----------

  /** The size of the pointers at the head of block n. */
  function HeadSize(n: nat): nat {
    if n == 0 then 0 else PTR_SIZE * (Ctz(n) + 1)
  }

  /** The position of the first byte of block n: what the blocks before it hold. */
  function Start(blockSize: nat, n: nat): int {
    if n == 0 then 0 else Start(blockSize, n - 1) + blockSize - HeadSize(n - 1)
  }

  /** The byte at a position lies in block n, at an offset that counts the pointers. */
  predicate Lies(blockSize: nat, pos: nat, n: nat, offset: int) {
    && Start(blockSize, n) <= pos < Start(blockSize, n + 1)
    && offset == HeadSize(n) + (pos - Start(blockSize, n))
  }

  lemma {:induction false} StartClosed(blockSize: nat, n: nat)
    requires n > 0
    ensures Start(blockSize, n) == (blockSize - 2 * PTR_SIZE) * n + 2 * PTR_SIZE + PTR_SIZE * Popc(n - 1)
    decreases n
  {
    if n == 1 {
      assert Start(blockSize, 0) == 0;
    } else {
      StartClosed(blockSize, n - 1);
      PopcStep(n - 1);
      OneMore(blockSize - 2 * PTR_SIZE, n - 1);
    }
  }

  lemma OneMore(b: int, n: nat)
    ensures b * (n + 1) == b * n + b
  {
  }

  lemma ProductGrows(b: nat, n: nat, m: nat)
    requires n <= m
    ensures b * n <= b * m
  {
  }

  /** Every block of a file that fits has room for more than its pointers. */
  lemma StartGrows(blockSize: nat, n: nat)
    requires MIN_BLOCK_SIZE <= blockSize && n < MAX_SIZE
    ensures Start(blockSize, n) < Start(blockSize, n + 1)
  {
    if n > 0 {
      SixtyFour();
      PopcFits(n, 64);
      PopcFits(n - 1, 64);
      StartClosed(blockSize, n);
      StartClosed(blockSize, n + 1);
      OneMore(blockSize - 2 * PTR_SIZE, n);
    }
  }

  lemma EightBits()
    ensures Pow2(8) == 0x100
  {
  }

  lemma SixtyFour()
    ensures Pow2(64) == MAX_SIZE
  {
    hide Pow2;
    EightBits();
    Pow2Adds(8, 8);
    Pow2Adds(16, 16);
    Pow2Adds(32, 32);
  }

  lemma {:induction false} StartGrowsTo(blockSize: nat, n: nat, m: nat)
    requires MIN_BLOCK_SIZE <= blockSize && n <= m <= MAX_SIZE
    ensures Start(blockSize, n) <= Start(blockSize, m)
    decreases m
  {
    if n < m {
      StartGrowsTo(blockSize, n, m - 1);
      StartGrows(blockSize, m - 1);
    }
  }

  /** Blocks beyond what 64 bits can count begin beyond every position. */
  lemma FarStart(blockSize: nat, n: nat)
    requires MIN_BLOCK_SIZE <= blockSize && n > 0
    ensures n <= Start(blockSize, n)
  {
    hide Start, Popc;
    StartClosed(blockSize, n);
    var b := blockSize - 2 * PTR_SIZE;
    ProductGrows(n, 1, b);
    assert n * b == b * n;
  }

  /** A byte lies in one place only. */
  lemma LiesOnce(blockSize: nat, pos: nat, n: nat, offset: int, n': nat, offset': int)
    requires MIN_BLOCK_SIZE <= blockSize && pos < MAX_SIZE
    requires Lies(blockSize, pos, n, offset) && Lies(blockSize, pos, n', offset')
    ensures n == n' && offset == offset'
  {
    InRange(blockSize, pos, n, offset);
    InRange(blockSize, pos, n', offset');
    if n < n' {
      StartGrowsTo(blockSize, n + 1, n');
    } else if n' < n {
      StartGrowsTo(blockSize, n' + 1, n);
    }
  }

  lemma InRange(blockSize: nat, pos: nat, n: nat, offset: int)
    requires MIN_BLOCK_SIZE <= blockSize && pos < MAX_SIZE && Lies(blockSize, pos, n, offset)
    ensures n < MAX_SIZE
  {
    if n > 0 {
      FarStart(blockSize, n);
    }
  }

  // ---------- lfs_ctz_index ----------

  lemma DivisionIs(x: int, b: nat, q: nat)
    requires 0 < b && 0 <= x && b * q <= x < b * (q + 1)
    ensures x / b == q
  {
    var y := x / b;
    DivisionBounds(x, b);
    OneMore(b, q);
    OneMore(b, y);
    if y < q {
      ProductGrows(b, y + 1, q);
    } else if q < y {
      ProductGrows(b, q + 1, y);
    }
  }

  /** The block that holds a position, by division with one correction. */
  function BlockOf(blockSize: nat, pos: nat): (n: nat)
    requires MIN_BLOCK_SIZE <= blockSize && pos < MAX_SIZE
    ensures Start(blockSize, n) <= pos < Start(blockSize, n + 1)
  {
    var b := blockSize - 2 * PTR_SIZE;
    var i := pos / b;
    Corrected(blockSize, pos, i);
    if i == 0 then 0 else (pos - PTR_SIZE * (Popc(i - 1) + 2)) / b
  }

  lemma EstimateRight(blockSize: nat, pos: nat, i: nat)
    requires MIN_BLOCK_SIZE <= blockSize && 0 < i < MAX_SIZE
    requires var b := blockSize - 2 * PTR_SIZE; b * i + PTR_SIZE * (Popc(i - 1) + 2) <= pos < b * i + b
    ensures var b := blockSize - 2 * PTR_SIZE; (pos - PTR_SIZE * (Popc(i - 1) + 2)) / b == i
    ensures Start(blockSize, i) <= pos < Start(blockSize, i + 1)
  {
    hide Popc, Start;
    var b := blockSize - 2 * PTR_SIZE;
    OneMore(b, i);
    DivisionIs(pos - PTR_SIZE * (Popc(i - 1) + 2), b, i);
    StartClosed(blockSize, i);
    StartClosed(blockSize, i + 1);
  }

  lemma EstimateHigh(blockSize: nat, pos: nat, i: nat)
    requires MIN_BLOCK_SIZE <= blockSize && 0 < i < MAX_SIZE
    requires var b := blockSize - 2 * PTR_SIZE; b * i <= pos < b * i + PTR_SIZE * (Popc(i - 1) + 2)
    ensures PTR_SIZE * (Popc(i - 1) + 2) <= pos
    ensures var b := blockSize - 2 * PTR_SIZE; (pos - PTR_SIZE * (Popc(i - 1) + 2)) / b == i - 1
    ensures Start(blockSize, i - 1) <= pos < Start(blockSize, i)
  {
    hide Popc, Start;
    var b := blockSize - 2 * PTR_SIZE;
    SixtyFour();
    PopcFits(i - 1, 64);
    OneMore(b, i - 1);
    ProductGrows(b, 1, i);
    DivisionIs(pos - PTR_SIZE * (Popc(i - 1) + 2), b, i - 1);
    StartClosed(blockSize, i);
    if i == 1 {
      StartsAtZero(blockSize);
    } else {
      PopcFits(i - 2, 64);
      StartClosed(blockSize, i - 1);
    }
  }

  /** The estimate is the block that holds the position, or the one after it. */
  lemma Corrected(blockSize: nat, pos: nat, i: nat)
    requires MIN_BLOCK_SIZE <= blockSize && pos < MAX_SIZE && i == pos / (blockSize - 2 * PTR_SIZE)
    ensures i == 0 ==> pos < Start(blockSize, 1)
    ensures i > 0 ==> var b := blockSize - 2 * PTR_SIZE;
              && PTR_SIZE * (Popc(i - 1) + 2) <= pos
              && var n := (pos - PTR_SIZE * (Popc(i - 1) + 2)) / b;
              && n >= 0 && Start(blockSize, n) <= pos < Start(blockSize, n + 1)
  {
    hide Popc;
    var b := blockSize - 2 * PTR_SIZE;
    DivisionBounds(pos, b);
    if i == 0 {
      assert Start(blockSize, 1) == blockSize;
    } else {
      hide Start;
      EstimateFits(pos, b, i);
      if b * i + PTR_SIZE * (Popc(i - 1) + 2) <= pos {
        ProductGrows(b, 0, i);
        EstimateRight(blockSize, pos, i);
      } else {
        EstimateHigh(blockSize, pos, i);
      }
    }
  }

  lemma StartsAtZero(blockSize: nat)
    ensures Start(blockSize, 0) == 0
  {
  }

  lemma DivisionBounds(x: nat, b: nat)
    requires b > 0
    ensures b * (x / b) <= x < b * (x / b) + b
  {
  }

  lemma EstimateFits(pos: nat, b: nat, i: nat)
    requires b * i <= pos < MAX_SIZE && b > 0
    ensures i < MAX_SIZE
  {
    ProductGrows(i, 1, b);
  }

  /** The offset in its block of the byte at a position. */
  function OffsetOf(blockSize: nat, pos: nat): (offset: nat)
    requires MIN_BLOCK_SIZE <= blockSize && pos < MAX_SIZE
    ensures Lies(blockSize, pos, BlockOf(blockSize, pos), offset) && offset < blockSize
  {
    var n := BlockOf(blockSize, pos);
    HeadSize(n) + (pos - Start(blockSize, n))
  }

  /** A C int made of a 64-bit number. */
  function ToInt(i: nat): int {
    var w := i % 0x1_0000_0000;
    if w < 0x8000_0000 then w else w - 0x1_0000_0000
  }

  lemma OffsetClosed(blockSize: nat, pos: nat, n: nat)
    requires MIN_BLOCK_SIZE <= blockSize && Start(blockSize, n) <= pos
    ensures HeadSize(n) + (pos - Start(blockSize, n)) == pos - (blockSize - 2 * PTR_SIZE) * n - PTR_SIZE * Popc(n)
  {
    if n > 0 {
      StartClosed(blockSize, n);
      PopcStep(n);
    }
  }

  /** What the division and its correction come to. */
  lemma IndexParts(blockSize: nat, size: nat, i: nat)
    requires MIN_BLOCK_SIZE <= blockSize && size < MAX_SIZE && i == size / (blockSize - 2 * PTR_SIZE)
    ensures var b, n := blockSize - 2 * PTR_SIZE, BlockOf(blockSize, size);
            && i < MAX_SIZE && n < MAX_SIZE
            && (if i == 0 then n == 0 else n == (size - PTR_SIZE * (Popc(i - 1) + 2)) / b)
            && size - b * n - PTR_SIZE * Popc(n) == OffsetOf(blockSize, size)
            && (n == 0 ==> b * n == 0 == Popc(n))
  {
    hide Popc, Start, HeadSize;
    var n := BlockOf(blockSize, size);
    var b := blockSize - 2 * PTR_SIZE;
    DivisionBounds(size, b);
    EstimateFits(size, b, i);
    Corrected(blockSize, size, i);
    OffsetClosed(blockSize, size, n);
    if n == 0 {
      PopcNone();
    } else {
      FarStart(blockSize, n);
    }
  }

  lemma IntOf(n: nat)
    requires n < MAX_SIZE
    ensures ToInt(n) == n <==> n < 0x8000_0000
  {
  }

  /** lfs_ctz_index: it finds the byte, and the number of its block if that fits an int. */
  method Index(blockSize: nat, size: nat) returns (index: int, offset: nat)
    requires MIN_BLOCK_SIZE <= blockSize && size < MAX_SIZE
    ensures index == ToInt(BlockOf(blockSize, size))
    ensures Lies(blockSize, size, BlockOf(blockSize, size), offset)
    ensures index == BlockOf(blockSize, size) <==> BlockOf(blockSize, size) < 0x8000_0000
  {
    hide Popc, Lies, BlockOf, OffsetOf, ToInt;
    var b := blockSize - 2 * PTR_SIZE;
    var i := size / b;
    IndexParts(blockSize, size, i);
    IntOf(BlockOf(blockSize, size));
    if i == 0 {
      return 0, size;
    }
    i := (size - PTR_SIZE * (Popc64(i - 1) + 2)) / b;
    assert i == BlockOf(blockSize, size);
    offset := size - b * i - PTR_SIZE * Popc64(i);
    index := ToInt(i);
  }
}
