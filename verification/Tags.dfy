/**
 The 32-bit tags of the metadata log: a valid bit (clear when valid), an 11-bit type,
 a 10-bit id and a 10-bit size. The log reads and compares them as words under masks;
 everything that reasons about the log does so on their fields.
 */
module Tags {
  import opened Bits
  import opened Words

  // Types, as they stand in bits 30..20 of a tag.
  const TYPE_NAME: nat := 0x000
  const TYPE_REG: nat := 0x001
  const TYPE_DIRSTRUCT: nat := 0x200
  const TYPE_INLINESTRUCT: nat := 0x201
  const TYPE_CTZSTRUCT: nat := 0x202
  const TYPE_SPLICE: nat := 0x400
  const TYPE_CREATE: nat := 0x401
  const TYPE_DELETE: nat := 0x4ff
  const TYPE_CRC: nat := 0x500
  const TYPE_TAIL: nat := 0x600
  const TYPE_GLOBALS: nat := 0x700
  const TYPE_MOVESTATE: nat := 0x7ff

  // An id of all ones: the entry belongs to the pair, not to one of its files.
  const NO_ID: nat := 0x3ff

  // A size of all ones: the entry deletes what it names.
  const SIZE_DELETED: nat := 0x3ff

  datatype Tag = Tag(kind: nat, id: nat, size: nat) {
    predicate Valid() {
      kind < 0x800 && id <= 0x3ff && size <= 0x3ff
    }

    /** lfs_tag_chunk */
    function Chunk(): nat { kind % 0x100 }

    /** lfs_tag_splice: the chunk as a signed byte */
    function Splice(): int {
      if Chunk() < 0x80 then Chunk() else Chunk() - 0x100
    }

    /** lfs_tag_isdelete */
    predicate IsDelete() { size == SIZE_DELETED }

    /** lfs_tag_dsize: the tag itself and the data that follows it */
    function Dsize(): nat { 4 + if IsDelete() then 0 else size }
  }

  // ---------- the same fields on words ----------

  function TypeOf(w: word): nat { w / 0x10_0000 % 0x800 }

  function IdOf(w: word): nat { w / 0x400 % 0x400 }

  function SizeOf(w: word): nat { w % 0x400 }

  /** lfs_tag_isvalid: the top bit is clear */
  predicate IsValid(w: word) { w < 0x8000_0000 }

  /** What is left of a tag when its valid bit is dropped: tag & 0x7fffffff */
  function Clear(w: word): word { w % 0x8000_0000 }

  /** A tag with its valid bit flipped: tag ^ 0x80000000 */
  function Toggle(w: word): word { if IsValid(w) then w + 0x8000_0000 else w - 0x8000_0000 }

  function Unpack(w: word): Tag {
    Tag(TypeOf(w), IdOf(w), SizeOf(w))
  }

  /** LFS_MKTAG */
  function Pack(t: Tag): word
    requires t.Valid()
  {
    t.kind * 0x10_0000 + t.id * 0x400 + t.size
  }

  lemma UnpackValid(w: word)
    ensures Unpack(w).Valid()
  {
  }

  lemma Fields(w: word, kind: nat, id: nat, size: nat)
    requires w == kind * 0x10_0000 + id * 0x400 + size
    requires kind < 0x1000 && id < 0x400 && size < 0x400
    ensures w / 0x10_0000 == kind && w / 0x400 == kind * 0x400 + id && w % 0x400 == size
  {
  }

  lemma PackUnpacks(t: Tag)
    requires t.Valid()
    ensures Unpack(Pack(t)) == t && IsValid(Pack(t))
  {
    Fields(Pack(t), t.kind, t.id, t.size);
    IdBelowKind(t.kind, t.id);
  }

  lemma IdBelowKind(kind: nat, id: nat)
    requires id < 0x400
    ensures (kind * 0x400 + id) % 0x400 == id
  {
  }

  /** A valid word is its fields put together. */
  lemma UnpackPacks(w: word)
    requires IsValid(w)
    ensures Pack(Unpack(w)) == w
  {
    SplitWord(w);
  }

  lemma SplitWord(w: word)
    ensures w == w / 0x10_0000 * 0x10_0000 + IdOf(w) * 0x400 + SizeOf(w)
    ensures w / 0x10_0000 < 0x1000
  {
    var high := w / 0x400;
    assert w == high * 0x400 + w % 0x400;
    assert w / 0x10_0000 == high / 0x400;
    assert high == high / 0x400 * 0x400 + high % 0x400;
  }

  lemma UnpackInjective(w: word, w': word)
    requires IsValid(w) && IsValid(w') && Unpack(w) == Unpack(w')
    ensures w == w'
  {
    UnpackPacks(w);
    UnpackPacks(w');
  }

  lemma TypeApart(v: nat)
    requires v < 0x8000_0000
    ensures (v + 0x8000_0000) / 0x10_0000 == v / 0x10_0000 + 0x800
  {
  }

  lemma IdApart(v: nat)
    requires v < 0x8000_0000
    ensures (v + 0x8000_0000) / 0x400 == v / 0x400 + 0x20_0000
  {
  }

  lemma ModApart(k: nat, x: nat)
    ensures (k + 0x800) % 0x800 == k % 0x800
    ensures (x + 0x20_0000) % 0x400 == x % 0x400
  {
  }

  lemma TopBitApart(v: word)
    requires IsValid(v)
    ensures Unpack(v + 0x8000_0000) == Unpack(v)
  {
    TypeApart(v);
    IdApart(v);
    ModApart(v / 0x10_0000, v / 0x400);
  }

  /** The valid bit is not part of any field. */
  lemma UnpackIgnoresValid(w: word)
    ensures Unpack(Clear(w)) == Unpack(w) == Unpack(Toggle(w))
    ensures Clear(Toggle(w)) == Clear(w)
  {
    hide Unpack;
    TopBitApart(Clear(w));
  }

  /** lfs_tag_isdelete on the word: the size field as a signed number is -1 */
  predicate WordIsDelete(w: word) { w % 0x400 == 0x3ff }

  /** lfs_tag_dsize on the word: adding the delete flag turns a size of all ones into zero */
  function WordDsize(w: word): nat {
    4 + (w + if WordIsDelete(w) then 1 else 0) % 0x400
  }

  lemma DsizeAgrees(w: word)
    ensures WordIsDelete(w) <==> Unpack(w).IsDelete()
    ensures WordDsize(w) == Unpack(w).Dsize()
  {
  }

  lemma XorTops(ta: nat, a: nat, tb: nat, b: nat)
    requires ta <= 1 && tb <= 1 && a < 0x8000_0000 && b < 0x8000_0000
    ensures Xor(a, b) < 0x8000_0000
    ensures Xor(ta * 0x8000_0000 + a, tb * 0x8000_0000 + b) == Xor(ta, tb) * 0x8000_0000 + Xor(a, b)
  {
    hide Xor, Put, Pow2;
    WordSize();
    PutIsSum(31, ta, a);
    PutIsSum(31, tb, b);
    XorPut(31, ta, a, tb, b);
    XorBound(31, a, b);
    PutIsSum(31, Xor(ta, tb), Xor(a, b));
  }

  lemma XorOneBit(a: nat, b: nat)
    requires a <= 1 && b <= 1
    ensures Xor(a, b) == if a == b then 0 else 1
  {
  }

  /** The valid bits of two words are xored like every other bit. */
  lemma XorValid(a: word, b: word)
    ensures IsValid(XorWord(a, b)) <==> (IsValid(a) <==> IsValid(b))
    ensures Clear(XorWord(a, b)) == Xor(Clear(a), Clear(b))
  {
    hide Xor;
    var ta, tb := if IsValid(a) then 0 else 1, if IsValid(b) then 0 else 1;
    XorTops(ta, Clear(a), tb, Clear(b));
    XorOneBit(ta, tb);
  }

  // ---------- classes ----------

  /** lfs_tag_type1(tag) == LFS_TYPE_NAME; like the other classes it fails on a word with its valid bit set */
  predicate IsNameWord(w: word) { w < 0x1000_0000 }

  /** lfs_tag_type1(tag) == LFS_TYPE_SPLICE */
  predicate IsSpliceWord(w: word) { 0x4000_0000 <= w < 0x5000_0000 }

  lemma ClearOfValid(w: word)
    requires IsValid(w)
    ensures Clear(w) == w
  {
  }

  // ---------- masks ----------

  // LFS_MKTAG(LFS_TYPE_MOVESTATE, 0x3ff, 0), LFS_MKTAG(LFS_TYPE_GLOBALS, 0x3ff, 0), LFS_MKTAG(0x780, 0x3ff, 0)
  const MASK_EXACT: word := 0x7fff_fc00
  const MASK_CLASS: word := 0x700f_fc00
  const MASK_NAME: word := 0x780f_fc00

  /** mask & tag */
  function Masked(mask: word, w: word): nat { And(mask, w) }

  /** Fields of 10, 10 and n bits below what is left. */
  function Layers(n: nat, high: nat, low: nat, id: nat, size: nat): nat {
    Put(10, Put(10, Put(n, high, low), id), size)
  }

  lemma MaskLayers(n: nat, mask: nat, high: nat, low: nat, id: nat, size: nat)
    requires size < 0x400 && id < 0x400 && low < Pow2(n)
    ensures And(Layers(n, mask, 0, 0x3ff, 0), Layers(n, high, low, id, size)) == Layers(n, And(mask, high), 0, id, 0)
  {
    assert Pow2(10) == 0x400;
    AndPut(10, Put(10, Put(n, mask, 0), 0x3ff), 0, Put(10, Put(n, high, low), id), size);
    AndPut(10, Put(n, mask, 0), 0x3ff, Put(n, high, low), id);
    AndPut(n, mask, 0, high, low);
    AndOnes(10, id);
  }

  lemma LayersAreSum(n: nat, p: nat, high: nat, low: nat, id: nat, size: nat)
    requires size < 0x400 && id < 0x400 && low < p == Pow2(n)
    ensures Layers(n, high, low, id, size) == (high * p + low) * 0x10_0000 + id * 0x400 + size
  {
    hide Put;
    assert Pow2(10) == 0x400;
    PutIsSum(n, high, low);
    PutIsSum(10, high * p + low, id);
    PutIsSum(10, (high * p + low) * 0x400 + id, size);
  }

  /** Above the masked bits a word only has its valid bit, which no mask keeps. */
  lemma MaskHigh(k: nat, top: nat, high: nat)
    requires high < Pow2(k)
    ensures And(Pow2(k) - 1, Put(k, top, high)) == high
  {
    hide Put, Pow2;
    PutBack(k, Pow2(k) - 1);
    AndPut(k, 0, Pow2(k) - 1, top, high);
    AndOnes(k, high);
    PutBack(k, high);
  }

  lemma TopOfType(top: nat, p: nat, q: nat, high: nat, low: nat)
    requires top <= 1 && p * q == 0x800
    ensures (top * q + high) * p + low == top * 0x800 + (high * p + low)
  {
    assert (top * q + high) * p == top * q * p + high * p;
  }

  /** A word, taken apart where a mask of k type bits above n others ends. */
  lemma WordLayers(n: nat, p: nat, k: nat, q: nat, w: word, high: nat, low: nat) returns (top: nat)
    requires p == Pow2(n) && q == Pow2(k) && p * q == 0x800
    requires TypeOf(w) == high * p + low && low < p && high < q
    ensures Layers(n, Put(k, top, high), low, IdOf(w), SizeOf(w)) == w
  {
    top := if IsValid(w) then 0 else 1;
    SplitWord(w);
    assert w / 0x10_0000 == top * 0x800 + TypeOf(w);
    PutIsSum(k, top, high);
    TopOfType(top, p, q, high, low);
    LayersAreSum(n, p, Put(k, top, high), low, IdOf(w), SizeOf(w));
  }

  /** What a mask of k type bits above n others, and of the id, keeps of a word. */
  lemma MaskKeeps(n: nat, p: nat, k: nat, q: nat, mask: word, w: word, high: nat, low: nat)
    requires p == Pow2(n) && q == Pow2(k) && p * q == 0x800
    requires mask == (q - 1) * p * 0x10_0000 + 0x3ff * 0x400
    requires TypeOf(w) == high * p + low && low < p && high < q
    ensures Masked(mask, w) == high * p * 0x10_0000 + IdOf(w) * 0x400
  {
    hide Put, Pow2, And, Layers, TypeOf;
    var top := WordLayers(n, p, k, q, w, high, low);
    LayersAreSum(n, p, q - 1, 0, 0x3ff, 0);
    MaskLayers(n, q - 1, Put(k, top, high), low, IdOf(w), SizeOf(w));
    MaskHigh(k, top, high);
    LayersAreSum(n, p, high, 0, IdOf(w), 0);
  }

  lemma SameMasked(p: nat, high: nat, id: nat, high': nat, id': nat)
    requires p > 0 && id < 0x400 && id' < 0x400
    ensures high * p * 0x10_0000 + id * 0x400 == high' * p * 0x10_0000 + id' * 0x400 <==> high == high' && id == id'
  {
    if high != high' {
      var a, b := high * p, high' * p;
      assert a != b;
    }
  }

  lemma MaskCompares(n: nat, p: nat, k: nat, q: nat, mask: word, w: word, high: nat, low: nat, w': word, high': nat,
                     low': nat)
    requires p == Pow2(n) && q == Pow2(k) && p * q == 0x800
    requires mask == (q - 1) * p * 0x10_0000 + 0x3ff * 0x400
    requires TypeOf(w) == high * p + low && low < p && high < q
    requires TypeOf(w') == high' * p + low' && low' < p && high' < q
    ensures Masked(mask, w) == Masked(mask, w') <==> high == high' && IdOf(w) == IdOf(w')
  {
    MaskKeeps(n, p, k, q, mask, w, high, low);
    MaskKeeps(n, p, k, q, mask, w', high', low');
    SameMasked(p, high, IdOf(w), high', IdOf(w'));
  }

  lemma ExactMask(w: word, w': word)
    ensures Masked(MASK_EXACT, w) == Masked(MASK_EXACT, w') <==> TypeOf(w) == TypeOf(w') && IdOf(w) == IdOf(w')
  {
    assert Pow2(11) == 0x800;
    MaskCompares(0, 1, 11, 0x800, MASK_EXACT, w, TypeOf(w), 0, w', TypeOf(w'), 0);
  }

  lemma ClassMask(w: word, w': word)
    ensures Masked(MASK_CLASS, w) == Masked(MASK_CLASS, w') <==>
              TypeOf(w) / 0x100 == TypeOf(w') / 0x100 && IdOf(w) == IdOf(w')
  {
    assert Pow2(8) == 0x100 && Pow2(3) == 8;
    MaskCompares(8, 0x100, 3, 8, MASK_CLASS, w, TypeOf(w) / 0x100, TypeOf(w) % 0x100, w', TypeOf(w') / 0x100,
                 TypeOf(w') % 0x100);
  }

  lemma NameMask(w: word, w': word)
    ensures Masked(MASK_NAME, w) == Masked(MASK_NAME, w') <==>
              TypeOf(w) / 0x80 == TypeOf(w') / 0x80 && IdOf(w) == IdOf(w')
  {
    assert Pow2(7) == 0x80 && Pow2(4) == 0x10;
    MaskCompares(7, 0x80, 4, 0x10, MASK_NAME, w, TypeOf(w) / 0x80, TypeOf(w) % 0x80, w', TypeOf(w') / 0x80,
                 TypeOf(w') % 0x80);
  }
}
