/**
 Global state kept by xor: every pair stores a delta, and the xor of all of them is the state on disk. Commits,
 compactions, splits and drops change deltas so that this stays so, up to the count of orphans.
 */
module GlobalState {
  import Bits
  import opened Options
  import opened Words
  import opened Tags
  import opened TagLog
  import opened RawLog
  import opened Lookup
  import opened Fetch
  import opened Attributes
  import opened CompactedLog

  type address = a: nat | a < 0x1_0000_0000_0000_0000

  /** lfs_gstate_t: a move that is under way, and in the low bits of the tag the number of orphans */
  datatype Gstate = Gstate(tag: word, pair0: address, pair1: address)

  const ZERO := Gstate(0, 0, 0)

  // ---------- xor ----------

  lemma AddressSize()
    ensures Bits.Pow2(64) == 0x1_0000_0000_0000_0000
  {
    WordSize();
    Bits.Pow2Adds(32, 32);
  }

  function XorAddress(a: address, b: address): address {
    AddressSize();
    Bits.XorBound(64, a, b);
    Bits.Xor(a, b)
  }

  /** lfs_gstate_xor */
  function Xor(a: Gstate, b: Gstate): Gstate {
    Gstate(XorWord(a.tag, b.tag), XorAddress(a.pair0, b.pair0), XorAddress(a.pair1, b.pair1))
  }

  lemma XorCommutes(a: Gstate, b: Gstate)
    ensures Xor(a, b) == Xor(b, a)
  {
    hide Bits.Xor;
    Bits.XorCommutes(a.tag, b.tag);
    Bits.XorCommutes(a.pair0, b.pair0);
    Bits.XorCommutes(a.pair1, b.pair1);
  }

  lemma XorAssociates(a: Gstate, b: Gstate, c: Gstate)
    ensures Xor(Xor(a, b), c) == Xor(a, Xor(b, c))
  {
    hide Bits.Xor;
    Bits.XorAssociates(a.tag, b.tag, c.tag);
    Bits.XorAssociates(a.pair0, b.pair0, c.pair0);
    Bits.XorAssociates(a.pair1, b.pair1, c.pair1);
  }

  lemma XorSelf(a: Gstate)
    ensures Xor(a, a) == ZERO && Xor(a, ZERO) == a && Xor(ZERO, a) == a
  {
    hide Bits.Xor;
    Bits.XorSelf(a.tag);
    Bits.XorSelf(a.pair0);
    Bits.XorSelf(a.pair1);
    Bits.XorZero(a.tag);
    Bits.XorZero(a.pair0);
    Bits.XorZero(a.pair1);
    Bits.XorCommutes(a.tag, 0);
    Bits.XorCommutes(a.pair0, 0);
    Bits.XorCommutes(a.pair1, 0);
  }

  lemma XorTwice(a: Gstate, b: Gstate)
    ensures Xor(Xor(a, b), b) == a && Xor(b, Xor(b, a)) == a
  {
    hide Xor;
    XorAssociates(a, b, b);
    XorSelf(b);
    XorSelf(a);
    XorCommutes(b, a);
    XorCommutes(b, Xor(a, b));
  }

  /** tag & ~LFS_MKTAG(0, 0, 0x3ff): the count of orphans does not go to disk */
  function Drop(g: Gstate): Gstate {
    g.(tag := g.tag - g.tag % 0x400)
  }

  lemma DropParts(w: word)
    ensures Bits.Put(10, w / 0x400, w % 0x400) == w && Bits.Put(10, w / 0x400, 0) == w - w % 0x400
  {
    assert Bits.Pow2(10) == 0x400;
    Bits.PutIsSum(10, w / 0x400, w % 0x400);
    Bits.PutIsSum(10, w / 0x400, 0);
  }

  lemma DropXorTag(a: word, b: word)
    ensures XorWord(a, b) - XorWord(a, b) % 0x400 == XorWord(a - a % 0x400, b - b % 0x400)
  {
    hide Bits.Xor, Bits.Put;
    DropParts(a);
    DropParts(b);
    Bits.XorPut(10, a / 0x400, a % 0x400, b / 0x400, b % 0x400);
    Bits.XorPut(10, a / 0x400, 0, b / 0x400, 0);
    assert Bits.Pow2(10) == 0x400;
    Bits.XorBound(10, a % 0x400, b % 0x400);
    Bits.XorSelf(0);
    Bits.PutIsSum(10, Bits.Xor(a / 0x400, b / 0x400), Bits.Xor(a % 0x400, b % 0x400));
    Bits.PutIsSum(10, Bits.Xor(a / 0x400, b / 0x400), 0);
  }

  lemma DropXor(a: Gstate, b: Gstate)
    ensures Drop(Xor(a, b)) == Xor(Drop(a), Drop(b))
  {
    hide XorWord, XorAddress;
    DropXorTag(a.tag, b.tag);
  }

  lemma DropTwice(a: Gstate)
    ensures Drop(Drop(a)) == Drop(a) && Drop(ZERO) == ZERO
  {
  }

  // ---------- on disk ----------

  /** The state as it is stored: little-endian, with padding before the addresses. */
  function Encode(g: Gstate): (s: seq<byte>)
    ensures |s| == GSTATE_SIZE
  {
    ToLE32(g.tag) + [0, 0, 0, 0] + ToLE(g.pair0, 8) + ToLE(g.pair1, 8)
  }

  lemma EightBytesFit()
    ensures Pow256(8) == 0x1_0000_0000_0000_0000
  {
    FourBytesFit();
    assert Pow256(6) == 0x1_0000 * Pow256(4);
  }

  function FromLE64(s: seq<byte>): address
    requires |s| == 8
  {
    FromLEFits(s);
    EightBytesFit();
    FromLE(s)
  }

  function Decode(s: seq<byte>): Gstate
    requires |s| == GSTATE_SIZE
  {
    Gstate(FromLE32(s[..4]), FromLE64(s[8..16]), FromLE64(s[16..]))
  }

  lemma NoPadding()
    ensures FromLE([0, 0, 0, 0]) == 0
  {
    var s: seq<byte> := [0, 0, 0, 0];
    assert s[1..][1..][1..][1..] == [];
    assert s[1..][1..][1..][0] == 0 && s[1..][1..][0] == 0;
  }

  /** What is stored is read back, each part from its place. */
  lemma DecodeEncodes(g: Gstate)
    ensures Decode(Encode(g)) == g
    ensures FromLE(Encode(g)[..4]) == g.tag && FromLE(Encode(g)[4..8]) == 0
    ensures FromLE(Encode(g)[8..16]) == g.pair0 && FromLE(Encode(g)[16..]) == g.pair1
  {
    hide ToLE, FromLE;
    var s := Encode(g);
    NoPadding();
    assert s[4..8] == [0, 0, 0, 0];
    assert s[..4] == ToLE32(g.tag) && s[8..16] == ToLE(g.pair0, 8) && s[16..] == ToLE(g.pair1, 8);
    LE32RoundTrip(g.tag);
    EightBytesFit();
    LERoundTrip(g.pair0, 8);
    LERoundTrip(g.pair1, 8);
  }

  /** The delta that a log holds: that of its last entry. */
  function Stored(log: seq<Raw>): Gstate {
    match Live(LastOfType(ViewLog(log), TYPE_MOVESTATE))
    case None => ZERO
    case Some(e) => Decode(Slice(e.data, 0, GSTATE_SIZE))
  }

  // LFS_MKTAG(LFS_TYPE_MOVESTATE, 0, sizeof(lfs_gstate_t))
  const GSTATE_TAG: word := 0x7ff0_0018

  /** lfs_dir_getgstate: xors what a pair stores into a state */
  method GetGstate(block: seq<byte>, dirOffset: nat, etag: word, g: Gstate, ghost log: seq<Raw>) returns (g': Gstate)
    requires Holds(block, log) && dirOffset == End(log) && etag == LastLink(log)
    ensures g' == Xor(g, Stored(log))
  {
    hide Holds, Xor, LastOfType, Decode;
    assert TypeOf(GSTATE_TAG) == TYPE_MOVESTATE && SizeOf(GSTATE_TAG) == GSTATE_SIZE;
    var r := GetAnyId(block, dirOffset, etag, GSTATE_TAG, log);
    XorSelf(g);
    g' := if r.Found? then Xor(g, Decode(r.buffer)) else g;
  }

  lemma LastOfTypeConcat(a: seq<Entry>, b: seq<Entry>, kind: nat)
    ensures LastOfType(a + b, kind) == if LastOfType(b, kind).Some? then LastOfType(b, kind) else LastOfType(a, kind)
    decreases |b|
  {
    if b == [] {
      assert a + b == a;
    } else {
      LastOfTypeConcat(a, b[..|b| - 1], kind);
      assert (a + b)[..|a + b| - 1] == a + b[..|b| - 1];
    }
  }

  /** Entries among which no global state is stored. */
  predicate Stateless(log: seq<Raw>) {
    forall i :: 0 <= i < |log| ==> TypeOf(log[i].tag) != TYPE_MOVESTATE
  }

  lemma {:induction false} StatelessHasNone(log: seq<Raw>)
    requires Stateless(log)
    ensures LastOfType(ViewLog(log), TYPE_MOVESTATE) == None
    decreases |log|
  {
    if log != [] {
      assert ViewLog(log)[..|log| - 1] == ViewLog(log[..|log| - 1]);
      StatelessHasNone(log[..|log| - 1]);
    }
  }

  /** The log of a commit: what was there, entries, the delta if there is one, and a checksum. */
  ghost predicate ExtendsBy(log: seq<Raw>, entries: seq<Raw>, delta: Option<seq<byte>>, log': seq<Raw>)
    requires delta.Some? ==> |delta.value| == GSTATE_SIZE
  {
    && log + entries + DeltaRaws(delta) <= log'
    && |log'| == |log| + |entries| + |DeltaRaws(delta)| + 1 && IsCrc(log'[|log'| - 1].tag)
  }

  lemma DeltaEntry(data: seq<byte>)
    requires |data| == GSTATE_SIZE
    ensures LastOfType(ViewLog(DeltaRaws(Some(data))), TYPE_MOVESTATE)
            == Some(Entry(Tag(TYPE_MOVESTATE, NO_ID, GSTATE_SIZE), data))
    ensures Slice(data, 0, GSTATE_SIZE) == data
  {
    GlobalTag(TYPE_MOVESTATE, GSTATE_SIZE);
    var r := DeltaRaws(Some(data))[0];
    assert ViewLog(DeltaRaws(Some(data))) == [View(r)];
    assert [View(r)][..0] == [];
  }

  lemma SealIsStateless(r: Raw)
    requires IsCrc(r.tag)
    ensures Stateless([r])
  {
    CrcWord(r.tag);
    TopOf(r.tag);
  }

  lemma ViewAppends(a: seq<Raw>, b: seq<Raw>)
    ensures ViewLog(a + b) == ViewLog(a) + ViewLog(b)
  {
  }

  /** After a commit a pair stores the delta that was written, or what it stored before. */
  lemma StoredAfter(log: seq<Raw>, entries: seq<Raw>, delta: Option<seq<byte>>, log': seq<Raw>)
    requires delta.Some? ==> |delta.value| == GSTATE_SIZE
    requires ExtendsBy(log, entries, delta, log') && Stateless(entries)
    ensures Stored(log') == if delta.Some? then Decode(delta.value) else Stored(log)
  {
    hide Decode, LastOfType, DeltaRaws, Slice;
    var deltas, seal := DeltaRaws(delta), [log'[|log'| - 1]];
    assert log' == log + entries + deltas + seal;
    ViewAppends(log + entries + deltas, seal);
    ViewAppends(log + entries, deltas);
    ViewAppends(log, entries);
    SealIsStateless(log'[|log'| - 1]);
    StatelessHasNone(seal);
    StatelessHasNone(entries);
    LastOfTypeConcat(ViewLog(log + entries + deltas), ViewLog(seal), TYPE_MOVESTATE);
    LastOfTypeConcat(ViewLog(log + entries), ViewLog(deltas), TYPE_MOVESTATE);
    LastOfTypeConcat(ViewLog(log), ViewLog(entries), TYPE_MOVESTATE);
    if delta.Some? {
      DeltaEntry(delta.value);
    } else {
      NoDelta();
    }
  }

  lemma NoDelta()
    ensures LastOfType(ViewLog(DeltaRaws(None)), TYPE_MOVESTATE) == None
  {
  }

  // ---------- deltas ----------

  /** The change that a commit has to bring to disk. */
  function Change(gstate: Gstate, gdisk: Gstate, gdelta: Gstate): Gstate {
    Drop(Xor(Xor(gstate, gdisk), gdelta))
  }

  /** What an append stores: nothing if nothing changed. */
  function AppendDelta(change: Gstate, stored: Gstate): (delta: Option<seq<byte>>)
    ensures delta.Some? ==> |delta.value| == GSTATE_SIZE
  {
    if change == ZERO then None else Some(Encode(Xor(change, stored)))
  }

  /** What a compaction stores: nothing if the old delta is cancelled. */
  function CompactDelta(change: Gstate, stored: Gstate): (delta: Option<seq<byte>>)
    ensures delta.Some? ==> |delta.value| == GSTATE_SIZE
  {
    if Xor(change, stored) == ZERO then None else Some(Encode(Xor(change, stored)))
  }

  /** A compaction stores nothing exactly if the change takes back what was stored. */
  lemma CancelledIffSame(change: Gstate, stored: Gstate)
    ensures CompactDelta(change, stored).None? <==> change == stored
  {
    hide Xor;
    XorTwice(change, stored);
    XorSelf(stored);
  }

  lemma AppendStores(log: seq<Raw>, entries: seq<Raw>, change: Gstate, log': seq<Raw>)
    requires ExtendsBy(log, entries, AppendDelta(change, Stored(log)), log') && Stateless(entries)
    ensures Stored(log') == Xor(change, Stored(log))
  {
    hide Encode, Decode, Stored, Xor, ExtendsBy;
    StoredAfter(log, entries, AppendDelta(change, Stored(log)), log');
    DecodeEncodes(Xor(change, Stored(log)));
    XorSelf(Stored(log));
  }

  lemma CompactStores(entries: seq<Raw>, change: Gstate, stored: Gstate, log': seq<Raw>)
    requires ExtendsBy([], entries, CompactDelta(change, stored), log') && Stateless(entries)
    ensures Stored(log') == Xor(change, stored)
  {
    hide Encode, Decode, Xor, ExtendsBy;
    StoredAfter([], entries, CompactDelta(change, stored), log');
    DecodeEncodes(Xor(change, stored));
  }

  // ---------- conservation ----------

  function XorAll(stored: seq<Gstate>): Gstate
    decreases |stored|
  {
    if stored == [] then ZERO else Xor(XorAll(stored[..|stored| - 1]), stored[|stored| - 1])
  }

  lemma {:induction false} XorAllConcat(a: seq<Gstate>, b: seq<Gstate>)
    ensures XorAll(a + b) == Xor(XorAll(a), XorAll(b))
    decreases |b|
  {
    hide Xor;
    if b == [] {
      assert a + b == a;
      XorSelf(XorAll(a));
    } else {
      XorAllConcat(a, b[..|b| - 1]);
      assert (a + b)[..|a + b| - 1] == a + b[..|b| - 1];
      XorAssociates(XorAll(a), XorAll(b[..|b| - 1]), b[|b| - 1]);
    }
  }

  lemma XorAllOne(g: Gstate)
    ensures XorAll([g]) == g
  {
    hide Xor;
    assert [g][..0] == [];
    XorSelf(g);
  }

  /** What is between two parts of a list can be replaced by anything whose xor differs by the same. */
  lemma XorAllReplace(a: seq<Gstate>, b: seq<Gstate>, b': seq<Gstate>, c: seq<Gstate>, change: Gstate)
    requires XorAll(b') == Xor(change, XorAll(b))
    ensures XorAll(a + b' + c) == Xor(change, XorAll(a + b + c))
  {
    hide Xor, XorAll;
    XorAllConcat(a + b, c);
    XorAllConcat(a, b);
    XorAllConcat(a + b', c);
    XorAllConcat(a, b');
    var x, y, z := XorAll(a), XorAll(b), XorAll(c);
    XorAssociates(x, change, y);
    XorCommutes(x, change);
    XorAssociates(change, x, y);
    XorAssociates(change, Xor(x, y), z);
  }

  /** The deltas stored in all pairs add up to the state on disk, and to what still has to be stored. */
  predicate Conserved(stored: seq<Gstate>, gdisk: Gstate, gdelta: Gstate) {
    Drop(XorAll(stored)) == Drop(Xor(gdisk, gdelta))
  }

  /** Storing the change brings the new state to disk. */
  lemma ChangeSettles(all: Gstate, gstate: Gstate, gdisk: Gstate, gdelta: Gstate)
    requires Drop(all) == Drop(Xor(gdisk, gdelta))
    ensures Drop(Xor(Change(gstate, gdisk, gdelta), all)) == Drop(gstate)
  {
    hide Xor, Drop;
    var rest := Xor(gdisk, gdelta);
    DropXor(Change(gstate, gdisk, gdelta), all);
    DropTwice(Xor(Xor(gstate, gdisk), gdelta));
    XorAssociates(gstate, gdisk, gdelta);
    DropXor(gstate, rest);
    XorTwice(Drop(gstate), Drop(rest));
  }

  /** Any number of pairs in a row may be rewritten at once, if together they take up the change. */
  lemma CommitConserves(a: seq<Gstate>, b: seq<Gstate>, b': seq<Gstate>, c: seq<Gstate>, gstate: Gstate, gdisk: Gstate,
                        gdelta: Gstate)
    requires Conserved(a + b + c, gdisk, gdelta)
    requires XorAll(b') == Xor(Change(gstate, gdisk, gdelta), XorAll(b))
    ensures Conserved(a + b' + c, gstate, ZERO)
  {
    hide Xor, Drop, XorAll, Change;
    XorAllReplace(a, b, b', c, Change(gstate, gdisk, gdelta));
    ChangeSettles(XorAll(a + b + c), gstate, gdisk, gdelta);
    XorSelf(gstate);
  }

  /** A dropped pair's delta is kept in memory until the next commit stores it. */
  lemma DropConserves(a: seq<Gstate>, dropped: Gstate, c: seq<Gstate>, gdisk: Gstate, gdelta: Gstate)
    requires Conserved(a + [dropped] + c, gdisk, gdelta)
    ensures Conserved(a + c, gdisk, Xor(gdelta, dropped))
  {
    hide Xor, Drop, XorAll;
    XorAllOne(dropped);
    NothingChanges();
    XorSelf(dropped);
    XorAllReplace(a, [dropped], [], c, dropped);
    assert a + [] + c == a + c;
    var all := XorAll(a + [dropped] + c);
    DropXor(dropped, all);
    DropXor(dropped, Xor(gdisk, gdelta));
    XorCommutes(dropped, Xor(gdisk, gdelta));
    XorAssociates(gdisk, gdelta, dropped);
  }

  lemma NothingChanges()
    ensures XorAll([]) == ZERO
  {
  }

  // ---------- mounting ----------

  /** Mounting counts one more orphan if the tag has its top bit set; what the pairs add up to stays the same. */
  lemma MountSettles(stored: seq<Gstate>, g: Gstate) returns (g': Gstate)
    requires g == XorAll(stored) && forall i :: 0 <= i < |stored| ==> stored[i].tag % 0x400 == 0
    ensures g.tag + 1 < 0x1_0000_0000
    ensures g' == g.(tag := g.tag + if IsValid(g.tag) then 0 else 1)
    ensures Drop(g') == Drop(g) && Conserved(stored, g', ZERO)
    ensures SizeOf(g'.tag) == if IsValid(g.tag) then 0 else 1
  {
    hide Xor, XorAll;
    NoOrphans(stored);
    OneOrphan(g.tag);
    g' := g.(tag := g.tag + if IsValid(g.tag) then 0 else 1);
    XorSelf(g');
  }

  lemma OneOrphan(tag: word)
    requires tag % 0x400 == 0
    ensures tag + 1 < 0x1_0000_0000 && (tag + 1) - (tag + 1) % 0x400 == tag
  {
  }

  /** Pairs store no count of orphans, so their xor has none. */
  lemma {:induction false} NoOrphans(stored: seq<Gstate>)
    requires forall i :: 0 <= i < |stored| ==> stored[i].tag % 0x400 == 0
    ensures XorAll(stored).tag % 0x400 == 0
    decreases |stored|
  {
    if stored != [] {
      hide Xor, Drop;
      var front, g := stored[..|stored| - 1], stored[|stored| - 1];
      NoOrphans(front);
      DropXor(XorAll(front), g);
      Dropped(XorAll(front));
      Dropped(g);
      Dropped(Xor(XorAll(front), g));
    }
  }

  lemma Dropped(g: Gstate)
    ensures g.tag % 0x400 == 0 <==> Drop(g) == g
  {
  }

  // ---------- moves ----------

  /** lfs_fs_prepmove: notes that the file `id` of a pair is being moved away, or that none is */
  function PrepMove(g: Gstate, id: nat, pair: (address, address)): Gstate
    requires id <= NO_ID
  {
    var top := if IsValid(g.tag) then 0 else 0x8000_0000;
    if id == NO_ID then Gstate(top + g.tag % 0x400, 0, 0)
    else Gstate(top + 0x4ff0_0000 + id * 0x400 + g.tag % 0x400, pair.0, pair.1)
  }

  /** lfs_gstate_hasmove: any of the four top bits is set, the one that says there are orphans included */
  predicate HasMove(g: Gstate) { g.tag >= 0x1000_0000 }

  /** lfs_gstate_hasmovehere: the move is out of a pair that has one of these blocks */
  predicate HasMoveHere(g: Gstate, pair: (address, address)) {
    HasMove(g) && (g.pair0 == pair.0 || g.pair1 == pair.1 || g.pair0 == pair.1 || g.pair1 == pair.0)
  }

  /** A pair is known by any of its blocks, in whatever order they are given. */
  lemma MoveHereIffShared(g: Gstate, pair: (address, address))
    ensures HasMoveHere(g, pair) <==> HasMove(g) && !({g.pair0, g.pair1} !! {pair.0, pair.1})
  {
    var a, b := {g.pair0, g.pair1}, {pair.0, pair.1};
    assert a !! b <==> g.pair0 !in b && g.pair1 !in b;
  }

  lemma MoveFields(top: nat, id: nat, orphans: nat)
    requires top <= 1 && id < 0x400 && orphans < 0x400
    ensures IdOf(top * 0x8000_0000 + 0x4ff0_0000 + id * 0x400 + orphans) == id
    ensures TypeOf(top * 0x8000_0000 + 0x4ff0_0000 + id * 0x400 + orphans) == 0x4ff
    ensures SizeOf(top * 0x8000_0000 + 0x4ff0_0000 + id * 0x400 + orphans) == orphans
  {
    var w := top * 0x8000_0000 + 0x4ff0_0000 + id * 0x400 + orphans;
    assert w == (top * 0x800 + 0x4ff) * 0x10_0000 + id * 0x400 + orphans;
    Fields(w, top * 0x800 + 0x4ff, id, orphans);
    IdBelowKind(top * 0x800 + 0x4ff, id);
  }

  /** A move that was noted is seen, with its file and its pair. */
  lemma PrepMoveSets(g: Gstate, id: nat, pair: (address, address))
    requires id < NO_ID
    ensures HasMoveHere(PrepMove(g, id, pair), pair) && IdOf(PrepMove(g, id, pair).tag) == id
    ensures TypeOf(PrepMove(g, id, pair).tag) == TYPE_DELETE
    ensures PrepMove(g, id, pair).pair0 == pair.0 && PrepMove(g, id, pair).pair1 == pair.1
    ensures IsValid(PrepMove(g, id, pair).tag) <==> IsValid(g.tag)
    ensures SizeOf(PrepMove(g, id, pair).tag) == SizeOf(g.tag)
  {
    MoveFields(if IsValid(g.tag) then 0 else 1, id, g.tag % 0x400);
  }

  /** Noting that there is none only helps if there are no orphans: their bit passes for a move. */
  lemma PrepMoveClears(g: Gstate, pair: (address, address))
    ensures HasMove(PrepMove(g, NO_ID, pair)) <==> !IsValid(g.tag)
    ensures IsValid(PrepMove(g, NO_ID, pair).tag) <==> IsValid(g.tag)
    ensures SizeOf(PrepMove(g, NO_ID, pair).tag) == SizeOf(g.tag)
  {
  }

  /** What goes to disk keeps the move. */
  lemma DropKeepsMove(g: Gstate, pair: (address, address))
    ensures HasMove(Drop(g)) == HasMove(g) && HasMoveHere(Drop(g), pair) == HasMoveHere(g, pair)
    ensures IdOf(Drop(g).tag) == IdOf(g.tag)
  {
    var w := g.tag;
    assert w - w % 0x400 == w / 0x400 * 0x400;
    assert (w / 0x400 * 0x400) / 0x400 == w / 0x400;
  }
}
