/**
 Mounting: lfs_raw_mount follows the list of tails and puts the global state together from what the pairs on it store.
 */
module Mounting {
  import opened Options
  import opened Words
  import opened Tags
  import opened RawLog
  import opened Fetch
  import opened Commit
  import opened PowerLoss
  import opened Pairs
  import opened Attributes
  import opened GlobalState
  import opened DirCommit

  /** What lies at the addresses of pairs. */
  type Disk = map<seq<byte>, Pair>

  // The pair of blocks 0 and 1, where the list begins.
  const FIRST_PAIR: seq<byte> := [0, 0, 0, 0, 0, 0, 0, 0, 1, 0, 0, 0, 0, 0, 0, 0]

  /** The log that a fetch of a pair finds. */
  ghost function LogOf(p: Pair): seq<Raw>
    requires p.Valid() && Active(p).Some?
  {
    Fetched(p.Block(Active(p).value))
  }

  /** A pair that can be fetched, with the address that it leads to. */
  ghost predicate LeadsTo(disk: Disk, address: seq<byte>, tail: seq<byte>) {
    && |address| == PAIR_SIZE == |tail| && !IsNullPair(address)
    && address in disk && disk[address].Valid() && Active(disk[address]).Some?
    && FetchedDir(disk[address]).value.state.tail == tail
  }

  /** The addresses on the list from one on: each pair leads to the next, and the last one to `last`. */
  ghost predicate IsList(disk: Disk, from: seq<byte>, list: seq<seq<byte>>, last: seq<byte>)
    decreases |list|
  {
    if list == [] then from == last
    else
      && from == list[0]
      && exists tail :: LeadsTo(disk, from, tail) && IsList(disk, tail, list[1..], last)
  }

  /**
   As much of the list as there is to be followed: it ends, or it is already as long as a list without a cycle can be.
   Every disk whose pairs can be fetched has one.
   */
  ghost predicate IsWalk(disk: Disk, list: seq<seq<byte>>, last: seq<byte>, blockCount: nat) {
    && IsList(disk, FIRST_PAIR, list, last) && |last| == PAIR_SIZE && |list| <= blockCount / 2
    && (IsNullPair(last) || |list| == blockCount / 2)
  }

  ghost predicate OnDisk(disk: Disk, list: seq<seq<byte>>) {
    forall i :: 0 <= i < |list| ==> list[i] in disk && disk[list[i]].Valid() && Active(disk[list[i]]).Some?
  }

  ghost function StoredOnList(disk: Disk, list: seq<seq<byte>>): (stored: seq<Gstate>)
    requires OnDisk(disk, list)
    ensures |stored| == |list|
    ensures forall i :: 0 <= i < |list| ==> list[i] in disk && stored[i] == Stored(LogOf(disk[list[i]]))
  {
    seq(|list|, i requires 0 <= i < |list| => Stored(LogOf(disk[list[i]])))
  }

  lemma {:induction false} ListIsOnDisk(disk: Disk, from: seq<byte>, list: seq<seq<byte>>, last: seq<byte>)
    requires IsList(disk, from, list, last)
    ensures OnDisk(disk, list)
    decreases |list|
  {
    if list != [] {
      var tail :| LeadsTo(disk, from, tail) && IsList(disk, tail, list[1..], last);
      ListIsOnDisk(disk, tail, list[1..], last);
      forall i | 0 <= i < |list|
        ensures list[i] in disk && disk[list[i]].Valid() && Active(disk[list[i]]).Some?
      {
        if i > 0 {
          assert list[i] == list[1..][i - 1];
        }
      }
    }
  }

  /**
   The scan of lfs_raw_mount: a list that ends soon enough to have no cycle is followed to its end, and what all its
   pairs store adds up to the state.
   */
  method Mount(disk: Disk, blockCount: nat, ghost list: seq<seq<byte>>, ghost last: seq<byte>)
    returns (ok: bool, gstate: Gstate, gdisk: Gstate)
    requires IsWalk(disk, list, last, blockCount) && OnDisk(disk, list)
    requires forall i :: 0 <= i < |list| ==> StoredOnList(disk, list)[i].tag % 0x400 == 0
    ensures ok <==> IsNullPair(last)
    ensures ok ==> gdisk == gstate && GlobalState.Drop(gstate) == GlobalState.Drop(XorAll(StoredOnList(disk, list)))
    ensures ok ==> SizeOf(gstate.tag) == if IsValid(XorAll(StoredOnList(disk, list)).tag) then 0 else 1
    ensures ok ==> Conserved(StoredOnList(disk, list), gdisk, ZERO)
  {
    hide *;
    FirstIsPair();
    WalkParts(disk, list, last, blockCount);
    gstate, gdisk, ok := ZERO, ZERO, true;
    var tail, cycle := FIRST_PAIR, 0;
    ghost var k: nat, rest := 0, list;
    ghost var stored := StoredOnList(disk, list);
    NothingAdded();
    assert stored[..0] == [];
    while !IsNullPair(tail)
      invariant k <= |list| && rest == list[k..] && cycle == k <= blockCount / 2
      invariant |tail| == PAIR_SIZE && IsList(disk, tail, rest, last) && gstate == XorAll(stored[..k])
      decreases |rest|
    {
      if cycle >= blockCount / 2 {
        // loop detected
        EndOfList(disk, tail, rest, last);
        ok := false;
        return;
      }
      cycle := cycle + 1;
      // fetch next block in tail list
      EndOfList(disk, tail, rest, last);
      ghost var next := NextOnList(disk, tail, rest, last);
      assert tail == list[k] && rest[1..] == list[k + 1..];
      var dir, best := FetchPair(disk[tail], None);
      FetchedParts(disk[tail], dir);
      // has gstate?
      gstate :=
        GetGstate(disk[tail].Block(dir.value.active), dir.value.offset, dir.value.etag, gstate, LogOf(disk[tail]));
      AddsOne(stored, k);
      k, rest := k + 1, rest[1..];
      tail := dir.value.state.tail;
    }
    NullEndsList(disk, tail, rest, last);
    assert stored[..k] == stored;
    ghost var settled := MountSettles(stored, gstate);
    // update littlefs with gstate
    gstate := gstate.(tag := gstate.tag + if IsValid(gstate.tag) then 0 else 1);
    gdisk := gstate;
  }

  lemma FirstIsPair()
    ensures |FIRST_PAIR| == PAIR_SIZE
  {
  }

  lemma WalkParts(disk: Disk, list: seq<seq<byte>>, last: seq<byte>, blockCount: nat)
    requires IsWalk(disk, list, last, blockCount)
    ensures IsList(disk, FIRST_PAIR, list, last) && |last| == PAIR_SIZE && |list| <= blockCount / 2
    ensures IsNullPair(last) || |list| == blockCount / 2
  {
  }

  lemma Leads(disk: Disk, from: seq<byte>, tail: seq<byte>)
    requires LeadsTo(disk, from, tail)
    ensures from in disk && disk[from].Valid() && Active(disk[from]).Some?
    ensures |tail| == PAIR_SIZE && FetchedDir(disk[from]).Some? && FetchedDir(disk[from]).value.state.tail == tail
  {
  }

  lemma NothingAdded()
    ensures XorAll([]) == ZERO
  {
  }

  lemma AddsOne(stored: seq<Gstate>, k: nat)
    requires k < |stored|
    ensures XorAll(stored[..k + 1]) == GlobalState.Xor(XorAll(stored[..k]), stored[k])
  {
    assert stored[..k + 1][..k] == stored[..k];
  }

  lemma NextOnList(disk: Disk, from: seq<byte>, list: seq<seq<byte>>, last: seq<byte>) returns (tail: seq<byte>)
    requires IsList(disk, from, list, last) && list != []
    ensures from == list[0] && LeadsTo(disk, from, tail) && IsList(disk, tail, list[1..], last)
  {
    tail :| LeadsTo(disk, from, tail) && IsList(disk, tail, list[1..], last);
  }

  lemma EndOfList(disk: Disk, from: seq<byte>, list: seq<seq<byte>>, last: seq<byte>)
    requires IsList(disk, from, list, last)
    ensures list == [] ==> from == last
  {
  }

  lemma NullEndsList(disk: Disk, from: seq<byte>, list: seq<seq<byte>>, last: seq<byte>)
    requires IsList(disk, from, list, last) && |from| == PAIR_SIZE && IsNullPair(from)
    ensures list == [] && from == last
  {
  }

  /** Where every pair that is led to can be fetched there is a list to be followed. */
  lemma {:induction false} WalkExists(disk: Disk, from: seq<byte>, most: nat)
    returns (list: seq<seq<byte>>, last: seq<byte>)
    requires |from| == PAIR_SIZE && AllFetch(disk, from)
    ensures IsList(disk, from, list, last) && |last| == PAIR_SIZE && |list| <= most
    ensures IsNullPair(last) || |list| == most
    decreases most
  {
    hide Active, IsNullPair, MdirOf;
    if most == 0 || IsNullPair(from) {
      list, last := [], from;
    } else {
      var tail := FetchedDir(disk[from]).value.state.tail;
      var rest;
      rest, last := WalkExists(disk, tail, most - 1);
      list := [from] + rest;
      assert LeadsTo(disk, from, tail) && list[1..] == rest;
    }
  }

  /** What can be fetched leads to what can be fetched, or nowhere. */
  ghost predicate AllFetch(disk: Disk, from: seq<byte>) {
    && (|from| == PAIR_SIZE && !IsNullPair(from) ==> from in disk)
    && forall a :: a in disk ==>
         && disk[a].Valid() && Active(disk[a]).Some?
         && var tail := FetchedDir(disk[a]).value.state.tail;
         && |tail| == PAIR_SIZE && (IsNullPair(tail) || tail in disk)
  }

  /** What a fetch fills in belongs to the log it found. */
  lemma FetchedParts(p: Pair, dir: Option<Mdir>)
    requires p.Valid() && Active(p).Some? && dir == FetchedDir(p)
    ensures dir.Some? && Active(p) == Some(dir.value.active)
    ensures var block, log := p.Block(dir.value.active), LogOf(p);
            Holds(block, log) && dir.value.offset == End(log) && dir.value.etag == LastLink(log)
  {
    hide Fetched, RawLog.Encode, StateOf, Erased, Holds, Sealed, TailsFit;
    var block := p.Block(Active(p).value);
    FetchedIsLongest(block, Fetched(block));
    CommittedHolds(block, Fetched(block));
  }
}
