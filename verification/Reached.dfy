/**
 What the allocator must not hand out: lfs_fs_rawtraverse reports every block that the file system still needs, those of
 the metadata pairs, those of the files in them, and those of files that are being written.
 */
module Reached {
  import opened Options
  import opened Words
  import opened Device
  import opened Tags
  import opened TagLog
  import opened RawLog
  import opened Fetch
  import opened Commit
  import opened Pairs
  import opened Attributes
  import Lookup
  import opened GlobalState
  import opened Mounting
  import FetchMatch
  import Find
  import opened CtzIndex
  import opened CtzList
  import CowFile
  import opened Allocator

  /**
   What looking up the struct of a file yields: nothing, data in the entry, a skip-list, or the pair of a directory.
   */
  datatype Struct = Nothing | Inline | Ctz(head: nat, size: nat) | SubDir(pair: (nat, nat))

  /** A metadata pair on the list of tails, with the structs of its files. */
  datatype Node = Node(pair: (nat, nat), structs: seq<Struct>)

  /**
   An entry on the list of what is open: the file as it is, and as it will be once what is being written is flushed.
   */
  datatype Opened = Opened(regular: bool, dirty: bool, writing: bool, inline: bool, head: nat, size: nat, block: nat,
                         pos: nat)

  /** What the entry that a lookup finds says: the tag tells which of them it is, and the data is padded with zeros. */
  function StructOf(e: Option<Entry>): Struct {
    match e
    case None => Nothing
    case Some(x) =>
      var s := Padded(x.data);
      if x.tag.kind == TYPE_CTZSTRUCT then Ctz(FromLE64(s[..8]), FromLE64(s[8..]))
      else if x.tag.kind == TYPE_DIRSTRUCT then SubDir((FromLE64(s[..8]), FromLE64(s[8..])))
      else Inline
  }

  /** What lfs_file_rawsync and lfs_dir_rawcreate write, both numbers with their lowest byte first, is what is found. */
  lemma StructIsRead(a: address, b: address, id: nat)
    ensures StructOf(Some(Entry(Tag(TYPE_CTZSTRUCT, id, CTZ_SIZE), ToLE(a, 8) + ToLE(b, 8)))) == Ctz(a, b)
    ensures StructOf(Some(Entry(Tag(TYPE_DIRSTRUCT, id, CTZ_SIZE), ToLE(a, 8) + ToLE(b, 8)))) == SubDir((a, b))
    ensures StructOf(Some(Entry(Tag(TYPE_INLINESTRUCT, id, CTZ_SIZE), ToLE(a, 8) + ToLE(b, 8)))) == Inline
  {
    hide ToLE, FromLE;
    var data := ToLE(a, 8) + ToLE(b, 8);
    assert Padded(data) == data;
    assert data[..8] == ToLE(a, 8) && data[8..] == ToLE(b, 8);
    EightBytesFit();
    LERoundTrip(a, 8);
    LERoundTrip(b, 8);
  }

  // sizeof(lfs_ctz_t)
  const CTZ_SIZE: nat := 16

  function Padded(data: seq<byte>): (s: seq<byte>)
    ensures |s| == CTZ_SIZE
  {
    Lookup.Slice(data, 0, CTZ_SIZE)
  }

  /** The structs of the files that users see in a pair; what is asked for beyond them is nothing. */
  function StructsOf(d: Dir, count: nat): (structs: seq<Struct>)
    ensures |structs| == count
    ensures forall id :: 0 <= id < count ==> structs[id] == StructOf(TagLog.Lookup(d, But8, TYPE_DIRSTRUCT, id))
  {
    seq(count, id requires 0 <= id < count => StructOf(TagLog.Lookup(d, But8, TYPE_DIRSTRUCT, id)))
  }

  /** A pair of which all structs can be looked up. */
  ghost predicate Readable(disk: Disk, a: seq<byte>, gdisk: Gstate) {
    && |a| == PAIR_SIZE && a in disk && disk[a].Valid() && Active(disk[a]).Some?
    && var log := LogOf(disk[a]);
    && Robust(log) && WellFormed(ViewLog(log)) && Lookup.CreatesAreEmpty(log)
    && (HasMoveHere(gdisk, Find.PairAt(a)) ==>
          |Replay(ViewLog(log)).slots| + Deletes(ViewLog(log)) < NO_ID)
  }

  /** A pair on the list, with what its users see. */
  ghost function NodeAt(disk: Disk, a: seq<byte>, gdisk: Gstate): Node
    requires Readable(disk, a, gdisk)
  {
    var d := Replay(ViewLog(LogOf(disk[a])));
    Node(Find.PairAt(a),
         StructsOf(TagLog.Seen(d, HasMoveHere(gdisk, Find.PairAt(a)), IdOf(gdisk.tag)), |d.slots|))
  }

  ghost predicate AreReadable(disk: Disk, list: seq<seq<byte>>, gdisk: Gstate) {
    forall k :: 0 <= k < |list| ==> Readable(disk, list[k], gdisk)
  }

  ghost function NodesAt(disk: Disk, list: seq<seq<byte>>, gdisk: Gstate): (nodes: seq<Node>)
    requires AreReadable(disk, list, gdisk)
    ensures |nodes| == |list|
    ensures forall k :: 0 <= k < |list| ==> Readable(disk, list[k], gdisk) && nodes[k] == NodeAt(disk, list[k], gdisk)
  {
    seq(|list|, k requires 0 <= k < |list| => NodeAt(disk, list[k], gdisk))
  }

  /** The blocks that each skip-list consists of. */
  type Chains = map<(nat, nat), seq<nat>>

  ghost predicate IsFile(blockSize: nat, blocks: seq<seq<byte>>, chains: Chains, head: nat, size: nat) {
    && (head, size) in chains
    && Covers(blockSize, blocks, chains[(head, size)], size)
    && (size > 0 ==> head == chains[(head, size)][BlockOf(blockSize, size - 1)])
  }

  ghost function FileBlocks(blockSize: nat, blocks: seq<seq<byte>>, chains: Chains, head: nat, size: nat): set<nat>
    requires IsFile(blockSize, blocks, chains, head, size)
  {
    if size == 0 then {} else set i: nat | i <= BlockOf(blockSize, size - 1) :: chains[(head, size)][i]
  }

  ghost predicate Known(blockSize: nat, blocks: seq<seq<byte>>, chains: Chains, s: Struct) {
    s.Ctz? ==> IsFile(blockSize, blocks, chains, s.head, s.size)
  }

  ghost function InStruct(blockSize: nat, blocks: seq<seq<byte>>, chains: Chains, s: Struct, orphans: bool): set<nat>
    requires Known(blockSize, blocks, chains, s)
  {
    match s
    case Ctz(head, size) => FileBlocks(blockSize, blocks, chains, head, size)
    case SubDir(pair) => if orphans then {pair.0, pair.1} else {}
    case _ => {}
  }

  ghost predicate AllKnown(blockSize: nat, blocks: seq<seq<byte>>, chains: Chains, structs: seq<Struct>) {
    forall k :: 0 <= k < |structs| ==> Known(blockSize, blocks, chains, structs[k])
  }

  ghost function InStructs(blockSize: nat, blocks: seq<seq<byte>>, chains: Chains, structs: seq<Struct>,
                           orphans: bool): set<nat>
    requires AllKnown(blockSize, blocks, chains, structs)
  {
    set k, b | 0 <= k < |structs| && b in InStruct(blockSize, blocks, chains, structs[k], orphans) :: b
  }

  ghost predicate NodesKnown(blockSize: nat, blocks: seq<seq<byte>>, chains: Chains, nodes: seq<Node>) {
    forall n :: 0 <= n < |nodes| ==> AllKnown(blockSize, blocks, chains, nodes[n].structs)
  }

  ghost function InNode(blockSize: nat, blocks: seq<seq<byte>>, chains: Chains, n: Node, orphans: bool): set<nat>
    requires AllKnown(blockSize, blocks, chains, n.structs)
  {
    {n.pair.0, n.pair.1} + InStructs(blockSize, blocks, chains, n.structs, orphans)
  }

  ghost function InNodes(blockSize: nat, blocks: seq<seq<byte>>, chains: Chains, nodes: seq<Node>,
                         orphans: bool): set<nat>
    requires NodesKnown(blockSize, blocks, chains, nodes)
  {
    set n, b | 0 <= n < |nodes| && b in InNode(blockSize, blocks, chains, nodes[n], orphans) :: b
  }

  ghost predicate EntryKnown(blockSize: nat, blocks: seq<seq<byte>>, chains: Chains, e: Opened) {
    e.regular && !e.inline ==>
      && (e.dirty ==> IsFile(blockSize, blocks, chains, e.head, e.size))
      && (e.writing ==> IsFile(blockSize, blocks, chains, e.block, e.pos))
  }

  /** The file as its directory entry does not say yet, and the chain that is being written. */
  ghost function InEntry(blockSize: nat, blocks: seq<seq<byte>>, chains: Chains, e: Opened): set<nat>
    requires EntryKnown(blockSize, blocks, chains, e)
  {
    if !e.regular || e.inline then {}
    else
      (if e.dirty then FileBlocks(blockSize, blocks, chains, e.head, e.size) else {})
      + (if e.writing then FileBlocks(blockSize, blocks, chains, e.block, e.pos) else {})
  }

  ghost predicate EntriesKnown(blockSize: nat, blocks: seq<seq<byte>>, chains: Chains, list: seq<Opened>) {
    forall k :: 0 <= k < |list| ==> EntryKnown(blockSize, blocks, chains, list[k])
  }

  ghost function InEntries(blockSize: nat, blocks: seq<seq<byte>>, chains: Chains, list: seq<Opened>): set<nat>
    requires EntriesKnown(blockSize, blocks, chains, list)
  {
    set k, b | 0 <= k < |list| && b in InEntry(blockSize, blocks, chains, list[k]) :: b
  }

  // ---------- visiting ----------

  lemma BlocksConcat(a: seq<nat>, b: seq<nat>)
    ensures Blocks(a + b) == Blocks(a) + Blocks(b)
  {
  }

  /** A traversal of a skip-list visits its blocks and no others. */
  lemma VisitedBlocks(chain: seq<nat>, index: nat, visited: seq<nat>)
    requires index < |chain| && InOrder(chain, VisitOrder(index), visited)
    ensures Blocks(visited) == set i: nat | i <= index :: chain[i]
  {
    hide VisitOrder;
    var order := VisitOrder(index);
    forall i: nat | i <= index
      ensures chain[i] in visited
    {
      VisitsEach(index, i);
      var k :| 0 <= k < |order| && order[k] == i;
      assert visited[k] == chain[i];
    }
    forall b | b in visited
      ensures exists i: nat :: i <= index && chain[i] == b
    {
      var k :| 0 <= k < |visited| && visited[k] == b;
      VisitsEach(index, order[k]);
      assert order[k] in multiset(order);
    }
  }

  method ReportFile(dev: BlockDevice, head: nat, size: nat, ghost chains: Chains) returns (visited: seq<nat>)
    requires dev.Valid() && IsFile(dev.blockSize, dev.blocks, chains, head, size)
    ensures Blocks(visited) == FileBlocks(dev.blockSize, dev.blocks, chains, head, size)
  {
    hide VisitOrder, InOrder, BlockOf;
    visited := CtzList.Traverse(dev, head, size, chains[(head, size)]);
    if size > 0 {
      VisitedBlocks(chains[(head, size)], BlockOf(dev.blockSize, size - 1), visited);
    }
  }

  method ReportStruct(dev: BlockDevice, s: Struct, orphans: bool, ghost chains: Chains) returns (visited: seq<nat>)
    requires dev.Valid() && Known(dev.blockSize, dev.blocks, chains, s)
    ensures Blocks(visited) == InStruct(dev.blockSize, dev.blocks, chains, s, orphans)
  {
    hide FileBlocks, IsFile;
    visited := [];
    match s
    case Ctz(head, size) =>
      visited := ReportFile(dev, head, size, chains);
    case SubDir(pair) =>
      if orphans {
        visited := [pair.0, pair.1];
      }
    case _ =>
  }

  /** The lookup of the struct of one file. */
  method ReadStruct(block: seq<byte>, dir: Mdir, id: nat, moveHere: bool, moveTag: word, ghost log: seq<Raw>)
    returns (s: Struct)
    requires Holds(block, log) && dir.offset == End(log) && dir.etag == LastLink(log)
    requires WellFormed(ViewLog(log)) && Lookup.CreatesAreEmpty(log)
    requires id < |Replay(ViewLog(log)).slots| < NO_ID
    requires moveHere ==> |Replay(ViewLog(log)).slots| + Deletes(ViewLog(log)) < NO_ID
    ensures s == StructOf(TagLog.Lookup(TagLog.Seen(Replay(ViewLog(log)), moveHere, IdOf(moveTag)), But8,
                                        TYPE_DIRSTRUCT, id))
  {
    hide TagLog.Lookup, TagLog.Seen, Replay, WellFormed, Holds, Lookup.Slice, FromLE64, Lookup.CreatesAreEmpty, Pack,
         TypeOf, SizeOf, IdOf, Unpack;
    var gtag := Pack(Tag(TYPE_DIRSTRUCT, id, CTZ_SIZE));
    Find.TagFields(TYPE_DIRSTRUCT, id, CTZ_SIZE);
    StructInReach(ViewLog(log), gtag, moveHere, moveTag);
    var r := Lookup.Get(block, dir.offset, dir.etag, MASK_CLASS, gtag, moveHere, moveTag, log);
    if r.Found? {
      var kind := TypeOf(r.tag);
      KindOfTag(r.tag);
      if kind == TYPE_CTZSTRUCT {
        s := Ctz(FromLE64(r.buffer[..8]), FromLE64(r.buffer[8..]));
      } else if kind == TYPE_DIRSTRUCT {
        s := SubDir((FromLE64(r.buffer[..8]), FromLE64(r.buffer[8..])));
      } else {
        s := Inline;
      }
    } else {
      s := Nothing;
    }
  }

  lemma KindOfTag(w: word)
    ensures Unpack(w).kind == TypeOf(w)
  {
  }

  lemma StructInReach(log: seq<TagLog.Entry>, gtag: word, moveHere: bool, moveTag: word)
    requires WellFormed(log) && IdOf(gtag) < |Replay(log).slots|
    requires moveHere ==> |Replay(log).slots| + Deletes(log) < NO_ID
    ensures InReach(log, Lookup.WantedId(gtag, moveHere, moveTag))
  {
    hide IdOf, Replay, WellFormed;
  }

  /** One round of lfs_fs_rawtraverse: both blocks of a pair, and what the files in it consist of. */
  method ReportNode(dev: BlockDevice, disk: Disk, a: seq<byte>, gdisk: Gstate, orphans: bool, ghost chains: Chains)
    returns (visited: seq<nat>, dir: Option<Mdir>)
    requires dev.Valid() && Readable(disk, a, gdisk)
    requires AllKnown(dev.blockSize, dev.blocks, chains, NodeAt(disk, a, gdisk).structs)
    ensures dir == FetchedDir(disk[a]) && dir.Some?
    ensures Blocks(visited) == InNode(dev.blockSize, dev.blocks, chains, NodeAt(disk, a, gdisk), orphans)
  {
    hide *;
    ghost var n := NodeAt(disk, a, gdisk);
    ghost var log := ReadableParts(disk, a, gdisk);
    var pair := Find.PairAt(a);
    visited := [pair.0, pair.1];
    // iterate through ids in directory
    var best;
    dir, best := FetchPair(disk[a], None);
    FetchedParts(disk[a], dir);
    CountsAll(disk[a], dir, log);
    NoStructs(dev.blockSize, dev.blocks, chains, n, orphans);
    var id := 0;
    while id < dir.value.state.count
      invariant 0 <= id <= |n.structs| && AllKnown(dev.blockSize, dev.blocks, chains, n.structs[..id])
      invariant Blocks(visited) ==
                {n.pair.0, n.pair.1} + InStructs(dev.blockSize, dev.blocks, chains, n.structs[..id], orphans)
    {
      MoreStructs(dev.blockSize, dev.blocks, chains, n.structs, id, orphans);
      var s := ReadStruct(disk[a].Block(dir.value.active), dir.value, id, HasMoveHere(gdisk, pair), gdisk.tag, log);
      var more := ReportStruct(dev, s, orphans, chains);
      BlocksConcat(visited, more);
      visited, id := visited + more, id + 1;
    }
    assert n.structs[..|n.structs|] == n.structs;
    NodeIs(dev.blockSize, dev.blocks, chains, n, orphans);
  }

  lemma ReadableParts(disk: Disk, a: seq<byte>, gdisk: Gstate) returns (log: seq<Raw>)
    requires Readable(disk, a, gdisk)
    ensures |a| == PAIR_SIZE && a in disk && disk[a].Valid() && Active(disk[a]).Some? && log == LogOf(disk[a])
    ensures Robust(log) && WellFormed(ViewLog(log)) && Lookup.CreatesAreEmpty(log)
    ensures HasMoveHere(gdisk, Find.PairAt(a)) ==> |Replay(ViewLog(log)).slots| + Deletes(ViewLog(log)) < NO_ID
    ensures var n, d := NodeAt(disk, a, gdisk), Replay(ViewLog(log));
            && n.pair == Find.PairAt(a) && |n.structs| == |d.slots| < NO_ID
            && forall id :: 0 <= id < |n.structs| ==>
                 n.structs[id] == StructOf(TagLog.Lookup(TagLog.Seen(d, HasMoveHere(gdisk, n.pair), IdOf(gdisk.tag)),
                                                         But8, TYPE_DIRSTRUCT, id))
  {
    hide Robust, WellFormed, Lookup.CreatesAreEmpty, HasMoveHere, FromLE64, TagLog.Lookup, StructOf;
    log := LogOf(disk[a]);
  }

  lemma CountsAll(p: Pair, dir: Option<Mdir>, log: seq<Raw>)
    requires p.Valid() && Active(p).Some? && dir == FetchedDir(p) && dir.Some? && log == LogOf(p)
    requires Robust(log) && WellFormed(ViewLog(log))
    ensures dir.value.state.count == |Replay(ViewLog(log)).slots|
  {
    hide Fetched, Robust, WellFormed, StateOf, RawLog.Encode, RevisionOf, LastLink, Erased, Active;
    var i := Active(p).value;
    FetchMatch.ActiveIsBlock(p);
    FetchedIsLongest(p.Block(i), log);
    BlockIsDir(i, p.Block(i));
    FetchMatch.CountIsReplay(log);
  }

  lemma NoStructs(blockSize: nat, blocks: seq<seq<byte>>, chains: Chains, n: Node, orphans: bool)
    requires AllKnown(blockSize, blocks, chains, n.structs)
    ensures AllKnown(blockSize, blocks, chains, n.structs[..0])
    ensures Blocks([n.pair.0, n.pair.1])
         == {n.pair.0, n.pair.1} + InStructs(blockSize, blocks, chains, n.structs[..0], orphans)
  {
  }

  lemma NodeIs(blockSize: nat, blocks: seq<seq<byte>>, chains: Chains, n: Node, orphans: bool)
    requires AllKnown(blockSize, blocks, chains, n.structs)
    ensures InNode(blockSize, blocks, chains, n, orphans)
         == {n.pair.0, n.pair.1} + InStructs(blockSize, blocks, chains, n.structs, orphans)
  {
  }

  lemma MoreStructs(blockSize: nat, blocks: seq<seq<byte>>, chains: Chains, structs: seq<Struct>, k: nat, orphans: bool)
    requires AllKnown(blockSize, blocks, chains, structs) && k < |structs|
    ensures AllKnown(blockSize, blocks, chains, structs[..k + 1]) && AllKnown(blockSize, blocks, chains, structs[..k])
    ensures Known(blockSize, blocks, chains, structs[k])
    ensures InStructs(blockSize, blocks, chains, structs[..k + 1], orphans)
         == InStructs(blockSize, blocks, chains, structs[..k], orphans)
            + InStruct(blockSize, blocks, chains, structs[k], orphans)
  {
    hide InStruct, Known;
    assert structs[..k + 1] == structs[..k] + [structs[k]];
  }

  lemma MoreNodes(blockSize: nat, blocks: seq<seq<byte>>, chains: Chains, nodes: seq<Node>, k: nat, orphans: bool)
    requires NodesKnown(blockSize, blocks, chains, nodes) && k < |nodes|
    ensures NodesKnown(blockSize, blocks, chains, nodes[..k + 1]) && NodesKnown(blockSize, blocks, chains, nodes[..k])
    ensures AllKnown(blockSize, blocks, chains, nodes[k].structs)
    ensures InNodes(blockSize, blocks, chains, nodes[..k + 1], orphans)
         == InNodes(blockSize, blocks, chains, nodes[..k], orphans) + InNode(blockSize, blocks, chains, nodes[k],
                                                                             orphans)
  {
    hide InNode, AllKnown;
    assert nodes[..k + 1] == nodes[..k] + [nodes[k]];
  }

  lemma MoreEntries(blockSize: nat, blocks: seq<seq<byte>>, chains: Chains, list: seq<Opened>, k: nat)
    requires EntriesKnown(blockSize, blocks, chains, list) && k < |list|
    ensures InEntries(blockSize, blocks, chains, list[..k + 1])
         == InEntries(blockSize, blocks, chains, list[..k]) + InEntry(blockSize, blocks, chains, list[k])
  {
    hide InEntry, EntryKnown;
    assert list[..k + 1] == list[..k] + [list[k]];
  }

  method ReportEntry(dev: BlockDevice, e: Opened, ghost chains: Chains) returns (visited: seq<nat>)
    requires dev.Valid() && EntryKnown(dev.blockSize, dev.blocks, chains, e)
    ensures Blocks(visited) == InEntry(dev.blockSize, dev.blocks, chains, e)
  {
    hide FileBlocks, IsFile;
    visited := [];
    if e.regular && e.dirty && !e.inline {
      visited := ReportFile(dev, e.head, e.size, chains);
    }
    if e.regular && e.writing && !e.inline {
      var more := ReportFile(dev, e.block, e.pos, chains);
      BlocksConcat(visited, more);
      visited := visited + more;
    }
  }

  /** The structs and open files, and the chains that they consist of, from where they begin. */
  ghost predicate AllThere(blockSize: nat, blocks: seq<seq<byte>>, disk: Disk, gdisk: Gstate, addresses: seq<seq<byte>>,
                           list: seq<Opened>, chains: Chains) {
    && AreReadable(disk, addresses, gdisk)
    && NodesKnown(blockSize, blocks, chains, NodesAt(disk, addresses, gdisk))
    && EntriesKnown(blockSize, blocks, chains, list)
  }

  /** The first part of lfs_fs_rawtraverse: the pairs on the list of tails, and the files in them. */
  method ReportPairs(dev: BlockDevice, disk: Disk, gdisk: Gstate, orphans: bool, ghost addresses: seq<seq<byte>>,
                     ghost last: seq<byte>, ghost chains: Chains)
    returns (ok: bool, visited: seq<nat>)
    requires dev.Valid() && IsWalk(disk, addresses, last, |dev.blocks|) && AreReadable(disk, addresses, gdisk)
    requires NodesKnown(dev.blockSize, dev.blocks, chains, NodesAt(disk, addresses, gdisk))
    ensures ok <==> IsNullPair(last)
    ensures ok ==>
              Blocks(visited) == InNodes(dev.blockSize, dev.blocks, chains, NodesAt(disk, addresses, gdisk), orphans)
  {
    hide *;
    ghost var nodes := NodesAt(disk, addresses, gdisk);
    var tail, cycle := FIRST_PAIR, 0;
    ghost var k: nat, rest := 0, addresses;
    ok, visited := true, [];
    NothingYet(dev.blockSize, dev.blocks, chains, nodes, orphans);
    FirstIsPair();
    WalkParts(disk, addresses, last, |dev.blocks|);
    assert addresses[k..] == addresses;
    // iterate over metadata pairs
    while !IsNullPair(tail)
      invariant k <= |addresses| && rest == addresses[k..] && cycle == k <= |dev.blocks| / 2
      invariant |tail| == PAIR_SIZE && IsList(disk, tail, rest, last)
      invariant NodesKnown(dev.blockSize, dev.blocks, chains, nodes[..k])
      invariant Blocks(visited) == InNodes(dev.blockSize, dev.blocks, chains, nodes[..k], orphans)
      decreases |rest|
    {
      if cycle >= |dev.blocks| / 2 {
        // loop detected
        EndOfList(disk, tail, rest, last);
        ok := false;
        return;
      }
      cycle := cycle + 1;
      EndOfList(disk, tail, rest, last);
      ghost var next := NextOnList(disk, tail, rest, last);
      NextNode(disk, addresses, gdisk, tail, k);
      MoreNodes(dev.blockSize, dev.blocks, chains, nodes, k, orphans);
      var more, dir := ReportNode(dev, disk, tail, gdisk, orphans, chains);
      Leads(disk, tail, next);
      BlocksConcat(visited, more);
      visited := visited + more;
      k, rest := k + 1, rest[1..];
      tail := dir.value.state.tail;
    }
    NullEndsList(disk, tail, rest, last);
    assert nodes[..k] == nodes;
  }

  lemma NothingYet(blockSize: nat, blocks: seq<seq<byte>>, chains: Chains, nodes: seq<Node>, orphans: bool)
    ensures NodesKnown(blockSize, blocks, chains, nodes[..0])
    ensures Blocks([]) == InNodes(blockSize, blocks, chains, nodes[..0], orphans)
  {
  }

  lemma NextNode(disk: Disk, addresses: seq<seq<byte>>, gdisk: Gstate, tail: seq<byte>, k: nat)
    requires AreReadable(disk, addresses, gdisk) && k < |addresses| && tail == addresses[k..][0]
    ensures Readable(disk, tail, gdisk) && NodesAt(disk, addresses, gdisk)[k] == NodeAt(disk, tail, gdisk)
    ensures addresses[k..][1..] == addresses[k + 1..]
  {
    hide Readable;
  }

  /** The second part: files that are open. */
  method ReportOpened(dev: BlockDevice, list: seq<Opened>, ghost chains: Chains) returns (visited: seq<nat>)
    requires dev.Valid() && EntriesKnown(dev.blockSize, dev.blocks, chains, list)
    ensures Blocks(visited) == InEntries(dev.blockSize, dev.blocks, chains, list)
  {
    hide InEntry, EntryKnown;
    visited := [];
    // iterate over any open files
    for k := 0 to |list|
      invariant Blocks(visited) == InEntries(dev.blockSize, dev.blocks, chains, list[..k])
    {
      var more := ReportEntry(dev, list[k], chains);
      BlocksConcat(visited, more);
      MoreEntries(dev.blockSize, dev.blocks, chains, list, k);
      visited := visited + more;
    }
    assert list[..|list|] == list;
  }

  /** All that is in use: the pairs on the list and what users see in them, and what is open. */
  ghost function InUse(blockSize: nat, blocks: seq<seq<byte>>, disk: Disk, gdisk: Gstate, addresses: seq<seq<byte>>,
                       list: seq<Opened>, orphans: bool, chains: Chains): set<nat>
    requires AllThere(blockSize, blocks, disk, gdisk, addresses, list, chains)
  {
    InNodes(blockSize, blocks, chains, NodesAt(disk, addresses, gdisk), orphans)
    + InEntries(blockSize, blocks, chains, list)
  }

  /**
   lfs_fs_rawtraverse: what its callback is called with, if the list of pairs ends soon enough to have no cycle.
   */
  method Report(dev: BlockDevice, disk: Disk, gdisk: Gstate, list: seq<Opened>, orphans: bool,
                ghost addresses: seq<seq<byte>>, ghost last: seq<byte>, ghost chains: Chains)
    returns (ok: bool, visited: seq<nat>)
    requires dev.Valid() && IsWalk(disk, addresses, last, |dev.blocks|)
    requires AllThere(dev.blockSize, dev.blocks, disk, gdisk, addresses, list, chains)
    ensures ok <==> IsNullPair(last)
    ensures ok ==>
              Blocks(visited) == InUse(dev.blockSize, dev.blocks, disk, gdisk, addresses, list, orphans, chains)
  {
    hide IsWalk, AreReadable, NodesKnown, EntriesKnown, InNodes, InEntries;
    ok, visited := ReportPairs(dev, disk, gdisk, orphans, addresses, last, chains);
    if ok {
      var more := ReportOpened(dev, list, chains);
      BlocksConcat(visited, more);
      visited := visited + more;
    }
  }

  // ---------- nothing that is needed is left out ----------

  /** The pointers of a chain leave no choice: there is one way back from a block. */
  lemma {:induction false} ChainIsUnique(blockSize: nat, blocks: seq<seq<byte>>, a: seq<nat>, b: seq<nat>, n: nat)
    requires IsChain(blockSize, blocks, a) && IsChain(blockSize, blocks, b)
    requires n < |a| && n < |b| && a[n] == b[n]
    ensures forall i :: 0 <= i <= n ==> a[i] == b[i]
    decreases n
  {
    if n > 0 {
      assert PointsBack(blockSize, blocks, a, n) && PointsBack(blockSize, blocks, b, n);
      assert Linked(blocks[a[n]], a, n, 0) && Linked(blocks[b[n]], b, n, 0);
      ChainIsUnique(blockSize, blocks, a, b, n - 1);
    }
  }

  /** Whatever chain a file is known by, its blocks are the blocks of the file. */
  lemma ChainIsReported(blockSize: nat, blocks: seq<seq<byte>>, chains: Chains, head: nat, size: nat, chain: seq<nat>)
    requires IsFile(blockSize, blocks, chains, head, size) && 0 < size
    requires Covers(blockSize, blocks, chain, size) && head == chain[BlockOf(blockSize, size - 1)]
    ensures forall i: nat :: i <= BlockOf(blockSize, size - 1) ==>
              chain[i] in FileBlocks(blockSize, blocks, chains, head, size)
  {
    hide BlockOf, IsChain;
    ChainIsUnique(blockSize, blocks, chains[(head, size)], chain, BlockOf(blockSize, size - 1));
  }

  lemma NodeIsIn(blockSize: nat, blocks: seq<seq<byte>>, chains: Chains, nodes: seq<Node>, k: nat, orphans: bool)
    requires NodesKnown(blockSize, blocks, chains, nodes) && k < |nodes|
    ensures AllKnown(blockSize, blocks, chains, nodes[k].structs)
    ensures InNode(blockSize, blocks, chains, nodes[k], orphans) <= InNodes(blockSize, blocks, chains, nodes, orphans)
  {
    hide InNode, AllKnown;
  }

  lemma StructIsIn(blockSize: nat, blocks: seq<seq<byte>>, chains: Chains, n: Node, id: nat, orphans: bool)
    requires AllKnown(blockSize, blocks, chains, n.structs) && id < |n.structs|
    ensures Known(blockSize, blocks, chains, n.structs[id])
    ensures InStruct(blockSize, blocks, chains, n.structs[id], orphans) <= InNode(blockSize, blocks, chains, n, orphans)
  {
    hide InStruct, Known;
  }

  lemma PairIsIn(blockSize: nat, blocks: seq<seq<byte>>, chains: Chains, n: Node, orphans: bool)
    requires AllKnown(blockSize, blocks, chains, n.structs)
    ensures n.pair.0 in InNode(blockSize, blocks, chains, n, orphans)
    ensures n.pair.1 in InNode(blockSize, blocks, chains, n, orphans)
  {
  }

  lemma NodesAreInUse(blockSize: nat, blocks: seq<seq<byte>>, disk: Disk, gdisk: Gstate, addresses: seq<seq<byte>>,
                      list: seq<Opened>, orphans: bool, chains: Chains, k: nat)
    requires AllThere(blockSize, blocks, disk, gdisk, addresses, list, chains) && k < |addresses|
    ensures Readable(disk, addresses[k], gdisk)
    ensures AllKnown(blockSize, blocks, chains, NodeAt(disk, addresses[k], gdisk).structs)
    ensures InNode(blockSize, blocks, chains, NodeAt(disk, addresses[k], gdisk), orphans)
         <= InUse(blockSize, blocks, disk, gdisk, addresses, list, orphans, chains)
  {
    hide InNode, InNodes, InEntries, AllKnown, EntriesKnown, Readable, NodeAt;
    assert NodesAt(disk, addresses, gdisk)[k] == NodeAt(disk, addresses[k], gdisk);
    NodeIsIn(blockSize, blocks, chains, NodesAt(disk, addresses, gdisk), k, orphans);
  }

  /** The blocks of the pairs on the list are in use. */
  lemma PairsAreInUse(blockSize: nat, blocks: seq<seq<byte>>, disk: Disk, gdisk: Gstate, addresses: seq<seq<byte>>,
                      list: seq<Opened>, orphans: bool, chains: Chains, k: nat)
    requires AllThere(blockSize, blocks, disk, gdisk, addresses, list, chains) && k < |addresses|
    ensures |addresses[k]| == PAIR_SIZE
    ensures var pair := Find.PairAt(addresses[k]);
            && pair.0 in InUse(blockSize, blocks, disk, gdisk, addresses, list, orphans, chains)
            && pair.1 in InUse(blockSize, blocks, disk, gdisk, addresses, list, orphans, chains)
  {
    hide *;
    NodesAreInUse(blockSize, blocks, disk, gdisk, addresses, list, orphans, chains, k);
    var log := ReadableParts(disk, addresses[k], gdisk);
    PairIsIn(blockSize, blocks, chains, NodeAt(disk, addresses[k], gdisk), orphans);
  }

  /**
   So are all blocks of a file that users see in one of them, if looking up its struct finds a skip-list, and the pair
   of a directory, if orphans count.
   */
  lemma FilesAreInUse(blockSize: nat, blocks: seq<seq<byte>>, disk: Disk, gdisk: Gstate, addresses: seq<seq<byte>>,
                      list: seq<Opened>, orphans: bool, chains: Chains, k: nat, id: nat, s: Struct, chain: seq<nat>)
    requires AllThere(blockSize, blocks, disk, gdisk, addresses, list, chains) && k < |addresses|
    requires Readable(disk, addresses[k], gdisk) && id < |Replay(ViewLog(LogOf(disk[addresses[k]]))).slots|
    requires var d := TagLog.Seen(Replay(ViewLog(LogOf(disk[addresses[k]]))),
                                  HasMoveHere(gdisk, Find.PairAt(addresses[k])), IdOf(gdisk.tag));
             s == StructOf(TagLog.Lookup(d, But8, TYPE_DIRSTRUCT, id))
    ensures s.SubDir? && orphans ==>
              && s.pair.0 in InUse(blockSize, blocks, disk, gdisk, addresses, list, orphans, chains)
              && s.pair.1 in InUse(blockSize, blocks, disk, gdisk, addresses, list, orphans, chains)
    ensures s.Ctz? && 0 < s.size && Covers(blockSize, blocks, chain, s.size)
            && s.head == chain[BlockOf(blockSize, s.size - 1)] ==>
              forall i: nat :: i <= BlockOf(blockSize, s.size - 1) ==>
                chain[i] in InUse(blockSize, blocks, disk, gdisk, addresses, list, orphans, chains)
  {
    hide *;
    NodesAreInUse(blockSize, blocks, disk, gdisk, addresses, list, orphans, chains, k);
    var log := ReadableParts(disk, addresses[k], gdisk);
    var n := NodeAt(disk, addresses[k], gdisk);
    assert n.structs[id] == s;
    StructIsIn(blockSize, blocks, chains, n, id, orphans);
    StructBlocks(blockSize, blocks, chains, s, orphans, chain);
  }

  lemma StructBlocks(blockSize: nat, blocks: seq<seq<byte>>, chains: Chains, s: Struct, orphans: bool, chain: seq<nat>)
    requires Known(blockSize, blocks, chains, s)
    ensures s.SubDir? && orphans ==>
              && s.pair.0 in InStruct(blockSize, blocks, chains, s, orphans)
              && s.pair.1 in InStruct(blockSize, blocks, chains, s, orphans)
    ensures s.Ctz? && 0 < s.size && Covers(blockSize, blocks, chain, s.size)
            && s.head == chain[BlockOf(blockSize, s.size - 1)] ==>
              forall i: nat :: i <= BlockOf(blockSize, s.size - 1) ==>
                chain[i] in InStruct(blockSize, blocks, chains, s, orphans)
  {
    hide BlockOf, IsChain;
    if s.Ctz? && 0 < s.size && Covers(blockSize, blocks, chain, s.size)
       && s.head == chain[BlockOf(blockSize, s.size - 1)] {
      ChainIsReported(blockSize, blocks, chains, s.head, s.size, chain);
    }
  }

  /** What the list of open files says of a file. */
  function OpenedAs(s: CowFile.State): Opened {
    Opened(true, s.dirty, s.writing, false, s.head, s.size, s.block, s.pos)
  }

  /**
   A file that is open is safe: the chain that is being written is in use, and so is the one that the file had before as
   long as its directory entry does not refer to it. Otherwise that is one that the directory refers to.
   */
  lemma OpenFileIsInUse(blockSize: nat, blocks: seq<seq<byte>>, disk: Disk, gdisk: Gstate, addresses: seq<seq<byte>>,
                        list: seq<Opened>, orphans: bool, chains: Chains, k: nat, s: CowFile.State)
    requires AllThere(blockSize, blocks, disk, gdisk, addresses, list, chains)
    requires CowFile.Sound(blockSize, blocks, s) && k < |list| && list[k] == OpenedAs(s)
    ensures s.writing ==>
              forall i :: 0 <= i < |s.branch| ==>
                s.branch[i] in InUse(blockSize, blocks, disk, gdisk, addresses, list, orphans, chains)
    ensures s.dirty && 0 < s.size ==>
              && BlockOf(blockSize, s.size - 1) < |s.chain|
              && forall i: nat :: i <= BlockOf(blockSize, s.size - 1) ==>
                   s.chain[i] in InUse(blockSize, blocks, disk, gdisk, addresses, list, orphans, chains)
    ensures !s.dirty ==> forall i :: 0 <= i < |s.chain| ==> s.chain[i] in s.kept
  {
    hide NodesKnown, InNodes, AreReadable, BlockOf, IsChain, FileBlocks, IsFile, Content;
    assert EntryKnown(blockSize, blocks, chains, list[k]);
    EntryIsIn(blockSize, blocks, chains, list, k);
    if s.writing {
      ChainIsReported(blockSize, blocks, chains, s.block, s.pos, s.branch);
    }
    if s.dirty && 0 < s.size {
      ChainIsReported(blockSize, blocks, chains, s.head, s.size, s.chain);
    }
  }

  /** One of the blocks that a file of that head and size consists of. */
  ghost predicate IsBlockOf(blockSize: nat, blocks: seq<seq<byte>>, chains: Chains, head: nat, size: nat, b: nat) {
    && IsFile(blockSize, blocks, chains, head, size) && 0 < size
    && exists i: nat :: i <= BlockOf(blockSize, size - 1) && chains[(head, size)][i] == b
  }

  /** Why a pair on the list needs a block: it consists of it, or one of its files or, if orphans count, directories. */
  ghost predicate NodeNeeds(blockSize: nat, blocks: seq<seq<byte>>, chains: Chains, n: Node, orphans: bool, b: nat) {
    || b == n.pair.0
    || b == n.pair.1
    || exists id :: 0 <= id < |n.structs| && (
        var s := n.structs[id];
        || (s.Ctz? && IsBlockOf(blockSize, blocks, chains, s.head, s.size, b))
        || (orphans && s.SubDir? && (b == s.pair.0 || b == s.pair.1)))
  }

  /** Why an open file needs a block: its directory entry does not say so yet, or it is being written. */
  ghost predicate OpenedNeeds(blockSize: nat, blocks: seq<seq<byte>>, chains: Chains, e: Opened, b: nat) {
    && e.regular && !e.inline
    && (|| (e.dirty && IsBlockOf(blockSize, blocks, chains, e.head, e.size, b))
        || (e.writing && IsBlockOf(blockSize, blocks, chains, e.block, e.pos, b)))
  }

  /** Nothing else is in use. */
  lemma OnlyNeededIsInUse(blockSize: nat, blocks: seq<seq<byte>>, disk: Disk, gdisk: Gstate, addresses: seq<seq<byte>>,
                          list: seq<Opened>, orphans: bool, chains: Chains, b: nat)
    requires AllThere(blockSize, blocks, disk, gdisk, addresses, list, chains)
    requires b in InUse(blockSize, blocks, disk, gdisk, addresses, list, orphans, chains)
    ensures || (exists k :: 0 <= k < |addresses|
                            && NodeNeeds(blockSize, blocks, chains, NodesAt(disk, addresses, gdisk)[k], orphans, b))
            || (exists k :: 0 <= k < |list| && OpenedNeeds(blockSize, blocks, chains, list[k], b))
  {
    hide NodeNeeds, OpenedNeeds, InNode, InEntry, Readable, NodeAt, AllKnown, EntryKnown;
    var nodes := NodesAt(disk, addresses, gdisk);
    if b in InNodes(blockSize, blocks, chains, nodes, orphans) {
      var k :| 0 <= k < |nodes| && b in InNode(blockSize, blocks, chains, nodes[k], orphans);
      NodeInUse(blockSize, blocks, chains, nodes[k], orphans, b);
    } else {
      var k :| 0 <= k < |list| && b in InEntry(blockSize, blocks, chains, list[k]);
      OpenedInUse(blockSize, blocks, chains, list[k], b);
    }
  }

  lemma NodeInUse(blockSize: nat, blocks: seq<seq<byte>>, chains: Chains, n: Node, orphans: bool, b: nat)
    requires AllKnown(blockSize, blocks, chains, n.structs) && b in InNode(blockSize, blocks, chains, n, orphans)
    ensures NodeNeeds(blockSize, blocks, chains, n, orphans, b)
  {
    hide IsFile, BlockOf;
    if b != n.pair.0 && b != n.pair.1 {
      var id :| 0 <= id < |n.structs| && b in InStruct(blockSize, blocks, chains, n.structs[id], orphans);
      assert Known(blockSize, blocks, chains, n.structs[id]);
    }
  }

  lemma OpenedInUse(blockSize: nat, blocks: seq<seq<byte>>, chains: Chains, e: Opened, b: nat)
    requires EntryKnown(blockSize, blocks, chains, e) && b in InEntry(blockSize, blocks, chains, e)
    ensures OpenedNeeds(blockSize, blocks, chains, e, b)
  {
    hide BlockOf;
  }

  lemma EntryIsIn(blockSize: nat, blocks: seq<seq<byte>>, chains: Chains, list: seq<Opened>, k: nat)
    requires EntriesKnown(blockSize, blocks, chains, list) && k < |list|
    ensures EntryKnown(blockSize, blocks, chains, list[k])
    ensures InEntry(blockSize, blocks, chains, list[k]) <= InEntries(blockSize, blocks, chains, list)
  {
    hide InEntry, EntryKnown;
  }

  /**
   A block for the file system as it is: never one of a pair on the list, of a directory, of a file in it or of a file
   that is being written, as of when the window was last filled, nor one that was handed out since.
   */
  method NewBlock(l: Lookahead, dev: BlockDevice, disk: Disk, gdisk: Gstate, list: seq<Opened>,
                  ghost addresses: seq<seq<byte>>, ghost last: seq<byte>, ghost chains: Chains)
    returns (r: Outcome)
    requires l.Valid() && dev.Valid() && l.blockCount == |dev.blocks|
    requires IsWalk(disk, addresses, last, |dev.blocks|)
    requires AllThere(dev.blockSize, dev.blocks, disk, gdisk, addresses, list, chains)
    requires forall b :: b in InUse(dev.blockSize, dev.blocks, disk, gdisk, addresses, list, true, chains) ==>
               b < l.blockCount
    modifies l, l.buffer
    ensures l.Valid()
    ensures l.reported == old(l.reported)
         || l.reported == InUse(dev.blockSize, dev.blocks, disk, gdisk, addresses, list, true, chains)
    ensures r.Failed? ==> !IsNullPair(last)
    ensures r.Found? ==> r.block < l.blockCount && r.block !in l.reported && r.block !in old(l.handed)
    ensures r.NoSpace? ==> forall b :: 0 <= b < l.blockCount ==> b in l.handed || b in l.passed
  {
    hide InUse, AllThere, IsWalk;
    var ok, visited := Report(dev, disk, gdisk, list, true, addresses, last, chains);
    if ok {
      forall k | 0 <= k < |visited|
        ensures visited[k] < l.blockCount
      {
        assert visited[k] in Blocks(visited);
      }
    }
    r := l.Alloc(if ok then Some(visited) else None);
  }
}
