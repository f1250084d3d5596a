/** The block device as the rest of the file system sees it: it stores what is programmed. */
module Device {
  import opened Words

  /** The block after some bytes have been programmed from `at` on. */
  function Overlay(block: seq<byte>, at: nat, bytes: seq<byte>): (r: seq<byte>)
    requires at + |bytes| <= |block|
    ensures |r| == |block|
  {
    block[..at] + bytes + block[at + |bytes|..]
  }

  lemma OverlayTwice(block: seq<byte>, at: nat, a: seq<byte>, b: seq<byte>)
    requires at + |a| + |b| <= |block|
    ensures Overlay(Overlay(block, at, a), at + |a|, b) == Overlay(block, at, a + b)
  {
  }

  lemma OverlaySlices(block: seq<byte>, at: nat, bytes: seq<byte>)
    requires at + |bytes| <= |block|
    ensures var r := Overlay(block, at, bytes);
            r[..at] == block[..at] && r[at..at + |bytes|] == bytes && r[at + |bytes|..] == block[at + |bytes|..]
  {
  }

  class BlockDevice {
    const blockSize: nat
    var blocks: seq<seq<byte>>

    ghost predicate Valid()
      reads this
    {
      forall i :: 0 <= i < |blocks| ==> |blocks[i]| == blockSize
    }

    constructor (blockSize: nat, blocks: seq<seq<byte>>)
      requires forall i :: 0 <= i < |blocks| ==> |blocks[i]| == blockSize
      ensures Valid() && this.blockSize == blockSize && this.blocks == blocks
    {
      this.blockSize, this.blocks := blockSize, blocks;
    }

    /** lfs_bd_read */
    method Read(block: nat, offset: nat, size: nat) returns (buffer: seq<byte>)
      requires Valid() && block < |blocks| && offset + size <= blockSize
      ensures buffer == blocks[block][offset..offset + size]
    {
      buffer := blocks[block][offset..offset + size];
    }

    /** lfs_bd_erase: what an erased block holds is not specified */
    method Erase(block: nat, left: seq<byte>)
      requires Valid() && block < |blocks| && |left| == blockSize
      modifies this`blocks
      ensures Valid() && blocks == old(blocks)[block := left]
    {
      blocks := blocks[block := left];
    }

    /** lfs_bd_write */
    method Write(block: nat, offset: nat, buffer: seq<byte>)
      requires Valid() && block < |blocks| && offset + |buffer| <= blockSize
      modifies this`blocks
      ensures Valid()
      ensures blocks == old(blocks)[block := Overlay(old(blocks)[block], offset, buffer)]
    {
      blocks := blocks[block := Overlay(blocks[block], offset, buffer)];
    }
  }
}
