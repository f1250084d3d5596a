/**
 The page cache of an open file: writes go to pages in memory, which a flush hands on to the file system. As long as no
 write starts past the end, reads and writes are those of a byte array with a cursor.
 */
module PageCache {
  import opened Options
  import opened Words
  import opened CowFile

  const PAGE_BYTES: nat := 4096

  datatype Page = Page(data: seq<byte>, dirty: bool)

  /** Where to seek from: kSeekSet, kSeekCur, kSeekEnd */
  datatype Whence = FromStart | FromCursor | FromEnd

  lemma PageOf(i: nat)
    ensures i / PAGE_BYTES * PAGE_BYTES <= i < (i / PAGE_BYTES + 1) * PAGE_BYTES
    ensures i == i / PAGE_BYTES * PAGE_BYTES + i % PAGE_BYTES && i % PAGE_BYTES < PAGE_BYTES
  {
  }

  lemma PageIs(p: nat, off: nat)
    requires off < PAGE_BYTES
    ensures (p * PAGE_BYTES + off) / PAGE_BYTES == p && (p * PAGE_BYTES + off) % PAGE_BYTES == off
  {
  }

  /** A page that holds bytes which are not in the file below yet. */
  predicate Touches(p: nat, diskSize: nat, fileSize: nat) {
    diskSize < (p + 1) * PAGE_BYTES && p * PAGE_BYTES < fileSize && diskSize < fileSize
  }

  /** What the user sees at a position. */
  function ByteAt(pages: map<nat, Page>, disk: seq<byte>, i: nat): byte
    requires i / PAGE_BYTES in pages ==> |pages[i / PAGE_BYTES].data| == PAGE_BYTES
  {
    if i / PAGE_BYTES in pages then pages[i / PAGE_BYTES].data[i % PAGE_BYTES]
    else if i < |disk| then disk[i] else 0
  }

  /** The pages are of one size; clean ones agree with the file below; all that is not there yet is in dirty ones. */
  ghost predicate Consistent(pages: map<nat, Page>, disk: seq<byte>, fileSize: nat) {
    && |disk| <= fileSize
    && (forall p :: p in pages ==> |pages[p].data| == PAGE_BYTES)
    && (forall p :: p in pages && pages[p].dirty ==> p * PAGE_BYTES < fileSize)
    && (forall p, off :: p in pages && !pages[p].dirty && 0 <= off < PAGE_BYTES && p * PAGE_BYTES + off < |disk| ==>
          pages[p].data[off] == disk[p * PAGE_BYTES + off])
    && (forall p: nat :: Touches(p, |disk|, fileSize) ==> p in pages && pages[p].dirty)
  }

  /** What the user sees. */
  ghost function Content(pages: map<nat, Page>, disk: seq<byte>, fileSize: nat): (content: seq<byte>)
    requires Consistent(pages, disk, fileSize)
    ensures |content| == fileSize
  {
    seq(fileSize, i requires 0 <= i < fileSize => ByteAt(pages, disk, i))
  }

  // ---------- pages ----------

  /** A page as it is loaded: what the file below has of it, and zeros. */
  function Loaded(disk: seq<byte>, p: nat): (data: seq<byte>)
    ensures |data| == PAGE_BYTES
  {
    seq(PAGE_BYTES, off requires 0 <= off < PAGE_BYTES => if p * PAGE_BYTES + off < |disk|
          then disk[p * PAGE_BYTES + off] else 0)
  }

  /** load_page_if_needed */
  method LoadPage(pages: map<nat, Page>, disk: seq<byte>, p: nat) returns (page: Page)
    ensures page == if p in pages then pages[p] else Page(Loaded(disk, p), false)
  {
    if p in pages {
      return pages[p];
    }
    var pageStart := p * PAGE_BYTES;
    var data := seq(PAGE_BYTES, _ => 0 as byte);
    if pageStart < |disk| {
      var toRead := Min(PAGE_BYTES, |disk| - pageStart);
      data := disk[pageStart..pageStart + toRead] + data[toRead..];
    }
    assert data == Loaded(disk, p);
    page := Page(data, false);
  }

  /** A page after bytes were copied into it. */
  function Poked(data: seq<byte>, off: nat, bytes: seq<byte>): (r: seq<byte>)
    requires off + |bytes| <= |data|
    ensures |r| == |data|
  {
    data[..off] + bytes + data[off + |bytes|..]
  }

  lemma PokeKeepsConsistent(pages: map<nat, Page>, disk: seq<byte>, fileSize: nat, p: nat, off: nat, bytes: seq<byte>,
                            page: Page)
    requires Consistent(pages, disk, fileSize)
             && page == (if p in pages then pages[p] else Page(Loaded(disk, p), false))
    requires 0 < |bytes| && off + |bytes| <= PAGE_BYTES && p * PAGE_BYTES + off <= fileSize
    ensures Consistent(pages[p := Page(Poked(page.data, off, bytes), true)], disk,
                       Max(fileSize, p * PAGE_BYTES + off + |bytes|))
  {
    var size' := Max(fileSize, p * PAGE_BYTES + off + |bytes|);
    forall q: nat | Touches(q, |disk|, size') && q != p
      ensures q in pages && pages[q].dirty
    {
      if q < p {
        assert Touches(q, |disk|, fileSize);
      }
    }
  }

  lemma PokeSplices(pages: map<nat, Page>, disk: seq<byte>, fileSize: nat, p: nat, off: nat, bytes: seq<byte>,
                    page: Page)
    requires Consistent(pages, disk, fileSize)
             && page == (if p in pages then pages[p] else Page(Loaded(disk, p), false))
    requires 0 < |bytes| && off + |bytes| <= PAGE_BYTES && p * PAGE_BYTES + off <= fileSize
    ensures var pages', size' :=
              pages[p := Page(Poked(page.data, off, bytes), true)], Max(fileSize, p * PAGE_BYTES + off + |bytes|);
            Consistent(pages', disk, size')
            && Content(pages', disk, size') == Spliced(Content(pages, disk, fileSize), p * PAGE_BYTES + off, bytes)
  {
    var pages', size' :=
          pages[p := Page(Poked(page.data, off, bytes), true)], Max(fileSize, p * PAGE_BYTES + off + |bytes|);
    PokeKeepsConsistent(pages, disk, fileSize, p, off, bytes, page);
    var a, b := Content(pages', disk, size'), Spliced(Content(pages, disk, fileSize), p * PAGE_BYTES + off, bytes);
    forall i | 0 <= i < size'
      ensures a[i] == b[i]
    {
      PageOf(i);
      if i / PAGE_BYTES == p {
        assert i == p * PAGE_BYTES + i % PAGE_BYTES;
      }
    }
  }

  // ---------- flushing ----------

  /** What the file below has after a page was handed on. */
  function Handed(disk: seq<byte>, page: Page, p: nat, fileSize: nat): seq<byte>
    requires |page.data| == PAGE_BYTES && p * PAGE_BYTES <= fileSize
  {
    Spliced(disk, p * PAGE_BYTES, page.data[..Min(PAGE_BYTES, fileSize - p * PAGE_BYTES)])
  }

  lemma FirstDirtyStarts(pages: map<nat, Page>, disk: seq<byte>, fileSize: nat, p: nat)
    requires Consistent(pages, disk, fileSize) && p in pages && pages[p].dirty
    requires forall q :: q in pages && pages[q].dirty ==> p <= q
    ensures p * PAGE_BYTES <= |disk| && p * PAGE_BYTES < fileSize
  {
    if p * PAGE_BYTES > |disk| {
      assert Touches(p - 1, |disk|, fileSize);
    }
  }

  /** Handing on the first dirty page leaves a hole nowhere, and changes nothing that the user sees. */
  lemma HandOnKeeps(pages: map<nat, Page>, disk: seq<byte>, fileSize: nat, p: nat)
    requires Consistent(pages, disk, fileSize) && p in pages && pages[p].dirty
    requires forall q :: q in pages && pages[q].dirty ==> p <= q
    ensures p * PAGE_BYTES < fileSize
    ensures var pages', disk' := pages[p := pages[p].(dirty := false)], Handed(disk, pages[p], p, fileSize);
            Consistent(pages', disk', fileSize) && Content(pages', disk', fileSize) == Content(pages, disk, fileSize)
  {
    FirstDirtyStarts(pages, disk, fileSize, p);
    var start, count := p * PAGE_BYTES, Min(PAGE_BYTES, fileSize - p * PAGE_BYTES);
    var pages', disk' := pages[p := pages[p].(dirty := false)], Handed(disk, pages[p], p, fileSize);
    assert |disk'| == Max(|disk|, start + count);
    assert forall i :: 0 <= i < |disk'| ==>
             disk'[i] == if start <= i < start + count then pages[p].data[i - start] else disk[i];
    forall q: nat, off | q in pages' && !pages'[q].dirty && 0 <= off < PAGE_BYTES && q * PAGE_BYTES + off < |disk'|
      ensures pages'[q].data[off] == disk'[q * PAGE_BYTES + off]
    {
      OtherPage(p, q, off);
    }
    forall q: nat | Touches(q, |disk'|, fileSize)
      ensures q in pages' && pages'[q].dirty
    {
      assert Touches(q, |disk|, fileSize);
    }
    var a, b := Content(pages', disk', fileSize), Content(pages, disk, fileSize);
    forall i | 0 <= i < fileSize
      ensures a[i] == b[i]
    {
      PageOf(i);
      if |disk| <= i {
        OnlyInMemory(pages, disk, fileSize, i);
      }
    }
  }

  /** What the file below does not have yet is in a dirty page. */
  lemma OnlyInMemory(pages: map<nat, Page>, disk: seq<byte>, fileSize: nat, i: nat)
    requires Consistent(pages, disk, fileSize) && |disk| <= i < fileSize
    ensures i / PAGE_BYTES in pages && pages[i / PAGE_BYTES].dirty
  {
    PageOf(i);
    assert Touches(i / PAGE_BYTES, |disk|, fileSize);
  }

  lemma OtherPage(p: nat, q: nat, off: nat)
    requires off < PAGE_BYTES
    ensures p * PAGE_BYTES <= q * PAGE_BYTES + off < (p + 1) * PAGE_BYTES <==> p == q
  {
  }

  /** Without dirty pages the file below is what the user sees. */
  lemma CleanIsDisk(pages: map<nat, Page>, disk: seq<byte>, fileSize: nat)
    requires Consistent(pages, disk, fileSize) && forall p :: p in pages ==> !pages[p].dirty
    ensures disk == Content(pages, disk, fileSize)
  {
    if |disk| < fileSize {
      OnlyInMemory(pages, disk, fileSize, |disk|);
    }
    forall i | 0 <= i < fileSize
      ensures ByteAt(pages, disk, i) == disk[i]
    {
      PageOf(i);
    }
  }

  // ---------- the open file ----------

  lemma SplicedTwice(content: seq<byte>, pos: nat, a: seq<byte>, b: seq<byte>)
    requires pos <= |content|
    ensures Spliced(Spliced(content, pos, a), pos + |a|, b) == Spliced(content, pos, a + b)
    ensures pos + |a| <= |Spliced(content, pos, a)|
  {
    var x, y := Spliced(Spliced(content, pos, a), pos + |a|, b), Spliced(content, pos, a + b);
    assert |x| == |y|;
    assert forall i :: 0 <= i < |x| ==> x[i] == y[i];
  }

  lemma SplicedNothing(content: seq<byte>, pos: nat)
    requires pos <= |content|
    ensures Spliced(content, pos, []) == content
  {
  }

  /** What is not in a page is in the file below. */
  lemma Uncached(pages: map<nat, Page>, disk: seq<byte>, fileSize: nat, at: nat, chunk: nat)
    requires Consistent(pages, disk, fileSize) && at + chunk <= fileSize && 0 < chunk
    requires at % PAGE_BYTES + chunk <= PAGE_BYTES && at / PAGE_BYTES !in pages
    ensures at + chunk <= |disk| && disk[at..at + chunk] == Content(pages, disk, fileSize)[at..at + chunk]
  {
    var p, off := at / PAGE_BYTES, at % PAGE_BYTES;
    PageOf(at);
    assert !Touches(p, |disk|, fileSize);
    var a, b := disk[at..at + chunk], Content(pages, disk, fileSize)[at..at + chunk];
    forall k | 0 <= k < chunk
      ensures a[k] == b[k]
    {
      PageIs(p, off + k);
      assert at + k == p * PAGE_BYTES + (off + k);
    }
  }

  lemma Cached(pages: map<nat, Page>, disk: seq<byte>, fileSize: nat, at: nat, chunk: nat)
    requires Consistent(pages, disk, fileSize) && at + chunk <= fileSize && 0 < chunk
    requires at % PAGE_BYTES + chunk <= PAGE_BYTES && at / PAGE_BYTES in pages
    ensures |pages[at / PAGE_BYTES].data| == PAGE_BYTES
    ensures pages[at / PAGE_BYTES].data[at % PAGE_BYTES..at % PAGE_BYTES + chunk]
            == Content(pages, disk, fileSize)[at..at + chunk]
  {
    var p, off := at / PAGE_BYTES, at % PAGE_BYTES;
    PageOf(at);
    var a, b := pages[p].data[off..off + chunk], Content(pages, disk, fileSize)[at..at + chunk];
    forall k | 0 <= k < chunk
      ensures a[k] == b[k]
    {
      PageIs(p, off + k);
      assert at + k == p * PAGE_BYTES + (off + k);
    }
  }

  /** VFSFileObject, over the content of a file that its own calls change */
  class PageFile {
    var pos: nat
    var fileSize: nat
    var pages: map<nat, Page>
    var disk: seq<byte>

    ghost predicate Valid()
      reads this
    {
      Consistent(pages, disk, fileSize)
    }

    /** The byte array that reads and writes work on. */
    ghost function Bytes(): (bytes: seq<byte>)
      reads this
      requires Valid()
      ensures |bytes| == fileSize
    {
      Content(pages, disk, fileSize)
    }

    /** init_file_state */
    constructor (disk: seq<byte>)
      ensures Valid() && Bytes() == disk && pos == 0 && this.disk == disk
    {
      pos, fileSize, pages, this.disk := 0, |disk|, map[], disk;
      new;
      CleanIsDisk(pages, disk, fileSize);
    }

    /** Bytes of one page, from the cache or from the file below. */
    method ReadChunk(at: nat, chunk: nat) returns (piece: seq<byte>)
      requires Valid() && 0 < chunk && at + chunk <= fileSize && at % PAGE_BYTES + chunk <= PAGE_BYTES
      ensures piece == Bytes()[at..at + chunk]
    {
      hide Consistent, Content;
      if at / PAGE_BYTES in pages {
        Cached(pages, disk, fileSize, at, chunk);
        piece := pages[at / PAGE_BYTES].data[at % PAGE_BYTES..at % PAGE_BYTES + chunk];
      } else {
        Uncached(pages, disk, fileSize, at, chunk);
        piece := disk[at..at + chunk];
      }
    }

    /** At most `size` bytes from the cursor on, which moves past them. */
    method Read(size: nat) returns (data: seq<byte>)
      requires Valid()
      modifies this`pos
      ensures Valid() && Bytes() == old(Bytes()) && pos == old(pos) + |data|
      ensures data == if old(pos) >= fileSize then [] else Bytes()[old(pos)..Min(old(pos) + size, fileSize)]
    {
      hide Consistent, Content;
      data := [];
      if size == 0 || pos >= fileSize {
        return;
      }
      var bytesToRead := Min(size, fileSize - pos);
      while |data| < bytesToRead
        invariant pos == old(pos) && |data| <= bytesToRead && Valid() && data == Bytes()[pos..pos + |data|]
        decreases bytesToRead - |data|
      {
        var at := pos + |data|;
        PageOf(at);
        var chunk := Min(bytesToRead - |data|, PAGE_BYTES - at % PAGE_BYTES);
        ghost var bytes := Bytes();
        var piece := ReadChunk(at, chunk);
        assert bytes[pos..at] + bytes[at..at + chunk] == bytes[pos..at + chunk];
        data := data + piece;
      }
      pos := pos + |data|;
    }

    /** Puts bytes in place of those from the cursor on; no byte of the file below changes yet. */
    method Write(data: seq<byte>)
      requires Valid() && pos <= fileSize
      modifies this`pos, this`fileSize, this`pages
      ensures Valid() && Bytes() == Spliced(old(Bytes()), old(pos), data) && pos == old(pos) + |data| <= fileSize
    {
      hide Consistent, Content, Spliced;
      var written := 0;
      ghost var bytes := Bytes();
      SplicedNothing(bytes, pos);
      assert data[..0] == [];
      while written < |data|
        invariant written <= |data| && Valid() && pos + written <= fileSize && pos == old(pos)
        invariant Bytes() == Spliced(bytes, pos, data[..written])
      {
        var at := pos + written;
        PageOf(at);
        var p := at / PAGE_BYTES;
        var chunk := Min(|data| - written, PAGE_BYTES - at % PAGE_BYTES);
        ghost var piece := data[written..written + chunk];
        var page := LoadPage(pages, disk, p);
        PageLength(pages, disk, fileSize, p, page);
        PokeSplices(pages, disk, fileSize, p, at % PAGE_BYTES, data[written..written + chunk], page);
        pages := pages[p := Page(Poked(page.data, at % PAGE_BYTES, data[written..written + chunk]), true)];
        fileSize := Max(fileSize, at + chunk);
        SplicedTwice(bytes, pos, data[..written], piece);
        assert data[..written] + piece == data[..written + chunk];
        written := written + chunk;
      }
      assert data[..written] == data;
      pos := pos + written;
    }

    /** Moves the cursor, not before the beginning but maybe past the end. */
    method Seek(offset: int, whence: Whence) returns (ok: bool)
      requires Valid()
      modifies this`pos
      ensures Valid() && Bytes() == old(Bytes())
      ensures var target :=
                offset + (match whence case FromStart => 0 case FromCursor => old(pos) case FromEnd => |old(Bytes())|);
              (ok <==> target >= 0) && pos == if ok then target else old(pos)
    {
      var target := offset + (match whence case FromStart => 0 case FromCursor => pos case FromEnd => fileSize);
      ok := target >= 0;
      if ok {
        pos := target;
      }
    }

    /** The numbers of the dirty pages, in ascending order. */
    method DirtyPages() returns (dirtyPages: seq<nat>)
      requires Valid()
      ensures forall p :: p in dirtyPages <==> p in pages && pages[p].dirty
      ensures forall i, j :: 0 <= i < j < |dirtyPages| ==> dirtyPages[i] < dirtyPages[j]
    {
      dirtyPages := [];
      var end := (fileSize + PAGE_BYTES - 1) / PAGE_BYTES;
      for p := 0 to end
        invariant forall q :: q in dirtyPages <==> q < p && q in pages && pages[q].dirty
        invariant forall i :: 0 <= i < |dirtyPages| ==> dirtyPages[i] < p
        invariant forall i, j :: 0 <= i < j < |dirtyPages| ==> dirtyPages[i] < dirtyPages[j]
      {
        if p in pages && pages[p].dirty {
          dirtyPages := dirtyPages + [p];
        }
      }
      forall p | p in pages && pages[p].dirty
        ensures p < end
      {
        assert p * PAGE_BYTES < fileSize;
      }
    }

    /** flush_internal: afterwards the file below is the byte array. */
    method Flush()
      requires Valid()
      modifies this`pages, this`disk
      ensures Valid() && Bytes() == old(Bytes()) == disk
      ensures forall p :: p in pages ==> !pages[p].dirty
    {
      hide Consistent, Content, Handed;
      var dirtyPages := DirtyPages();
      for k := 0 to |dirtyPages|
        invariant Valid() && Bytes() == old(Bytes())
        invariant forall p :: p in pages && pages[p].dirty <==> p in dirtyPages[k..]
      {
        var p := dirtyPages[k];
        assert p in dirtyPages[k..];
        PageSizes(pages, disk, fileSize, p);
        HandOnKeeps(pages, disk, fileSize, p);
        disk := Handed(disk, pages[p], p, fileSize);
        pages := pages[p := pages[p].(dirty := false)];
        NextDirty(dirtyPages, k);
      }
      CleanIsDisk(pages, disk, fileSize);
    }
  }

  lemma PageLength(pages: map<nat, Page>, disk: seq<byte>, fileSize: nat, p: nat, page: Page)
    requires Consistent(pages, disk, fileSize) && page == if p in pages then pages[p] else Page(Loaded(disk, p), false)
    ensures |page.data| == PAGE_BYTES
  {
  }

  lemma PageSizes(pages: map<nat, Page>, disk: seq<byte>, fileSize: nat, p: nat)
    requires Consistent(pages, disk, fileSize) && p in pages
    ensures |pages[p].data| == PAGE_BYTES
  {
  }

  lemma NextDirty(ps: seq<nat>, k: nat)
    requires k < |ps| && forall i, j :: 0 <= i < j < |ps| ==> ps[i] < ps[j]
    ensures forall p :: p in ps[k..] <==> p == ps[k] || p in ps[k + 1..]
    ensures ps[k] !in ps[k + 1..]
  {
    assert ps[k..] == [ps[k]] + ps[k + 1..];
  }
}
