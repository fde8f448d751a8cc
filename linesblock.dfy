/**
 * Block storage from fwcmatch/src/linesblock.h: BlocksBuffer (a byte vector cut into
 * fixed-size blocks), LinesBlock (a buffer plus the line views into it) and
 * LinesBlockPool (preallocated blocks handed out through a free ring).
 *
 * Pointers into a buffer are byte offsets from its start.  A line view carries the
 * offset where it starts and the bytes it shows.
 */
module LinesBlocks {
  import opened SimpleRing
  import opened Arith

  const DEFAULT_BLOCK_SIZE: nat := 2 * 1024

  /** A std::string_view: where it starts and the bytes it shows. */
  datatype LineRef = LineRef(start: nat, text: string)

  /** std::vector<char>::resize: keep the common prefix, zero-fill any growth. */
  function Resized(s: seq<char>, n: nat): (r: seq<char>)
    ensures |r| == n
    ensures forall i :: 0 <= i < |s| && i < n ==> r[i] == s[i]
    ensures forall i :: |s| <= i < n ==> r[i] == '\0'
  {
    if n <= |s| then s[..n] else s + seq(n - |s|, _ => '\0')
  }

  /** memcpy of c into s at offset at. */
  function Splice(s: seq<char>, at: nat, c: seq<char>): (r: seq<char>)
    requires at + |c| <= |s|
    ensures |r| == |s|
    ensures r[..at] == s[..at] && r[at..at + |c|] == c && r[at + |c|..] == s[at + |c|..]
  {
    s[..at] + c + s[at + |c|..]
  }

  class BlocksBuffer {
    /** The contents of _buffer; its size() is |bytes|. */
    var bytes: seq<char>
    /** _buffer.capacity(). */
    var cap: nat
    var blockSize: nat

    ghost predicate Valid()
      reads this
    {
      |bytes| <= cap
    }

    /** BlocksBuffer(size, blockSize): size blocks; resize() asserts a positive block size when size is not 0. */
    constructor (size: nat, blockSize: nat)
      requires size > 0 ==> blockSize > 0
      ensures Valid()
      ensures this.blockSize == blockSize
      ensures bytes == seq(size * blockSize, _ => '\0') && cap == size * blockSize
    {
      this.blockSize := blockSize;
      bytes := seq(size * blockSize, _ => '\0');
      cap := size * blockSize;
    }

    /** resize(n, bs): n blocks of bs bytes; the storage only grows. */
    method Resize(numOfBlocks: nat, blockSize: nat)
      requires blockSize > 0
      modifies this
      ensures Valid()
      ensures this.blockSize == blockSize
      ensures bytes == Resized(old(bytes), blockSize * numOfBlocks)
      ensures cap == if old(cap) < blockSize * numOfBlocks then blockSize * numOfBlocks else old(cap)
      ensures Size() == numOfBlocks * blockSize && NumOfBlocks() == numOfBlocks
    {
      this.blockSize := blockSize;
      bytes := Resized(bytes, blockSize * numOfBlocks);
      MulDivExact(numOfBlocks, blockSize);
      if cap < blockSize * numOfBlocks {
        cap := blockSize * numOfBlocks;
      }
    }

    /** swap(other): exchange storage and block size. */
    method Swap(other: BlocksBuffer)
      modifies this, other
      ensures bytes == old(other.bytes) && other.bytes == old(bytes)
      ensures cap == old(other.cap) && other.cap == old(cap)
      ensures blockSize == old(other.blockSize) && other.blockSize == old(blockSize)
    {
      bytes, other.bytes := other.bytes, bytes;
      cap, other.cap := other.cap, cap;
      blockSize, other.blockSize := other.blockSize, blockSize;
    }

    /** clear(): no bytes left, storage and block size kept. */
    method Clear()
      requires Valid()
      modifies this
      ensures Valid()
      ensures bytes == [] && cap == old(cap) && blockSize == old(blockSize)
    {
      bytes := [];
    }

    function Size(): nat
      reads this
    {
      |bytes|
    }

    function Capacity(): nat
      reads this
    {
      cap
    }

    predicate Empty()
      reads this
    {
      |bytes| == 0
    }

    function BlockSize(): nat
      reads this
    {
      blockSize
    }

    /** numOfBlocks(): how many whole blocks fit in the current size. */
    function NumOfBlocks(): (n: nat)
      reads this
      requires blockSize > 0
      ensures n * blockSize <= |bytes| < n * blockSize + blockSize
    {
      |bytes| / blockSize
    }

    /** get(idx): the offset of block idx, which starts inside the buffer. */
    function Get(idx: nat): (offset: nat)
      reads this
      requires idx * blockSize < |bytes|
      ensures offset < |bytes| && offset == idx * blockSize
    {
      idx * blockSize
    }
  }

  /** The assertions of operator=: line i begins in block i of the source and ends before block i + 1. */
  predicate LineInSlot(l: LineRef, i: nat, blockSize: nat, size: nat)
  {
    i * blockSize < size && i * blockSize <= l.start && l.start + |l.text| < i * blockSize + blockSize
  }

  /** Every view of a block shows the bytes of its buffer at its offset. */
  predicate ViewsAgree(lines: seq<LineRef>, bytes: seq<char>)
  {
    forall k :: 0 <= k < |lines| ==>
      lines[k].start + |lines[k].text| <= |bytes| &&
      bytes[lines[k].start..lines[k].start + |lines[k].text|] == lines[k].text
  }

  /** The bytes a view of a buffer shows, read from the buffer itself. */
  function SourceBytes(bytes: seq<char>, l: LineRef): (r: seq<char>)
    requires l.start + |l.text| <= |bytes|
    ensures |r| == |l.text|
  {
    bytes[l.start..l.start + |l.text|]
  }

  /**
   * Line i of a block starts in block i of a source buffer of the given block size,
   * ends before block i + 1 and inside the buffer, and fits at the start of block i
   * of a destination buffer of the same size with block size dstBs.
   */
  predicate SlotsFit(lines: seq<LineRef>, srcBs: nat, size: nat, dstBs: nat)
  {
    forall i :: 0 <= i < |lines| ==>
      && LineInSlot(lines[i], i, srcBs, size)
      && lines[i].start + |lines[i].text| <= size
      && i * dstBs < size
      && i * dstBs + |lines[i].text| <= size
      && |lines[i].text| < dstBs
  }

  /**
   * Writing a chunk at the start of the block after the last view's keeps the views,
   * each shorter than a block and at the start of its own block, and adds a view of
   * the chunk.
   */
  lemma SpliceSlot(lines: seq<LineRef>, bytes: seq<char>, bs: nat, chunk: seq<char>)
    requires ViewsAgree(lines, bytes)
    requires forall k :: 0 <= k < |lines| ==> lines[k].start == k * bs && |lines[k].text| < bs
    requires |lines| * bs + |chunk| <= |bytes|
    ensures ViewsAgree(lines + [LineRef(|lines| * bs, chunk)], Splice(bytes, |lines| * bs, chunk))
  {
    SlotViewsEnd(lines, bs);
    SpliceAfterViews(lines, bytes, |lines| * bs, chunk);
  }

  /** Views at the start of their own blocks, each shorter than a block, end before the next free block. */
  lemma SlotViewsEnd(lines: seq<LineRef>, bs: nat)
    requires forall k :: 0 <= k < |lines| ==> lines[k].start == k * bs && |lines[k].text| < bs
    ensures forall k :: 0 <= k < |lines| ==> lines[k].start + |lines[k].text| <= |lines| * bs
  {
    forall k | 0 <= k < |lines|
      ensures lines[k].start + |lines[k].text| <= |lines| * bs
    {
      SlotsOrdered(k, |lines|, bs);
    }
  }

  /** A memcpy at or after the end of every view keeps the views and adds a view of the copy. */
  lemma SpliceAfterViews(lines: seq<LineRef>, bytes: seq<char>, at: nat, chunk: seq<char>)
    requires ViewsAgree(lines, bytes)
    requires forall k :: 0 <= k < |lines| ==> lines[k].start + |lines[k].text| <= at
    requires at + |chunk| <= |bytes|
    ensures ViewsAgree(lines + [LineRef(at, chunk)], Splice(bytes, at, chunk))
  {
    var after := Splice(bytes, at, chunk);
    var all := lines + [LineRef(at, chunk)];
    forall k | 0 <= k < |all|
      ensures all[k].start + |all[k].text| <= |after|
      ensures after[all[k].start..all[k].start + |all[k].text|] == all[k].text
    {
      if k < |lines| {
        SpliceKeepsView(bytes, at, chunk, lines[k]);
      }
    }
  }

  /** A memcpy at or after the end of a view leaves the bytes the view shows. */
  lemma SpliceKeepsView(bytes: seq<char>, at: nat, chunk: seq<char>, l: LineRef)
    requires at + |chunk| <= |bytes| && l.start + |l.text| <= at
    requires bytes[l.start..l.start + |l.text|] == l.text
    ensures Splice(bytes, at, chunk)[l.start..l.start + |l.text|] == l.text
  {
    var after := Splice(bytes, at, chunk);
    assert after[l.start..l.start + |l.text|] == after[..at][l.start..l.start + |l.text|];
    assert bytes[l.start..l.start + |l.text|] == bytes[..at][l.start..l.start + |l.text|];
  }

  datatype CopyOutcome = Copied | LogicError(message: string)

  class LinesBlock {
    const buffer: BlocksBuffer
    var lines: seq<LineRef>

    /** LinesBlock() = default: an empty buffer with the default block size and no lines. */
    constructor ()
      ensures fresh(buffer) && buffer.Valid()
      ensures buffer.bytes == [] && buffer.cap == 0 && buffer.blockSize == DEFAULT_BLOCK_SIZE
      ensures lines == []
    {
      buffer := new BlocksBuffer(0, DEFAULT_BLOCK_SIZE);
      lines := [];
    }

    /**
     * What operator=(other) asserts and what its memcpy calls need when it copies
     * bytes: line i of other lies in block i of other's buffer, and block i of this
     * buffer (after the resize, with the block size then in force) holds it.
     */
    ghost predicate CopyFits(other: LinesBlock)
      reads this, buffer, other, other.buffer
    {
      var resizing := buffer.Size() != other.buffer.Size();
      var bs := if resizing then other.buffer.blockSize else buffer.blockSize;
      && (resizing ==> other.buffer.blockSize > 0 && other.buffer.Size() % other.buffer.blockSize == 0)
      && SlotsFit(other.lines, other.buffer.blockSize, other.buffer.Size(), bs)
    }

    /**
     * operator=(other).  An empty source buffer copies the views and clears this
     * buffer.  Otherwise sizes are matched (in place, or logic_error when the storage
     * is too small) and line i is copied into block i.  Assigning a block to itself
     * with a non-empty buffer clears its line list before the copy loop reads it.
     */
    method Assign(other: LinesBlock) returns (outcome: CopyOutcome)
      requires buffer.Valid() && other.buffer.Valid()
      requires this == other || buffer != other.buffer
      requires this != other && !other.buffer.Empty()
               && (buffer.Size() == other.buffer.Size() || buffer.Capacity() >= other.buffer.Size())
               ==> CopyFits(other)
      modifies this, buffer
      ensures buffer.Valid()
      ensures old(other.buffer.Empty()) ==>
                outcome == Copied && lines == old(other.lines) && buffer.bytes == []
                && buffer.cap == old(buffer.cap) && buffer.blockSize == old(buffer.blockSize)
      ensures !old(other.buffer.Empty()) && old(buffer.Size()) != old(other.buffer.Size())
              && old(buffer.Capacity()) < old(other.buffer.Size()) ==>
                outcome.LogicError? && lines == old(lines) && buffer.bytes == old(buffer.bytes)
                && buffer.cap == old(buffer.cap) && buffer.blockSize == old(buffer.blockSize)
      ensures !old(other.buffer.Empty())
              && (old(buffer.Size()) == old(other.buffer.Size()) || old(buffer.Capacity()) >= old(other.buffer.Size())) ==>
                && outcome == Copied && buffer.cap == old(buffer.cap)
                && buffer.blockSize == (if old(buffer.Size()) != old(other.buffer.Size()) then old(other.buffer.blockSize) else old(buffer.blockSize))
      ensures outcome == Copied && !old(other.buffer.Empty()) && this == other ==> lines == [] && buffer.bytes == old(buffer.bytes)
      ensures outcome == Copied && !old(other.buffer.Empty()) && this != other ==>
                && buffer.Size() == old(other.buffer.Size())
                && |lines| == |old(other.lines)|
                && ViewsAgree(lines, buffer.bytes)
                && forall i :: 0 <= i < |lines| ==>
                     && lines[i].start == i * buffer.blockSize
                     && lines[i].text == SourceBytes(old(other.buffer.bytes), old(other.lines)[i])
      ensures outcome == Copied && this != other && ViewsAgree(old(other.lines), old(other.buffer.bytes)) ==>
                forall i :: 0 <= i < |lines| ==> lines[i].text == old(other.lines)[i].text
    {
      if other.buffer.Empty() {
        lines := other.lines;
        buffer.Clear();
        return Copied;
      }

      var fits := MatchSize(other);
      if !fits {
        return LogicError("LinesBlock does not support copying with memory reallocation");
      }

      lines := [];
      CopyLines(other);
      if this != other && ViewsAgree(old(other.lines), old(other.buffer.bytes)) {
        forall i | 0 <= i < |lines|
          ensures lines[i].text == old(other.lines)[i].text
        {
          assert old(other.lines)[i] in old(other.lines);
        }
      }
      return Copied;
    }

    /**
     * The size check of operator=: a buffer of another size takes the source's block
     * count and block size when its storage is large enough, without reallocating.
     */
    method MatchSize(other: LinesBlock) returns (fits: bool)
      requires buffer.Valid() && other.buffer.Valid()
      requires this == other || buffer != other.buffer
      requires buffer.Size() != other.buffer.Size() && buffer.Capacity() >= other.buffer.Size() ==>
                 other.buffer.blockSize > 0 && other.buffer.Size() % other.buffer.blockSize == 0
      modifies buffer
      ensures buffer.Valid()
      ensures fits <==> old(buffer.Size()) == old(other.buffer.Size()) || old(buffer.Capacity()) >= old(other.buffer.Size())
      ensures fits && old(buffer.Size()) != old(other.buffer.Size()) ==>
                && buffer.bytes == Resized(old(buffer.bytes), old(other.buffer.Size()))
                && buffer.blockSize == old(other.buffer.blockSize) && buffer.cap == old(buffer.cap)
      ensures !fits || old(buffer.Size()) == old(other.buffer.Size()) ==>
                buffer.bytes == old(buffer.bytes) && buffer.blockSize == old(buffer.blockSize) && buffer.cap == old(buffer.cap)
      ensures fits ==> buffer.Size() == old(other.buffer.Size())
    {
      if buffer.Size() != other.buffer.Size() {
        if buffer.Capacity() >= other.buffer.Size() {
          buffer.Resize(other.buffer.NumOfBlocks(), other.buffer.BlockSize());
          assert buffer.BlockSize() == other.buffer.BlockSize();
          assert buffer.Size() == other.buffer.Size() by {
            DivUnique(other.buffer.Size(), other.buffer.blockSize, other.buffer.NumOfBlocks(), 0);
          }
          return true;
        }
        return false;
      }
      return true;
    }

    /** The copy loop of operator=: line i of other is copied to the start of block i of this buffer. */
    method CopyLines(other: LinesBlock)
      requires buffer.Valid() && other.buffer.Valid()
      requires this == other || buffer != other.buffer
      requires lines == [] && buffer.Size() == other.buffer.Size()
      requires this != other ==> SlotsFit(other.lines, other.buffer.blockSize, other.buffer.Size(), buffer.blockSize)
      modifies this, buffer
      ensures buffer.Valid() && buffer.Size() == old(buffer.Size())
      ensures buffer.cap == old(buffer.cap) && buffer.blockSize == old(buffer.blockSize)
      ensures this == other ==> lines == [] && buffer.bytes == old(buffer.bytes)
      ensures this != other ==>
                && |lines| == |old(other.lines)|
                && ViewsAgree(lines, buffer.bytes)
                && forall i :: 0 <= i < |lines| ==>
                     && lines[i].start == i * buffer.blockSize
                     && lines[i].text == SourceBytes(old(other.buffer.bytes), old(other.lines)[i])
    {
      var i := 0;
      while i < |other.lines|
        invariant this == other ==> lines == [] && buffer.bytes == old(buffer.bytes)
        invariant this != other ==> other.lines == old(other.lines) && other.buffer.bytes == old(other.buffer.bytes)
        invariant buffer.Valid() && buffer.Size() == old(buffer.Size())
        invariant buffer.cap == old(buffer.cap) && buffer.blockSize == old(buffer.blockSize)
        invariant this != other ==> i <= |other.lines| && |lines| == i
        invariant this != other ==> ViewsAgree(lines, buffer.bytes)
        invariant this != other ==> forall k :: 0 <= k < i ==>
                    && lines[k].start == k * buffer.blockSize
                    && lines[k].text == SourceBytes(other.buffer.bytes, other.lines[k])
                    && |lines[k].text| < buffer.blockSize
        decreases |other.lines| - i
      {
        var othrline := other.lines[i];
        var buff := buffer.Get(i);
        assert othrline.start >= other.buffer.Get(i);
        assert othrline.start + |othrline.text| < other.buffer.Get(i) + other.buffer.BlockSize();
        var chunk := other.buffer.bytes[othrline.start..othrline.start + |othrline.text|];
        SpliceSlot(lines, buffer.bytes, buffer.blockSize, chunk);
        buffer.bytes := Splice(buffer.bytes, buff, chunk);
        lines := lines + [LineRef(buff, chunk)];
        i := i + 1;
      }
    }

    /** swap(other): exchange buffers and line lists. */
    method Swap(other: LinesBlock)
      requires this == other || buffer != other.buffer
      modifies this, other, buffer, other.buffer
      ensures buffer.bytes == old(other.buffer.bytes) && other.buffer.bytes == old(buffer.bytes)
      ensures buffer.cap == old(other.buffer.cap) && other.buffer.cap == old(buffer.cap)
      ensures buffer.blockSize == old(other.buffer.blockSize) && other.buffer.blockSize == old(buffer.blockSize)
      ensures lines == old(other.lines) && other.lines == old(lines)
    {
      buffer.Swap(other.buffer);
      lines, other.lines := other.lines, lines;
    }
  }

  /**
   * LinesBlockPool: numOfBlocks preallocated blocks and a ring of pointers to the
   * free ones.  The ring is the counting ring (size() as a number), since with
   * size() returning bool the ring holds one pointer and reset() could not push
   * a second block.
   */
  class LinesBlockPool {
    const blocks: seq<LinesBlock>
    const freeBlocks: CountingRingBuffer<LinesBlock?>
    const maxLines: nat
    const blockSize: nat

    /** The block buffers, which reset(true) resizes. */
    ghost function Buffers(): set<BlocksBuffer>
    {
      set i | 0 <= i < |blocks| :: blocks[i].buffer
    }

    ghost predicate Valid()
      reads this, freeBlocks, freeBlocks.buffer
    {
      && |blocks| > 0 && maxLines > 0 && blockSize > 0
      && freeBlocks.Valid() && freeBlocks.buffer.Length == |blocks|
      && (forall i, j :: 0 <= i < j < |blocks| ==> blocks[i] != blocks[j] && blocks[i].buffer != blocks[j].buffer)
    }

    /** The free list, next to be handed out first. */
    ghost function Free(): seq<LinesBlock?>
      reads this, freeBlocks, freeBlocks.buffer
      requires Valid()
    {
      freeBlocks.Contents()
    }

    /** LinesBlockPool(numOfBlocks, maxLines, blockSize): fresh empty blocks, nothing free until reset(). */
    constructor (numOfBlocks: nat, maxLines: nat, blockSize: nat)
      requires numOfBlocks > 0 && maxLines > 0 && blockSize > 0
      ensures Valid() && fresh(freeBlocks) && fresh(freeBlocks.buffer)
      ensures |blocks| == numOfBlocks && this.maxLines == maxLines && this.blockSize == blockSize
      ensures Free() == []
      ensures forall i :: 0 <= i < |blocks| ==>
                && fresh(blocks[i]) && fresh(blocks[i].buffer) && blocks[i].lines == []
                && blocks[i].buffer.bytes == [] && blocks[i].buffer.blockSize == DEFAULT_BLOCK_SIZE
    {
      var made: seq<LinesBlock> := [];
      var i := 0;
      while i < numOfBlocks
        invariant i <= numOfBlocks && |made| == i
        invariant forall k :: 0 <= k < i ==>
                    && fresh(made[k]) && fresh(made[k].buffer) && made[k].lines == []
                    && made[k].buffer.bytes == [] && made[k].buffer.blockSize == DEFAULT_BLOCK_SIZE
        invariant forall k, l :: 0 <= k < l < i ==> made[k] != made[l] && made[k].buffer != made[l].buffer
      {
        var blk := new LinesBlock();
        made := made + [blk];
        i := i + 1;
      }
      blocks := made;
      freeBlocks := new CountingRingBuffer<LinesBlock?>(numOfBlocks);
      this.maxLines := maxLines;
      this.blockSize := blockSize;
    }

    /**
     * reset(allocBuffers): every block becomes free, in order; with allocBuffers each
     * buffer is resized to maxLines blocks of blockSize bytes.  Line lists are kept.
     */
    method Reset(allocBuffers: bool)
      requires Valid()
      modifies freeBlocks, freeBlocks.buffer, Buffers()
      ensures Valid()
      ensures |Free()| == |blocks| && forall i :: 0 <= i < |blocks| ==> Free()[i] == blocks[i]
      ensures forall i :: 0 <= i < |blocks| ==> blocks[i].lines == old(blocks[i].lines)
      ensures allocBuffers ==> forall i :: 0 <= i < |blocks| ==>
                && blocks[i].buffer.bytes == Resized(old(blocks[i].buffer.bytes), blockSize * maxLines)
                && blocks[i].buffer.blockSize == blockSize
                && blocks[i].buffer.Valid() && blocks[i].buffer.NumOfBlocks() == maxLines
      ensures !allocBuffers ==> forall i :: 0 <= i < |blocks| ==>
                && blocks[i].buffer.bytes == old(blocks[i].buffer.bytes)
                && blocks[i].buffer.blockSize == old(blocks[i].buffer.blockSize)
    {
      freeBlocks.Clear();
      var i := 0;
      while i < |blocks|
        invariant i <= |blocks|
        invariant Valid()
        invariant Free() == blocks[..i]
        invariant allocBuffers ==> forall k :: 0 <= k < i ==>
                    && blocks[k].buffer.bytes == Resized(old(blocks[k].buffer.bytes), blockSize * maxLines)
                    && blocks[k].buffer.blockSize == blockSize
                    && blocks[k].buffer.Valid() && blocks[k].buffer.NumOfBlocks() == maxLines
        invariant forall k :: 0 <= k < |blocks| && (!allocBuffers || i <= k) ==>
                    && blocks[k].buffer.bytes == old(blocks[k].buffer.bytes)
                    && blocks[k].buffer.blockSize == old(blocks[k].buffer.blockSize)
      {
        ResetBlock(i, allocBuffers);
        i := i + 1;
      }
    }

    /** One step of reset(): block i joins the free list and, with allocBuffers, has its buffer resized. */
    method ResetBlock(i: nat, allocBuffers: bool)
      requires Valid() && i < |blocks| && Free() == blocks[..i]
      modifies freeBlocks, freeBlocks.buffer, blocks[i].buffer
      ensures Valid() && Free() == blocks[..i + 1]
      ensures allocBuffers ==>
                && blocks[i].buffer.bytes == Resized(old(blocks[i].buffer.bytes), blockSize * maxLines)
                && blocks[i].buffer.blockSize == blockSize
                && blocks[i].buffer.Valid() && blocks[i].buffer.NumOfBlocks() == maxLines
      ensures !allocBuffers ==>
                && blocks[i].buffer.bytes == old(blocks[i].buffer.bytes)
                && blocks[i].buffer.blockSize == old(blocks[i].buffer.blockSize)
    {
      freeBlocks.Push(blocks[i]);
      assert Free() == blocks[..i] + [blocks[i]];
      if allocBuffers {
        blocks[i].buffer.Resize(maxLines, blockSize);
      }
    }

    /** allocBlock(): the oldest free block, or null when none is free. */
    method AllocBlock() returns (p: LinesBlock?)
      requires Valid()
      modifies freeBlocks
      ensures Valid()
      ensures old(Free()) == [] ==> p == null && Free() == []
      ensures old(Free()) != [] ==> p == old(Free())[0] && Free() == old(Free())[1..]
    {
      if freeBlocks.Empty() {
        return null;
      }
      p := freeBlocks.Top();
      freeBlocks.Pop();
    }

    /** freeBlock(p): p joins the end of the free list; the ring must not be full. */
    method FreeBlock(p: LinesBlock?)
      requires Valid()
      requires !freeBlocks.Full()
      modifies freeBlocks, freeBlocks.buffer
      ensures Valid()
      ensures Free() == old(Free()) + [p]
    {
      freeBlocks.Push(p);
    }

    function BlockSize(): nat
    {
      blockSize
    }

    function MaxLines(): nat
    {
      maxLines
    }

    /** capacity(): the number of blocks reserved by the constructor. */
    function Capacity(): nat
    {
      |blocks|
    }
  }

  /** allocBlock() once per free block and once more: every free block, in order, then null. */
  method DrainAll(pool: LinesBlockPool) returns (handed: seq<LinesBlock?>, last: LinesBlock?)
    requires pool.Valid()
    modifies pool.freeBlocks
    ensures pool.Valid() && pool.Free() == []
    ensures handed == old(pool.Free()) && last == null
  {
    ghost var all := pool.Free();
    var n := pool.freeBlocks.Size();
    handed := [];
    for i := 0 to n
      invariant pool.Valid()
      invariant handed == all[..i] && pool.Free() == all[i..]
    {
      var p := pool.AllocBlock();
      handed := handed + [p];
    }
    last := pool.AllocBlock();
  }

  /**
   * After reset(allocBuffers), allocBlock() hands out each block once, in order, and
   * then returns null; with allocBuffers every block handed out has a buffer of
   * maxLines blocks of the pool's block size.
   */
  method DrainAfterReset(pool: LinesBlockPool, allocBuffers: bool) returns (handed: seq<LinesBlock?>, last: LinesBlock?)
    requires pool.Valid()
    modifies pool.freeBlocks, pool.freeBlocks.buffer, pool.Buffers()
    ensures pool.Valid() && pool.Free() == []
    ensures |handed| == |pool.blocks| && forall i :: 0 <= i < |handed| ==> handed[i] == pool.blocks[i]
    ensures last == null
    ensures allocBuffers ==> forall i :: 0 <= i < |pool.blocks| ==>
              && pool.blocks[i].buffer.blockSize == pool.blockSize
              && pool.blocks[i].buffer.Valid() && pool.blocks[i].buffer.NumOfBlocks() == pool.maxLines
  {
    pool.Reset(allocBuffers);
    handed, last := DrainAll(pool);
  }
}
