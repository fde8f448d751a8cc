/**
 * fwcmatch/src/proctools.cpp and proctools.h: filling a block with the next lines of
 * a reader, laid out one after another in the block buffer, and counting the lines
 * of a block that match a pattern.
 *
 * proctools.cpp is written against a block with maxLines(), clear() and addLine();
 * that block is modelled here as a bounded list of lines over a BlocksBuffer.
 */
module ProcTools {
  import opened Wrappers
  import opened LinesBlocks
  import opened Reading
  import opened Wildcard

  /** The number of texts isMatch accepts: what the pipeline is to report. */
  function CountMatches(impl: (string, string) -> bool, pattern: string, texts: seq<string>): (n: nat)
    ensures n <= |texts|
    ensures n == 0 <==> forall i :: 0 <= i < |texts| ==> !IsMatch(impl, texts[i], pattern)
    ensures n == |texts| <==> forall i :: 0 <= i < |texts| ==> IsMatch(impl, texts[i], pattern)
  {
    if texts == [] then 0
    else
      var rest := CountMatches(impl, pattern, texts[1..]);
      assert forall i :: 1 <= i < |texts| ==> texts[i] == texts[1..][i - 1];
      (if IsMatch(impl, texts[0], pattern) then 1 else 0) + rest
  }

  /** Counting distributes over concatenation: blocks can be counted one at a time. */
  lemma {:induction false} CountMatchesAppend(impl: (string, string) -> bool, pattern: string, a: seq<string>, b: seq<string>)
    ensures CountMatches(impl, pattern, a + b) == CountMatches(impl, pattern, a) + CountMatches(impl, pattern, b)
  {
    if a == [] {
      assert a + b == b;
    } else {
      assert (a + b)[0] == a[0] && (a + b)[1..] == a[1..] + b;
      CountMatchesAppend(impl, pattern, a[1..], b);
    }
  }

  /**
   * filterBlock(wcmatch, pattern, block): count_if over the block's lines.  It is a
   * function of the lines, so the block cannot change.
   */
  function FilterBlock(impl: (string, string) -> bool, pattern: string, lines: seq<LineRef>): (n: nat)
    ensures n == CountMatches(impl, pattern, Texts(lines))
    ensures n <= |lines| && (lines == [] ==> n == 0)
  {
    if lines == [] then 0
    else
      assert Texts(lines)[1..] == Texts(lines[1..]);
      (if IsMatch(impl, lines[0].text, pattern) then 1 else 0) + FilterBlock(impl, pattern, lines[1..])
  }

  /** The block proctools.cpp fills: a buffer and at most maxLines line views. */
  class BoundedLinesBlock {
    const buffer: BlocksBuffer
    var maxLines: nat
    var lines: seq<LineRef>

    ghost predicate Valid()
      reads this, buffer
    {
      |lines| <= maxLines && buffer.Valid()
    }

    constructor ()
      ensures Valid() && fresh(buffer)
      ensures maxLines == 0 && lines == [] && buffer.bytes == [] && buffer.blockSize == DEFAULT_BLOCK_SIZE
    {
      buffer := new BlocksBuffer(0, DEFAULT_BLOCK_SIZE);
      maxLines := 0;
      lines := [];
    }

    /** alloc(maxLines, needsBuffer, blockSize): room for maxLines lines, and their bytes if needed. */
    method Alloc(maxLines: nat, needsBuffer: bool, blockSize: nat)
      requires buffer.Valid() && blockSize > 0
      modifies this, buffer
      ensures Valid() && this.maxLines == maxLines && lines == []
      ensures needsBuffer ==> buffer.bytes == Resized(old(buffer.bytes), blockSize * maxLines) && buffer.blockSize == blockSize
      ensures !needsBuffer ==> buffer.bytes == old(buffer.bytes) && buffer.blockSize == old(buffer.blockSize)
    {
      this.maxLines := maxLines;
      lines := [];
      if needsBuffer {
        buffer.Resize(maxLines, blockSize);
      }
    }

    function MaxLines(): nat
      reads this
    {
      maxLines
    }

    method Clear()
      requires Valid()
      modifies this
      ensures Valid() && lines == [] && maxLines == old(maxLines)
    {
      lines := [];
    }

    method AddLine(line: LineRef)
      requires Valid() && |lines| < maxLines
      modifies this
      ensures Valid() && lines == old(lines) + [line] && maxLines == old(maxLines)
    {
      lines := lines + [line];
    }
  }

  /**
   * readInLinesBlock(freader, block): clear the block and append the reader's next
   * lines, at most maxLines of them, stopping at the first "no line".  A reader that
   * needs a buffer is given, before each read, a window of one block size that
   * starts where the bytes of the previous line ended.
   */
  method ReadInLinesBlock(freader: FileReader, block: BoundedLinesBlock)
    requires freader.Valid() && block.Valid()
    requires freader.needsBuffer ==> 0 < block.buffer.Size()
    modifies freader, block
    ensures freader.Valid() && block.Valid() && block.maxLines == old(block.maxLines)
    ensures |block.lines| <= block.maxLines
    ensures freader.pos == old(freader.pos) + |block.lines|
    ensures Texts(block.lines) == old(freader.Remaining())[..|block.lines|]
    ensures |block.lines| < block.maxLines ==> freader.pos == |freader.input|
    ensures block.maxLines > 0 && block.lines == [] ==> old(freader.pos) == |freader.input|
    ensures freader.needsBuffer ==>
              && freader.windows == old(freader.windows) + LinearWindows(block.lines, Reads(|block.lines|, block.maxLines), block.buffer.blockSize)
              && LinearlyPlaced(block.lines)
    ensures !freader.needsBuffer ==> freader.windows == old(freader.windows)
  {
    var needsBuffer := freader.needsBuffer;
    var maxLines := block.MaxLines();
    var bufferPtr: nat := if needsBuffer then block.buffer.Get(0) else 0;
    var lastLineSize: nat := 0;
    ghost var start := freader.pos;
    ghost var bs := block.buffer.blockSize;
    ghost var w0 := freader.windows;
    ghost var filled: seq<Window> := [];
    ghost var end: nat := 0;
    ghost var broke := false;

    block.Clear();
    var i := 0;
    while i < maxLines
      invariant freader.Valid() && block.Valid() && block.maxLines == maxLines
      invariant i == |block.lines| && !broke
      invariant freader.pos == start + i
      invariant Texts(block.lines) == freader.input[start..start + i]
      invariant block.buffer.blockSize == bs
      invariant !needsBuffer ==> freader.windows == w0
      invariant needsBuffer ==> freader.windows == w0 + filled && end == bufferPtr + lastLineSize
      invariant needsBuffer ==> LinearFill(block.lines, end, filled, bs)
    {
      if needsBuffer {
        bufferPtr := bufferPtr + lastLineSize;
        freader.SetBuffer(bufferPtr, block.buffer.BlockSize());
      }
      var line := freader.ReadLine();
      if line.None? {
        broke := true;
        break;
      }
      TextsAppend(block.lines, line.value, freader.input, start, i);
      lastLineSize := |line.value.text|;
      if needsBuffer {
        LinearFillStep(block.lines, line.value, end, filled, bs);
        filled := filled + [Window(end, bs)];
        end := end + lastLineSize;
      }
      block.AddLine(line.value);
      i := i + 1;
    }
    if needsBuffer {
      LinearFillDone(block.lines, end, filled, bs, Reads(i, maxLines));
      if broke {
        assert freader.windows == w0 + (filled + [Window(end, bs)]);
      }
    }
  }
}
