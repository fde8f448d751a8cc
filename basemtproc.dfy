/**
 * The sequential helpers of BaseMTProcessor (fwcmatch/src/basemtproc.h): the block
 * fill the producer thread runs, the count a consumer thread runs on a block, the
 * block set-up, and the sum of the per-consumer counters.
 */
module BaseMT {
  import opened Wrappers
  import opened LinesBlocks
  import opened Reading
  import opened Wildcard
  import opened ProcTools
  import opened Arith

  /** The sum of a sequence of counters. */
  function Sum(s: seq<nat>): nat
  {
    if s == [] then 0 else s[0] + Sum(s[1..])
  }

  lemma {:induction false} SumAppend(a: seq<nat>, b: seq<nat>)
    ensures Sum(a + b) == Sum(a) + Sum(b)
  {
    if a == [] {
      assert a + b == b;
    } else {
      assert (a + b)[1..] == a[1..] + b;
      SumAppend(a[1..], b);
    }
  }

  /** std::accumulate(first, last, init): a left fold with +. */
  function Accumulate(s: seq<nat>, init: nat): (r: nat)
    ensures r == init + Sum(s)
  {
    if s == [] then init
    else
      SumAppend(s[..|s| - 1], [s[|s| - 1]]);
      assert s[..|s| - 1] + [s[|s| - 1]] == s;
      Accumulate(s[..|s| - 1], init) + s[|s| - 1]
  }

  class BaseMTProcessor {
    var counters: seq<nat>
    const numOfConsThreads: nat
    const maxLines: nat
    const needsBuffer: bool

    /** BaseMTProcessor(numOfConsThreads, maxLines, needsBuffer): one zero counter per consumer. */
    constructor (numOfConsThreads: nat, maxLines: nat, needsBuffer: bool)
      requires numOfConsThreads > 0 && maxLines > 0
      ensures this.numOfConsThreads == numOfConsThreads && this.maxLines == maxLines && this.needsBuffer == needsBuffer
      ensures |counters| == numOfConsThreads && forall i :: 0 <= i < |counters| ==> counters[i] == 0
    {
      this.numOfConsThreads := numOfConsThreads;
      this.maxLines := maxLines;
      this.needsBuffer := needsBuffer;
      counters := seq(numOfConsThreads, _ => 0);
    }

    /**
     * readInLinesBlock(freader, block): as in proctools, with the processor's
     * maxLines as the bound and the block's line list as the destination.
     */
    method ReadInLinesBlock(freader: FileReader, block: LinesBlock)
      requires freader.Valid()
      requires freader.needsBuffer ==> 0 < block.buffer.Size()
      modifies freader, block
      ensures freader.Valid()
      ensures |block.lines| <= maxLines
      ensures freader.pos == old(freader.pos) + |block.lines|
      ensures Texts(block.lines) == old(freader.Remaining())[..|block.lines|]
      ensures |block.lines| < maxLines ==> freader.pos == |freader.input|
      ensures maxLines > 0 && block.lines == [] ==> old(freader.pos) == |freader.input|
      ensures freader.needsBuffer ==>
                && freader.windows == old(freader.windows) + LinearWindows(block.lines, Reads(|block.lines|, maxLines), block.buffer.blockSize)
                && LinearlyPlaced(block.lines)
      ensures !freader.needsBuffer ==> freader.windows == old(freader.windows)
    {
      var needsBuffer := freader.needsBuffer;
      var bufferPtr: nat := if needsBuffer then block.buffer.Get(0) else 0;
      var lastLineSize: nat := 0;
      ghost var start := freader.pos;
      ghost var bs := block.buffer.blockSize;
      ghost var w0 := freader.windows;
      ghost var filled: seq<Window> := [];
      ghost var end: nat := 0;
      ghost var broke := false;

      var lines: seq<LineRef> := [];
      var i := 0;
      while i < maxLines
        invariant freader.Valid()
        invariant i == |lines| && i <= maxLines && !broke
        invariant freader.pos == start + i
        invariant Texts(lines) == freader.input[start..start + i]
        invariant block.buffer.blockSize == bs
        invariant !needsBuffer ==> freader.windows == w0
        invariant needsBuffer ==> freader.windows == w0 + filled && end == bufferPtr + lastLineSize
        invariant needsBuffer ==> LinearFill(lines, end, filled, bs)
      {
        if needsBuffer {
          bufferPtr := bufferPtr + lastLineSize;
          freader.SetBuffer(bufferPtr, block.buffer.BlockSize());
        }
        var line := freader.ReadLine();
        if line.None? {
          broke := true;
          break;
        }
        TextsAppend(lines, line.value, freader.input, start, i);
        lastLineSize := |line.value.text|;
        if needsBuffer {
          LinearFillStep(lines, line.value, end, filled, bs);
          filled := filled + [Window(end, bs)];
          end := end + lastLineSize;
        }
        lines := lines + [line.value];
        i := i + 1;
      }
      assert old(freader.Remaining())[..i] == freader.input[start..start + i];
      if needsBuffer {
        LinearFillDone(lines, end, filled, bs, Reads(i, maxLines));
        if broke {
          assert freader.windows == w0 + (filled + [Window(end, bs)]);
        }
      }
      block.lines := lines;
    }

    /** filterBlock(wcmatch, pattern, block): the number of the block's lines that match. */
    function FilterBlock(impl: (string, string) -> bool, pattern: string, block: LinesBlock): (n: nat)
      reads block
      ensures n == CountMatches(impl, pattern, Texts(block.lines))
      ensures n <= |block.lines|
    {
      ProcTools.FilterBlock(impl, pattern, block.lines)
    }

    /** initLinesBlock(block, blockSize): maxLines blocks of blockSize bytes, only when the reader needs a buffer. */
    method InitLinesBlock(block: LinesBlock, blockSize: nat)
      requires needsBuffer ==> blockSize > 0
      modifies block.buffer
      ensures needsBuffer ==>
                && block.buffer.bytes == Resized(old(block.buffer.bytes), blockSize * maxLines)
                && block.buffer.blockSize == blockSize && block.buffer.Size() == maxLines * blockSize
      ensures !needsBuffer ==>
                block.buffer.bytes == old(block.buffer.bytes) && block.buffer.blockSize == old(block.buffer.blockSize)
                && block.buffer.cap == old(block.buffer.cap)
    {
      if needsBuffer {
        block.buffer.Resize(maxLines, blockSize);
      }
    }

    /** calcFinalResult(): the sum of the per-consumer counters. */
    function CalcFinalResult(): (r: nat)
      reads this
      ensures r == Sum(counters)
      ensures forall i :: 0 <= i < |counters| ==> counters[i] <= r
    {
      SumBound(counters);
      Accumulate(counters, 0)
    }
  }

  lemma {:induction false} SumBound(s: seq<nat>)
    ensures forall i :: 0 <= i < |s| ==> s[i] <= Sum(s)
  {
    if s != [] {
      SumBound(s[1..]);
      assert forall i :: 1 <= i < |s| ==> s[i] == s[1..][i - 1];
    }
  }

  /**
   * initLinesBlock followed by readInLinesBlock: when no line is longer than the block
   * size, every window offered to the reader lies inside the block buffer.
   */
  method FillInitialisedBlock(proc: BaseMTProcessor, freader: FileReader, block: LinesBlock, blockSize: nat)
    requires freader.Valid() && proc.needsBuffer && freader.needsBuffer && proc.maxLines > 0 && blockSize > 0
    requires forall k :: freader.pos <= k < |freader.input| ==> |freader.input[k]| <= blockSize
    modifies freader, block, block.buffer
    ensures forall j :: |old(freader.windows)| <= j < |freader.windows| ==>
              freader.windows[j].start + freader.windows[j].size <= block.buffer.Size()
  {
    proc.InitLinesBlock(block, blockSize);
    SlotsOrdered(0, proc.maxLines, blockSize);
    ghost var w0 := freader.windows;
    ghost var rest := freader.Remaining();
    proc.ReadInLinesBlock(freader, block);
    forall j | |w0| <= j < |freader.windows|
      ensures freader.windows[j].start + freader.windows[j].size <= block.buffer.Size()
    {
      var n := j - |w0|;
      assert freader.windows[j] == LinearWindows(block.lines, Reads(|block.lines|, proc.maxLines), blockSize)[n];
      LinearWindowsAt(block.lines, Reads(|block.lines|, proc.maxLines), blockSize, n);
      forall k | 0 <= k < |block.lines| ensures |block.lines[k].text| <= blockSize {
        assert block.lines[k].text == Texts(block.lines)[k] == rest[k];
      }
      WindowsInside(block.lines, n, proc.maxLines, blockSize);
    }
  }

  /**
   * The linear layout of readInLinesBlock does not keep line i in block i, which is
   * what LinesBlock's copy assignment asserts: two one-byte lines in blocks of 4.
   */
  lemma LinearFillLeavesSlots()
    ensures LinearlyPlaced([LineRef(0, "a"), LineRef(1, "b")])
    ensures !LineInSlot(LineRef(1, "b"), 1, 4, 8)
  {
    var lines := [LineRef(0, "a"), LineRef(1, "b")];
    assert Offset(lines, 1) == 1;
  }
}
