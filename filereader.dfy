/**
 * The reader interface of fwcmatch/src/filereader.h as an abstract source of lines,
 * and the linear layout the block fill gives the read windows.
 *
 * A reader yields the lines of its input one by one and then "no line".  A reader
 * that needs a buffer places each line at the window set by the last setBuffer
 * call; the others hand out views into their own storage.  Every setBuffer call is
 * recorded, so the windows a caller offered can be stated.
 */
module Reading {
  import opened Wrappers
  import opened LinesBlocks
  import opened Arith

  /** One setBuffer(buffer, bufferSize) call: an offset into the block buffer and a length. */
  datatype Window = Window(start: nat, size: nat)

  class FileReader {
    const needsBuffer: bool
    /** The lines of the file, without terminators. */
    const input: seq<string>
    /** For a reader without a buffer: where each line lies in its own storage. */
    const offsets: seq<nat>
    /** How many lines have been handed out. */
    var pos: nat
    var bufferStart: nat
    var bufferSize: nat
    ghost var windows: seq<Window>

    ghost predicate Valid()
      reads this
    {
      pos <= |input| && |offsets| == |input|
    }

    constructor (needsBuffer: bool, input: seq<string>, offsets: seq<nat>)
      requires |offsets| == |input|
      ensures Valid()
      ensures this.needsBuffer == needsBuffer && this.input == input && this.offsets == offsets
      ensures pos == 0 && bufferStart == 0 && bufferSize == 0 && windows == []
    {
      this.needsBuffer := needsBuffer;
      this.input := input;
      this.offsets := offsets;
      pos, bufferStart, bufferSize := 0, 0, 0;
      windows := [];
    }

    /** The lines not read yet. */
    ghost function Remaining(): seq<string>
      reads this
      requires Valid()
    {
      input[pos..]
    }

    /** setBuffer(buffer, bufferSize). */
    method SetBuffer(start: nat, size: nat)
      modifies this
      ensures bufferStart == start && bufferSize == size
      ensures windows == old(windows) + [Window(start, size)]
      ensures pos == old(pos)
    {
      bufferStart, bufferSize := start, size;
      windows := windows + [Window(start, size)];
    }

    /** readLine(): the next line, or None (a view with no data) at the end of the input. */
    method ReadLine() returns (line: Option<LineRef>)
      requires Valid()
      modifies this
      ensures Valid()
      ensures windows == old(windows) && bufferStart == old(bufferStart) && bufferSize == old(bufferSize)
      ensures line.None? <==> old(pos) == |input|
      ensures line.None? ==> pos == old(pos)
      ensures line.Some? ==> pos == old(pos) + 1 && line.value.text == input[old(pos)]
      ensures line.Some? ==> line.value.start == if needsBuffer then bufferStart else offsets[old(pos)]
    {
      if pos == |input| {
        return None;
      }
      line := Some(LineRef(if needsBuffer then bufferStart else offsets[pos], input[pos]));
      pos := pos + 1;
    }
  }

  /** The texts the views of a block show. */
  function Texts(lines: seq<LineRef>): (r: seq<string>)
    ensures |r| == |lines| && forall i {:trigger r[i]} :: 0 <= i < |lines| ==> r[i] == lines[i].text
  {
    seq(|lines|, i requires 0 <= i < |lines| => lines[i].text)
  }

  /** Storing the view of the next input line extends the texts read so far by that line. */
  lemma TextsAppend(lines: seq<LineRef>, l: LineRef, input: seq<string>, start: nat, i: nat)
    requires start + i < |input| && Texts(lines) == input[start..start + i] && l.text == input[start + i]
    ensures Texts(lines + [l]) == input[start..start + i + 1]
  {
    assert input[start..start + i + 1] == input[start..start + i] + [input[start + i]];
  }

  /** The total length of the first n lines: where read n starts in a linear fill. */
  function Offset(lines: seq<LineRef>, n: nat): nat
    requires n <= |lines|
  {
    if n == 0 then 0 else Offset(lines, n - 1) + |lines[n - 1].text|
  }

  lemma {:induction false} OffsetAppend(lines: seq<LineRef>, l: LineRef, n: nat)
    requires n <= |lines|
    ensures Offset(lines + [l], n) == Offset(lines, n)
  {
    if n > 0 {
      OffsetAppend(lines, l, n - 1);
      assert (lines + [l])[n - 1] == lines[n - 1];
    }
  }

  /** The windows of reads 0 .. n - 1 of a linear fill that stored lines. */
  function LinearWindows(lines: seq<LineRef>, n: nat, blockSize: nat): (r: seq<Window>)
    requires n <= |lines| + 1
    ensures |r| == n
  {
    if n == 0 then [] else LinearWindows(lines, n - 1, blockSize) + [Window(Offset(lines, n - 1), blockSize)]
  }

  /** Read j of a linear fill is offered one block size at the total length of lines 0 .. j - 1. */
  lemma {:induction false} LinearWindowsAt(lines: seq<LineRef>, n: nat, blockSize: nat, j: nat)
    requires n <= |lines| + 1 && j < n
    ensures LinearWindows(lines, n, blockSize)[j] == Window(Offset(lines, j), blockSize)
  {
    if j < n - 1 {
      LinearWindowsAt(lines, n - 1, blockSize, j);
    }
  }

  lemma {:induction false} LinearWindowsAppend(lines: seq<LineRef>, l: LineRef, n: nat, blockSize: nat)
    requires n <= |lines| + 1
    ensures LinearWindows(lines + [l], n, blockSize) == LinearWindows(lines, n, blockSize)
  {
    if n > 0 {
      LinearWindowsAppend(lines, l, n - 1, blockSize);
      OffsetAppend(lines, l, n - 1);
    }
  }

  /** Each view starts where the bytes of the views before it end. */
  predicate LinearlyPlaced(lines: seq<LineRef>)
  {
    lines == [] || (LinearlyPlaced(lines[..|lines| - 1]) && lines[|lines| - 1].start == Offset(lines, |lines| - 1))
  }

  /** In a linear layout, view k starts at the total length of views 0 .. k - 1. */
  lemma {:induction false} LinearlyPlacedAt(lines: seq<LineRef>, k: nat)
    requires LinearlyPlaced(lines) && k < |lines|
    ensures lines[k].start == Offset(lines, k)
  {
    var init := lines[..|lines| - 1];
    if k < |init| {
      LinearlyPlacedAt(init, k);
      assert init + [lines[|lines| - 1]] == lines;
      OffsetAppend(init, lines[|lines| - 1], k);
    }
  }

  /**
   * A linear fill that stored lines, built one line at a time: each line sits in the
   * window offered for it, which starts where the previous line ended, and end is
   * where the last line ends.
   */
  ghost predicate LinearFill(lines: seq<LineRef>, end: nat, windows: seq<Window>, blockSize: nat)
    decreases |lines|
  {
    if lines == [] then end == 0 && windows == []
    else
      var l := lines[|lines| - 1];
      && |windows| == |lines|
      && windows[|lines| - 1] == Window(l.start, blockSize)
      && end == l.start + |l.text|
      && LinearFill(lines[..|lines| - 1], l.start, windows[..|lines| - 1], blockSize)
  }

  lemma LinearFillStep(lines: seq<LineRef>, l: LineRef, end: nat, windows: seq<Window>, blockSize: nat)
    requires LinearFill(lines, end, windows, blockSize) && l.start == end
    ensures LinearFill(lines + [l], end + |l.text|, windows + [Window(end, blockSize)], blockSize)
  {
    assert (lines + [l])[..|lines|] == lines;
    assert (windows + [Window(end, blockSize)])[..|lines|] == windows;
  }

  /** A linear fill places its lines linearly and offers exactly the linear windows. */
  lemma {:induction false} LinearFillMeans(lines: seq<LineRef>, end: nat, windows: seq<Window>, blockSize: nat)
    requires LinearFill(lines, end, windows, blockSize)
    ensures end == Offset(lines, |lines|)
    ensures windows == LinearWindows(lines, |lines|, blockSize)
    ensures LinearlyPlaced(lines)
  {
    if lines != [] {
      var init := lines[..|lines| - 1];
      var l := lines[|lines| - 1];
      LinearFillMeans(init, l.start, windows[..|lines| - 1], blockSize);
      assert lines == init + [l];
      OffsetAppend(init, l, |init|);
      LinearWindowsAppend(init, l, |init|, blockSize);
      assert windows == windows[..|lines| - 1] + [windows[|lines| - 1]];
    }
  }

  /**
   * The outcome of a linear fill that made n reads: when the last read found no line,
   * it was still offered the window at the end of the stored lines.
   */
  lemma LinearFillDone(lines: seq<LineRef>, end: nat, windows: seq<Window>, blockSize: nat, n: nat)
    requires LinearFill(lines, end, windows, blockSize) && |lines| <= n <= |lines| + 1
    ensures LinearlyPlaced(lines)
    ensures n == |lines| ==> windows == LinearWindows(lines, n, blockSize)
    ensures n == |lines| + 1 ==> windows + [Window(end, blockSize)] == LinearWindows(lines, n, blockSize)
  {
    LinearFillMeans(lines, end, windows, blockSize);
  }

  /** The number of reads a fill that stored count lines out of at most maxLines made. */
  function Reads(count: nat, maxLines: nat): nat
  {
    if count < maxLines then count + 1 else count
  }

  /**
   * Lines of at most blockSize bytes keep every window of the first maxLines reads
   * inside maxLines blocks of blockSize bytes.
   */
  lemma {:induction false} WindowsInside(lines: seq<LineRef>, j: nat, maxLines: nat, blockSize: nat)
    requires j <= |lines| && j < maxLines
    requires forall k :: 0 <= k < |lines| ==> |lines[k].text| <= blockSize
    ensures Offset(lines, j) + blockSize <= maxLines * blockSize
  {
    OffsetBound(lines, j, blockSize);
    SlotsOrdered(j, maxLines, blockSize);
  }

  lemma {:induction false} OffsetBound(lines: seq<LineRef>, n: nat, blockSize: nat)
    requires n <= |lines|
    requires forall k :: 0 <= k < |lines| ==> |lines[k].text| <= blockSize
    ensures Offset(lines, n) <= n * blockSize
  {
    if n > 0 {
      OffsetBound(lines, n - 1, blockSize);
      assert n * blockSize == (n - 1) * blockSize + blockSize;
    }
  }
}
