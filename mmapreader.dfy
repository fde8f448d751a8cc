/**
 * MMapReader::readLine from fwcmatch/src/mmapreader.cpp over the mapped bytes: the
 * mapping is a given sequence of characters and _mapptr a cursor into it.  open()
 * and close() (open, fstat, mmap, munmap) are not modelled.
 */
module MMapReading {
  import opened Wrappers

  /** memchr(data + from, '\n', |data| - from) as an index. */
  function FindNewline(data: seq<char>, from: nat): (r: Option<nat>)
    requires from <= |data|
    decreases |data| - from
    ensures r.Some? ==> from <= r.value < |data| && data[r.value] == '\n'
    ensures r.Some? ==> forall k :: from <= k < r.value ==> data[k] != '\n'
    ensures r.None? ==> forall k :: from <= k < |data| ==> data[k] != '\n'
  {
    if from == |data| then None
    else if data[from] == '\n' then Some(from)
    else FindNewline(data, from + 1)
  }

  /** A line as readLine returns it and the terminator it steps over. */
  datatype Cut = Cut(line: seq<char>, terminator: seq<char>)

  /**
   * The cut readLine makes at cursor c: up to the next '\n', without it and
   * without one '\r' right before it when the line has a character there;
   * the whole remainder when no '\n' is left.
   */
  function LineAt(data: seq<char>, c: nat): (r: Cut)
    requires c < |data|
    ensures 0 < |r.line| + |r.terminator| <= |data| - c
  {
    match FindNewline(data, c)
    case None => Cut(data[c..], [])
    case Some(eol) =>
      if eol != c && data[eol - 1] == '\r' then Cut(data[c..eol - 1], "\r\n") else Cut(data[c..eol], "\n")
  }

  /** The line and its terminator are the next bytes, and only a cut that runs to the end has no terminator. */
  lemma LineAtCovers(data: seq<char>, c: nat)
    requires c < |data|
    ensures var r := LineAt(data, c);
      && data[c..c + |r.line| + |r.terminator|] == r.line + r.terminator
      && (r.terminator == [] ==> c + |r.line| == |data|)
  {
    var r := LineAt(data, c);
    if FindNewline(data, c).Some? {
      assert data[c..c + |r.line| + |r.terminator|] == r.line + r.terminator;
    }
  }

  /**
   * The cut at c: the line and its terminator are the next bytes; the line holds no
   * '\n'; the terminator is "\n", "\r\n" or nothing, and nothing exactly when no
   * '\n' is left, the line then running to the end; a line cut at a bare "\n" does
   * not end in '\r'.
   */
  lemma LineAtShape(data: seq<char>, c: nat)
    requires c < |data|
    ensures var r := LineAt(data, c);
      && data[c..c + |r.line| + |r.terminator|] == r.line + r.terminator
      && '\n' !in r.line
      && (r.terminator == [] || r.terminator == "\n" || r.terminator == "\r\n")
      && (r.terminator == [] <==> '\n' !in data[c..])
      && (r.terminator == [] ==> c + |r.line| == |data|)
      && (r.terminator == "\n" ==> r.line == [] || r.line[|r.line| - 1] != '\r')
  {
    var r := LineAt(data, c);
    match FindNewline(data, c)
    case None =>
      assert forall k :: 0 <= k < |data[c..]| ==> data[c..][k] == data[c + k];
    case Some(eol) =>
      assert data[c..][eol - c] == '\n';
      assert data[c..c + |r.line| + |r.terminator|] == r.line + r.terminator;
      assert forall k :: 0 <= k < |r.line| ==> r.line[k] == data[c + k];
  }

  /** The cuts successive readLine calls make from cursor c to the end. */
  function CutsFrom(data: seq<char>, c: nat): seq<Cut>
    requires c <= |data|
    decreases |data| - c
  {
    if c == |data| then []
    else
      var cut := LineAt(data, c);
      [cut] + CutsFrom(data, c + |cut.line| + |cut.terminator|)
  }

  /** The lines of a run of cuts, in order. */
  function Lines(cuts: seq<Cut>): (r: seq<seq<char>>)
    ensures |r| == |cuts|
  {
    if cuts == [] then [] else [cuts[0].line] + Lines(cuts[1..])
  }

  /** Each line followed by the terminator it was cut at. */
  function Joined(cuts: seq<Cut>): seq<char>
  {
    if cuts == [] then [] else cuts[0].line + cuts[0].terminator + Joined(cuts[1..])
  }

  /**
   * Repeated reads partition the bytes: the lines with their terminators put back
   * give the input from the cursor on, and only the last cut can lack a terminator.
   */
  lemma {:induction false} CutsPartition(data: seq<char>, c: nat)
    requires c <= |data|
    ensures Joined(CutsFrom(data, c)) == data[c..]
    ensures forall i :: 0 <= i < |CutsFrom(data, c)| - 1 ==> CutsFrom(data, c)[i].terminator != []
    decreases |data| - c
  {
    if c < |data| {
      var cut := LineAt(data, c);
      var next := c + |cut.line| + |cut.terminator|;
      LineAtCovers(data, c);
      CutsPartition(data, next);
      var cuts := CutsFrom(data, c);
      assert cuts[1..] == CutsFrom(data, next);
      assert data[c..] == data[c..next] + data[next..];
      if cut.terminator == [] {
        assert next == |data|;
      }
    }
  }

  /** One read takes the first line off the lines still to be read. */
  lemma LinesStep(data: seq<char>, c: nat, line: seq<char>, next: nat)
    requires c < |data|
    requires line == LineAt(data, c).line && next == c + |LineAt(data, c).line| + |LineAt(data, c).terminator|
    ensures Lines(CutsFrom(data, c)) == [line] + Lines(CutsFrom(data, next))
  {
    var cuts := CutsFrom(data, c);
    assert cuts[1..] == CutsFrom(data, next);
  }

  /** "a\r\r\n": only the '\r' right before '\n' is stripped. */
  lemma OneCarriageReturnStripped()
    ensures LineAt("a\r\r\n", 0) == Cut("a\r", "\r\n")
  {
    assert FindNewline("a\r\r\n", 3) == Some(3);
    assert "a\r\r\n"[0..2] == "a\r";
  }

  /** "\n" is a present, empty line, not the end of the input. */
  lemma EmptyLine()
    ensures LineAt("\n", 0) == Cut("", "\n")
  {
    assert "\n"[0..0] == "";
  }

  /** A trailing '\r' without '\n' stays in the line. */
  lemma TrailingCarriageReturnKept()
    ensures LineAt("ab\r", 0) == Cut("ab\r", "")
  {
    assert FindNewline("ab\r", 3) == None;
    assert "ab\r"[0..] == "ab\r";
  }

  /** "\r\n": the '\r' is stripped, giving an empty line. */
  lemma CarriageReturnOnly()
    ensures LineAt("\r\n", 0) == Cut("", "\r\n")
  {
    assert FindNewline("\r\n", 1) == Some(1);
    assert "\r\n"[0..0] == "";
  }

  /**
   * The measuring part of readLine at cursor c: memchr for '\n', then one '\r'
   * stepped back over when the line has a character there.
   */
  method MeasureLine(data: seq<char>, c: nat) returns (lineSize: nat, eolOffset: nat)
    requires c < |data|
    ensures lineSize == |LineAt(data, c).line| && eolOffset == |LineAt(data, c).terminator|
    ensures data[c..c + lineSize] == LineAt(data, c).line
  {
    var eol := FindNewline(data, c);
    if eol.Some? {
      var e := eol.value;
      eolOffset := 1;
      if e != c && data[e - 1] == '\r' {
        e := e - 1;
        eolOffset := eolOffset + 1;
      }
      lineSize := e - c;
    } else {
      lineSize := |data| - c;
      eolOffset := 0;
    }
  }

  /** The mapped file and the _mapptr cursor into it. */
  class MMapReader {
    const data: seq<char>
    var cursor: nat

    ghost predicate Valid()
      reads this
    {
      cursor <= |data|
    }

    /** The state after open(): the cursor at the first byte of the mapping. */
    constructor (data: seq<char>)
      ensures Valid() && this.data == data && cursor == 0
    {
      this.data := data;
      cursor := 0;
    }

    /** The lines still to be read, in order. */
    ghost function Remaining(): seq<seq<char>>
      reads this
      requires Valid()
    {
      Lines(CutsFrom(data, cursor))
    }

    /** readLine(): "no line" at the end, otherwise the next line, the cursor moved past its terminator. */
    method ReadLine() returns (line: Option<seq<char>>)
      modifies this
      ensures line.None? <==> old(cursor) >= |data|
      ensures line.None? ==> cursor == old(cursor)
      ensures line.Some? ==> var cut := LineAt(data, old(cursor));
        line.value == cut.line && cursor == old(cursor) + |cut.line| + |cut.terminator|
      ensures old(Valid()) ==> Valid()
      ensures old(Valid()) && line.Some? ==> old(Remaining()) == [line.value] + Remaining()
      ensures old(Valid()) && line.None? ==> Remaining() == []
    {
      if cursor >= |data| {
        return None;
      }
      ghost var c := cursor;
      var lineSize, eolOffset := MeasureLine(data, cursor);
      line := Some(data[cursor..cursor + lineSize]);
      cursor := cursor + lineSize + eolOffset;
      LinesStep(data, c, line.value, cursor);
    }
  }
}
