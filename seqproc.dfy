/**
 * SequentialProcessor (fwcmatch/src/seqproc.cpp): one block, refilled from the reader
 * and counted until a fill comes back empty.
 */
module SeqProc {
  import opened LinesBlocks
  import opened Reading
  import opened Wildcard
  import opened ProcTools

  const BLOCK_SIZE: nat := 4 * 1024

  class SequentialProcessor {
    const linesBlock: BoundedLinesBlock

    /** SequentialProcessor(maxLines, needsBuffer): a block of maxLines lines, with their bytes if needed. */
    constructor (maxLines: nat, needsBuffer: bool)
      requires maxLines > 0
      ensures fresh(linesBlock) && fresh(linesBlock.buffer)
      ensures linesBlock.Valid() && linesBlock.maxLines == maxLines && linesBlock.lines == []
      ensures needsBuffer ==> linesBlock.buffer.Size() == maxLines * BLOCK_SIZE && linesBlock.buffer.blockSize == BLOCK_SIZE
    {
      linesBlock := new BoundedLinesBlock();
      new;
      linesBlock.Alloc(maxLines, needsBuffer, BLOCK_SIZE);
    }

    /**
     * execute(freader, filename, wcmatch, pattern): the number of lines still to be
     * read that match the pattern, however many lines a block holds.
     */
    method Execute(freader: FileReader, impl: (string, string) -> bool, pattern: string) returns (result: nat)
      requires freader.Valid() && linesBlock.Valid() && linesBlock.maxLines > 0
      requires freader.needsBuffer ==> 0 < linesBlock.buffer.Size()
      modifies freader, linesBlock
      ensures freader.Valid() && freader.pos == |freader.input|
      ensures result == CountMatches(impl, pattern, old(freader.Remaining()))
      ensures old(freader.Remaining()) == [] ==> result == 0
    {
      ghost var all := freader.Remaining();
      result := 0;
      while true
        invariant freader.Valid() && linesBlock.Valid() && linesBlock.maxLines == old(linesBlock.maxLines)
        invariant freader.needsBuffer ==> 0 < linesBlock.buffer.Size()
        invariant result + CountMatches(impl, pattern, freader.Remaining()) == CountMatches(impl, pattern, all)
        decreases |freader.input| - freader.pos
      {
        ghost var rest := freader.Remaining();
        ReadInLinesBlock(freader, linesBlock);
        if linesBlock.lines == [] {
          break;
        }
        assert rest == Texts(linesBlock.lines) + freader.Remaining();
        CountMatchesAppend(impl, pattern, Texts(linesBlock.lines), freader.Remaining());
        result := result + FilterBlock(impl, pattern, linesBlock.lines);
      }
    }
  }

  /** A star alone matches every text. */
  lemma GlobStarMatchesAll(t: string)
    ensures Glob(t, "*")
  {
    assert Glob(t[|t|..], "*") by { assert t[|t|..] == [] && Glob([], "*"[1..]); }
    GlobStarSuffix(t, 0, |t|, "*");
    assert t[0..] == t;
  }

  /** Of "apple", "banana", "apricot" and "cherry", the glob "a*" matches the first and the third. */
  lemma FruitGlobs()
    ensures Glob("apple", "a*") && Glob("apricot", "a*")
    ensures !Glob("banana", "a*") && !Glob("cherry", "a*")
  {
    GlobStarMatchesAll("pple");
    GlobStarMatchesAll("pricot");
    assert "apple"[1..] == "pple" && "apricot"[1..] == "pricot" && "a*"[1..] == "*";
  }

  /**
   * For example, of "apple", "banana", "apricot" and "cherry", the pattern "a*"
   * matches two lines for any backend with glob semantics (the matcher of
   * mywildcard.cpp is one on these texts, which have no '*').
   */
  lemma FruitScenario(impl: (string, string) -> bool)
    requires forall t, p :: impl(t, p) == Glob(t, p)
    ensures CountMatches(impl, "a*", ["apple", "banana", "apricot", "cherry"]) == 2
  {
    var texts: seq<string> := ["apple", "banana", "apricot", "cherry"];
    assert !IsMatch(impl, "banana", "a*") && !IsMatch(impl, "cherry", "a*");
    FruitGlobs();
    assert IsMatch(impl, "apple", "a*") && IsMatch(impl, "apricot", "a*");
    assert texts[1..] == ["banana", "apricot", "cherry"];
    assert texts[1..][1..] == ["apricot", "cherry"];
    assert texts[1..][1..][1..] == ["cherry"];
    assert texts[1..][1..][1..][1..] == [];
  }
}
