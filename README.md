# fwcmatch building blocks in Dafny

fwcmatch counts the lines of a file that match a wildcard pattern. One producer reads
lines into fixed-capacity blocks, and consumers filter those blocks against the pattern
and add up per-thread counts. This project models the sequential pieces underneath the
threaded pipeline, plus the benchmark kernels of the repository that compute something.
It proves what each piece promises.

- **Rings.**
  - `SimpleRing`: `SimpleRingBuffer`, exactly as written. A second class,
    `CountingRingBuffer`, is the intended ring; the block pool uses it.
  - `WaitFreeRing`: the single-producer/single-consumer ring `WFSimpleRingBuffer`, seen
    by one thread.
  - `DisruptorRing`: `DRingBuffer`, with its two-phase claim/commit protocol. The
    protocol invariant is that every active consumer cursor lies in `(head, fhead]`.
    From it, the slot `enqueuePrepare` hands the producer is never one a consumer has
    claimed and not yet committed.
- **Blocks.** `LinesBlocks`: `BlocksBuffer`, `LinesBlock` (copy assignment and swap) and
  the free-list `LinesBlockPool`. A pointer into a buffer is a byte offset. A
  `string_view` is a `LineRef`: its offset plus the bytes it shows.
- **Filling and counting.**
  - `Reading`: the reader interface, an abstract source of lines. It records every
    `setBuffer` window it is offered.
  - `ProcTools` and `BaseMT`: the block fill with its linear layout, the match count and
    the counter sum.
  - `SeqProc`: the sequential processor. Its total equals the number of matching input
    lines, whatever `maxLines` is.
- **Matching.**
  - `Wildcard`: the `isMatch` wrapper, and a reference definition of `*`/`?` glob
    matching. This is the `*` and `?` part of the pattern matching notation of
    POSIX.1-2017, Shell and Utilities, sections 2.13.1 and 2.13.2.
  - `MyWildcard`: the single-saved-star matcher, shown equal to the reference for texts
    without `*` and NUL.
  - `ReplaceText` and `RegexWildcard`: `replaceAll`, the glob-to-regex table and the
    one-entry pattern cache.
- **Memory-mapped reader.** `MMapReading`: `MMapReader::readLine` over the mapped bytes.
  Repeated reads partition the input.
- **Benchmarks.**
  - `MiscBench`: seven string-reversal variants, all equal to one reverse function, and
    the summation loops.
  - `ContainersBench`: `hashCombine`, the hash-caching `SomeArgs`, whose `!=` shortcut is
    sound, and the vector search.
  - `Traversals`: row-major and column-major matrix sums, which agree.

Quirks of the code are modelled as written:
- `SimpleRingBuffer::size()` and `capacity()` return `bool` (see Findings).
- In `RE_REPLACE`, `{` is listed twice and `}` not at all, so a `{` becomes `\\}`
  (`RegexWildcard.TranslateBrace`).
- The linear block layout breaks the slot assertion of `LinesBlock::operator=`
  (`BaseMT.LinearFillLeavesSlots`), so that assertion is kept as a precondition.

Where the files disagree, the model follows the evident meaning:
- `LinesBlockPool::reset` calls `_freeBlocks.reset()`, which the ring does not declare;
  it is modelled as the ring's `clear()`.
- `proctools.cpp` uses a block with `maxLines()`, `clear()` and `addLine()`, which
  `linesblock.h` does not have. It is modelled as `ProcTools.BoundedLinesBlock`, a
  bounded list of lines over a `BlocksBuffer`.
- The constructor of `BaseMTProcessor` is declared with three arguments in
  `basemtproc.h` and defined with two in `basemtproc.cpp`. The model takes the header's
  three.
- `mywildcard.h` declares `isMatch` as an override, while `mywildcard.cpp` defines
  `isMatchImpl`, the backend hook of `wildcard.h`. `MyWildcard.IsMatchImpl` follows
  the `.cpp`: it is the backend behind the `Wildcard.IsMatch` wrapper.

## Model

| member | source | states |
|---|---|---|
| SimpleRing.SimpleRingBuffer.constructor | fwcmatch/src/ringbuffer.h:16-17 | a ring of `capacity` slots that starts empty |
| SimpleRing.SimpleRingBuffer.Size | fwcmatch/src/ringbuffer.h:22 | `size()` as declared is true exactly when the counter is non-zero |
| SimpleRing.SimpleRingBuffer.Capacity | fwcmatch/src/ringbuffer.h:23 | `capacity()` as declared is true exactly when there is a slot |
| SimpleRing.SimpleRingBuffer.Empty | fwcmatch/src/ringbuffer.h:24 | `empty()` compares 0 with the bool `size()`, which holds exactly when nothing is held |
| SimpleRing.SimpleRingBuffer.Full | fwcmatch/src/ringbuffer.h:25 | with at least one slot, `full()` holds as soon as anything is held; with none, when nothing is |
| SimpleRing.SimpleRingBuffer.IncrementAsWritten | fwcmatch/src/ringbuffer.h:57-61 | comparing against the bool capacity sends every index to 0 |
| SimpleRing.SimpleRingBuffer.Clear | fwcmatch/src/ringbuffer.h:27-29 | head, tail and size become 0; the stored values are untouched |
| SimpleRing.SimpleRingBuffer.Push | fwcmatch/src/ringbuffer.h:31-38 | on a non-full ring, `v` is written at the tail slot and no other slot changes; size grows by one and `top()` returns `v` |
| SimpleRing.SimpleRingBuffer.Pop | fwcmatch/src/ringbuffer.h:40-46 | on a non-empty ring, size drops by one and head moves on; the contents are untouched |
| SimpleRing.SimpleRingBuffer.Top | fwcmatch/src/ringbuffer.h:48-49 | on a non-empty ring, the value at the head slot, which as written is always slot 0 |
| SimpleRing.TwoSlotsHoldOne | fwcmatch/src/ringbuffer.h:22-38 | a two-slot ring is full after one push, so it never holds a second value |
| SimpleRing.Increment | fwcmatch/src/ringbuffer.h:57-61 | the index step yields 0 or idx + 1, and stays below a non-zero capacity |
| SimpleRing.CountingRingBuffer.Push | fwcmatch/src/ringbuffer.h:31-38 | with counting `size()`: on a non-full ring, the contents gain `v` at the end |
| SimpleRing.CountingRingBuffer.Pop | fwcmatch/src/ringbuffer.h:40-46 | with counting `size()`: on a non-empty ring, the oldest value leaves |
| SimpleRing.CountingRingBuffer.Top | fwcmatch/src/ringbuffer.h:48-49 | with counting `size()`: the oldest value |
| SimpleRing.CountingRingBuffer.Clear | fwcmatch/src/ringbuffer.h:27-29 | with counting `size()`: the contents become empty and the slots are untouched |
| SimpleRing.TwoSlotsHoldTwo | fwcmatch/src/ringbuffer.h:31-49 | the counting ring with two slots holds two values and returns them first in, first out |
| WaitFreeRing.WFSimpleRingBuffer.constructor | fwcmatch/src/wfringbuffer.h:20-22 | `capacity + 1` slots, empty |
| WaitFreeRing.WFSimpleRingBuffer.Occupancy | fwcmatch/src/wfringbuffer.h:27-48 | the number of held values is below the slot count, and is 0 exactly when head == tail |
| WaitFreeRing.WFSimpleRingBuffer.Capacity | fwcmatch/src/wfringbuffer.h:50 | `capacity()` reports the slot count, which exceeds the occupancy |
| WaitFreeRing.WFSimpleRingBuffer.Increment | fwcmatch/src/wfringbuffer.h:64-66 | the next index wraps to 0 after the last slot and stays in range |
| WaitFreeRing.WFSimpleRingBuffer.Push | fwcmatch/src/wfringbuffer.h:27-37 | succeeds iff the advanced tail is not head, i.e. iff occupancy is below the requested capacity; on success `v` is appended at the tail slot, otherwise nothing changes |
| WaitFreeRing.WFSimpleRingBuffer.Pop | fwcmatch/src/wfringbuffer.h:39-48 | fails and leaves `v` and the state unchanged iff head == tail; otherwise yields the oldest value and drops it |
| WaitFreeRing.WFSimpleRingBuffer.Clear | fwcmatch/src/wfringbuffer.h:53-56 | empties the ring without touching the stored values |
| WaitFreeRing.FillThenDrain | fwcmatch/src/wfringbuffer.h:20-48 | a ring built for n values accepts exactly n pushes before refusing one, and the pops return them in push order |
| DisruptorRing.DRingBuffer.constructor | fwcmatch/src/dringbuffer.h:24-30 | requires capacity > 1 and maxConsumers > 0; all cursors 0, all consumers idle |
| DisruptorRing.DRingBuffer.Reset | fwcmatch/src/dringbuffer.h:34-37 | cursors back to 0, every consumer idle, buffer contents unchanged, invariant kept |
| DisruptorRing.DRingBuffer.EnqueuePrepare | fwcmatch/src/dringbuffer.h:39-42 | on a non-full ring, returns slot `tail mod capacity`, which differs from every slot claimed by an active consumer |
| DisruptorRing.DRingBuffer.EnqueueCommit | fwcmatch/src/dringbuffer.h:44-46 | publishes the prepared slot: tail grows by one, head and fhead stay, and the protocol invariant is kept |
| DisruptorRing.DRingBuffer.DequeuePrepare | fwcmatch/src/dringbuffer.h:48-56 | for an idle consumer on a non-empty ring, returns slot `old fhead mod capacity`, advances fhead, and records the new fhead as that consumer's cursor |
| DisruptorRing.DRingBuffer.DequeueCommit | fwcmatch/src/dringbuffer.h:58-67 | marks the consumer idle; head becomes fhead when no consumer is active, otherwise one below the least active cursor; head never decreases |
| DisruptorRing.DRingBuffer.MinConsumerPos | fwcmatch/src/dringbuffer.h:95-101 | the least cursor, which is NULL_POS iff no consumer is active |
| DisruptorRing.DRingBuffer.Size | fwcmatch/src/dringbuffer.h:77-82 | `size()` counts from the committed head and never exceeds capacity |
| DisruptorRing.OccupancyQueries | fwcmatch/src/dringbuffer.h:77-82 | on a valid ring: `capacity()` is above 1; `empty()` holds iff every value `size()` counts is claimed; a ring with `size()` 0 is empty; `full()` iff `size()` reaches `capacity()`, and full and empty together only when every slot is claimed but uncommitted |
| DisruptorRing.DRingBuffer.At | fwcmatch/src/dringbuffer.h:91-93 | a cursor maps to a slot inside the buffer |
| DisruptorRing.DRingBuffer.Apply | fwcmatch/src/dringbuffer.h:70-75 | every stored value is replaced by the function of it |
| DisruptorRing.ClaimsDisjoint | fwcmatch/src/dringbuffer.h:48-56 | two active consumers never hold the same slot |
| DisruptorRing.ClaimedButUncommitted | fwcmatch/src/dringbuffer.h:77-82 | after one item is claimed and before commit, `empty()` holds while `size()` is 1; after the commit, size is 0 |
| LinesBlocks.BlocksBuffer.constructor | fwcmatch/src/linesblock.h:22-28 | `size` zeroed blocks of `blockSize` bytes |
| LinesBlocks.BlocksBuffer.Resize | fwcmatch/src/linesblock.h:35-39 | requires bs > 0; afterwards size is n*bs, blockSize is bs, numOfBlocks is n, and the old prefix is kept |
| LinesBlocks.BlocksBuffer.Swap | fwcmatch/src/linesblock.h:41-44 | bytes, capacity and block size are exchanged exactly |
| LinesBlocks.BlocksBuffer.Clear | fwcmatch/src/linesblock.h:46 | the buffer becomes empty; capacity and block size are kept |
| LinesBlocks.BlocksBuffer.NumOfBlocks | fwcmatch/src/linesblock.h:60 | the number of whole blocks that fit in the current size |
| LinesBlocks.BlocksBuffer.Get | fwcmatch/src/linesblock.h:63-72 | requires idx*blockSize < size; returns offset idx*blockSize, inside the buffer |
| LinesBlocks.Resized | fwcmatch/src/linesblock.h:38 | vector resize keeps the common prefix and zero-fills any growth |
| LinesBlocks.LinesBlock.constructor | fwcmatch/src/linesblock.h:92 | an empty buffer with the default block size and no lines |
| LinesBlocks.LinesBlock.Assign | fwcmatch/src/linesblock.h:94-129 | an empty source buffer copies the views and clears this buffer; a size mismatch the capacity cannot absorb raises logic_error with nothing changed; in every other case the copy happens, without reallocation, keeping the storage and taking the source's block size exactly when the sizes differed; the buffer takes the source's size, line i starts block i and holds the bytes the source view covered, so the texts and the line count are kept; self-assignment ends with no lines and the bytes unchanged |
| LinesBlocks.LinesBlock.MatchSize | fwcmatch/src/linesblock.h:101-113 | the copy goes ahead iff the sizes agree or the storage can hold the source's size; a resize keeps the storage, takes the source's block size and size, and keeps the common prefix; otherwise nothing changes |
| LinesBlocks.LinesBlock.CopyLines | fwcmatch/src/linesblock.h:116-126 | the copy loop puts line i at the start of block i, with the bytes the source view showed |
| LinesBlocks.SpliceSlot | fwcmatch/src/linesblock.h:124-125 | copying a line to the start of the next block keeps every earlier copied view showing its bytes and adds a view of the copy |
| LinesBlocks.LinesBlock.Swap | fwcmatch/src/linesblock.h:131-134 | buffers and line lists are exchanged exactly |
| LinesBlocks.LinesBlockPool.constructor | fwcmatch/src/linesblock.h:151-165 | numOfBlocks fresh empty blocks, nothing free until reset |
| LinesBlocks.LinesBlockPool.Reset | fwcmatch/src/linesblock.h:168-178 | every block becomes free, in order; with allocBuffers every buffer holds maxLines blocks of blockSize bytes |
| LinesBlocks.LinesBlockPool.ResetBlock | fwcmatch/src/linesblock.h:172-177 | block i joins the end of the free list and, with allocBuffers, its buffer becomes maxLines blocks of blockSize bytes; otherwise the buffer is untouched |
| LinesBlocks.LinesBlockPool.AllocBlock | fwcmatch/src/linesblock.h:181-189 | null and no change on an empty free list, otherwise the oldest free block, which leaves the list |
| LinesBlocks.LinesBlockPool.FreeBlock | fwcmatch/src/linesblock.h:192-194 | the block joins the end of the free list |
| LinesBlocks.DrainAll | fwcmatch/src/linesblock.h:181-189 | allocBlock called once per free block and once more hands out the free list in order and then null, leaving it empty |
| LinesBlocks.DrainAfterReset | fwcmatch/src/linesblock.h:168-189 | after reset, with or without buffer allocation, allocBlock hands out each block exactly once, in order, and then null; with allocation every buffer then holds maxLines blocks of the pool's block size |
| Reading.FileReader.ReadLine | fwcmatch/src/filereader.h:26 | the next input line, or None exactly at the end of the input; a reader that needs a buffer places it at the last window offered |
| Reading.FileReader.SetBuffer | fwcmatch/src/filereader.h:22 | records the window offered for the next read |
| Reading.WindowsInside | fwcmatch/src/basemtproc.h:64-75 | lines of at most blockSize bytes keep each of the first maxLines linear windows inside maxLines*blockSize bytes |
| Reading.LinearFillStep | fwcmatch/src/proctools.cpp:24-32 | a line stored in the window offered at the end of the previous line extends the fill by that line and that window, and moves the end by the line's size |
| Reading.LinearFillMeans | fwcmatch/src/proctools.cpp:19-33 | a fill built that way places every view linearly and offered exactly the linear windows, its end being the total size of the lines |
| Reading.LinearFillDone | fwcmatch/src/proctools.cpp:19-33 | a fill whose last read found no line offered one more window, at the end of the stored lines |
| Reading.LinearWindowsAt | fwcmatch/src/proctools.cpp:24-25 | read j of a linear fill is offered blockSize bytes at the total size of lines 0..j-1 |
| Reading.LinearlyPlacedAt | fwcmatch/src/proctools.cpp:24-32 | in a linear layout, view k starts at the total size of views 0..k-1 |
| Reading.LinearWindowsAppend | fwcmatch/src/proctools.cpp:32 | storing a further line leaves the windows of the earlier reads unchanged |
| Reading.TextsAppend | fwcmatch/src/proctools.cpp:27-32 | storing the view of the next input line extends the stored texts by that line |
| ProcTools.BoundedLinesBlock.Alloc | fwcmatch/src/seqproc.cpp:17 | room for maxLines lines, with maxLines blocks of bytes when the reader needs a buffer |
| ProcTools.BoundedLinesBlock.AddLine | fwcmatch/src/proctools.cpp:32 | appends one line below the maxLines bound |
| ProcTools.BoundedLinesBlock.Clear | fwcmatch/src/proctools.cpp:18 | drops all lines and keeps the bound |
| ProcTools.ReadInLinesBlock | fwcmatch/src/proctools.cpp:9-34 | clears the block, then appends the reader's next lines in order: at most maxLines of them, stopping at the first null read, which adds nothing; with needsBuffer, read i gets a window of blockSize bytes at the sum of the sizes of lines 0..i-1; without it, no window is set |
| ProcTools.FilterBlock | fwcmatch/src/proctools.h:24-33 | the number of the block's lines that isMatch accepts, at most the line count, 0 for an empty block; a function of the lines, so the block is unchanged |
| ProcTools.CountMatches | fwcmatch/src/proctools.h:28-30 | the count is 0 iff no text matches, equals the length iff all do, and never exceeds it |
| ProcTools.CountMatchesAppend | fwcmatch/src/seqproc.cpp:26-34 | counting distributes over concatenation, so blocks can be counted one at a time |
| SeqProc.SequentialProcessor.constructor | fwcmatch/src/seqproc.cpp:14-18 | requires maxLines > 0; one block of maxLines lines of 4 KiB each when a buffer is needed |
| SeqProc.SequentialProcessor.Execute | fwcmatch/src/seqproc.cpp:20-37 | the loop ends with the input consumed, and returns the number of matching input lines whatever maxLines is; 0 for an empty input |
| SeqProc.FruitScenario | fwcmatch/src/seqproc.cpp:20-37 | with any backend of glob semantics, of apple, banana, apricot and cherry, pattern `a*` counts 2 |
| SeqProc.FruitGlobs | fwcmatch/src/mywildcard.cpp:21-32 | `a*` matches apple and apricot and not banana or cherry |
| SeqProc.GlobStarMatchesAll | fwcmatch/src/mywildcard.cpp:21-32 | the pattern `*` matches every text, so Execute then counts every line |
| BaseMT.BaseMTProcessor.constructor | fwcmatch/src/basemtproc.cpp:11-18 | one zero counter per consumer thread |
| BaseMT.BaseMTProcessor.ReadInLinesBlock | fwcmatch/src/basemtproc.h:58-83 | at most maxLines lines, the reader's next ones in order; an empty block means the first read hit the end; with needsBuffer, window i starts at the total size of lines 0..i-1, and without it none is set |
| BaseMT.FillInitialisedBlock | fwcmatch/src/basemtproc.h:64-100 | after initLinesBlock, lines no longer than blockSize keep every read window inside the block buffer |
| BaseMT.LinearFillLeavesSlots | fwcmatch/src/basemtproc.h:73-74 | the linear layout puts line 1 outside slot 1, against the assertion of LinesBlock's copy assignment |
| BaseMT.BaseMTProcessor.FilterBlock | fwcmatch/src/basemtproc.h:85-94 | the number of the block's lines that match, at most the line count |
| BaseMT.BaseMTProcessor.InitLinesBlock | fwcmatch/src/basemtproc.h:96-101 | resizes the buffer to maxLines blocks only when a buffer is needed, and otherwise leaves it alone |
| BaseMT.BaseMTProcessor.CalcFinalResult | fwcmatch/src/basemtproc.h:103-107 | the sum of the counters, at least each counter |
| BaseMT.Accumulate | fwcmatch/src/basemtproc.h:105-106 | a left fold with + equals the initial value plus the sum |
| Wildcard.IsMatch | fwcmatch/src/wildcard.h:13-25 | an empty pattern matches every text, and an empty text matches nothing but the empty pattern and `*` |
| Wildcard.IsMatchAgainstGlob | fwcmatch/src/wildcard.h:13-25 | with a backend of glob semantics, the wrapper matches iff the pattern is empty, or glob matches and the text is non-empty or the pattern is one character: it departs from glob only on a non-empty text with the empty pattern and on the empty text with two or more stars |
| Wildcard.NormalisationDeparts | fwcmatch/src/wildcard.h:14-22 | `("","")` and `("","*")` match and `("","a")` does not; `("a","")` matches and `("","**")` does not, both against glob matching |
| Wildcard.GlobEmptyText | fwcmatch/src/mywildcard.cpp:46-53 | the empty text glob-matches exactly the all-star patterns |
| MyWildcard.IsMatchImpl | fwcmatch/src/mywildcard.cpp:7-54 | for a text without NUL, the loop computes the as-written scan; without `*` in the text and NUL in the pattern, that is glob matching |
| MyWildcard.MatchAsWrittenIsGlob | fwcmatch/src/mywildcard.cpp:13-53 | for texts without `*` and NUL, the as-written matcher decides glob semantics, as its comments say |
| MyWildcard.QuestionExamples | fwcmatch/src/mywildcard.cpp:7-54 | `("abc","a?c")` and `("abc","a??")` match; `("abc","a???")` does not |
| MyWildcard.StarExamples | fwcmatch/src/mywildcard.cpp:7-54 | `("abc","a*c")` and `("abcabc","*c")` match |
| MyWildcard.StarInTextCounterexample | fwcmatch/src/mywildcard.cpp:16-21 | text `*ab`, pattern `*b`: the as-written matcher says no, glob says yes |
| MyWildcard.MatchCorrectedIsGlob | fwcmatch/src/mywildcard.cpp:15-53 | with the star branch first and the pattern end tested by length, the scan decides glob semantics for every text |
| MyWildcard.TailOkIsAllStars | fwcmatch/src/mywildcard.cpp:48-53 | after the text runs out, the result is true iff the rest of the pattern is all stars |
| ReplaceText.Find | fwcmatch/src/regexwildcard.cpp:40 | the first occurrence at or after pos, or none |
| ReplaceText.ReplaceAll | fwcmatch/src/regexwildcard.cpp:38-44 | leftmost, non-overlapping replacement of every occurrence of a non-empty `from`; inserted text is not rescanned |
| ReplaceText.ReplacedUnchanged | fwcmatch/src/regexwildcard.cpp:40 | without an occurrence of `from`, the text comes back unchanged |
| ReplaceText.ReplaceNoRescan | fwcmatch/src/regexwildcard.cpp:41-42 | replacing `a` by `aa` in `a` gives `aa`: search resumes after the inserted text |
| ReplaceText.ReplacedCharConcat | fwcmatch/src/regexwildcard.cpp:38-44 | a one-character `from` is replaced piecewise over a concatenation |
| RegexWildcard.TranslatePlain | fwcmatch/src/regexwildcard.cpp:15-33 | a glob with none of the table's characters is its own regex text |
| RegexWildcard.Translate | fwcmatch/src/regexwildcard.cpp:58-61 | the regex text is the table applied in order, and never shorter than the glob |
| RegexWildcard.TranslateConcat | fwcmatch/src/regexwildcard.cpp:15-33 | every table entry rewrites one character, so the translation of a concatenation is the concatenation of the translations |
| RegexWildcard.TranslateQuestion | fwcmatch/src/regexwildcard.cpp:15-33 | `a?c` becomes `a.c` |
| RegexWildcard.TranslateDotStar | fwcmatch/src/regexwildcard.cpp:15-33 | `.` is escaped before `*` is rewritten, so `a.b*` becomes `a\.b.*` |
| RegexWildcard.TranslateBrace | fwcmatch/src/regexwildcard.cpp:23-24 | `{` is listed twice, so `{` becomes the three characters `\\}` |
| RegexWildcard.REMatch.MkRegExPattern | fwcmatch/src/regexwildcard.cpp:52-67 | the cached pattern is kept when it is the same; otherwise the pattern is cached and its regex text is the table applied in order |
| MMapReading.FindNewline | fwcmatch/src/mmapreader.cpp:82-83 | the first `\n` at or after the cursor, or none |
| MMapReading.LineAt | fwcmatch/src/mmapreader.cpp:79-99 | each read consumes at least one byte and no more than remain |
| MMapReading.LineAtShape | fwcmatch/src/mmapreader.cpp:79-99 | the line and its terminator are the next bytes; the line holds no `\n`; the terminator is `\n`, `\r\n` (a line never ends in `\r` before a bare `\n`) or nothing, and nothing exactly when no `\n` is left, the line then running to the end |
| MMapReading.LineAtCovers | fwcmatch/src/mmapreader.cpp:98-99 | the cursor advances over exactly the line and its terminator, and a cut without a terminator runs to the end |
| MMapReading.MeasureLine | fwcmatch/src/mmapreader.cpp:79-96 | the memchr and `\r` step-back compute the size of the cut's line and of its terminator, and the line is the bytes at the cursor |
| MMapReading.LinesStep | fwcmatch/src/mmapreader.cpp:98-101 | a read takes the first of the lines still to be read off their sequence |
| MMapReading.MMapReader.ReadLine | fwcmatch/src/mmapreader.cpp:69-102 | no line iff the cursor is at or past the end; otherwise the next line, with the cursor moved past its terminator |
| MMapReading.CutsPartition | fwcmatch/src/mmapreader.cpp:99 | repeated reads partition the input: lines with their terminators put back give the bytes, and only the last lacks one |
| MMapReading.OneCarriageReturnStripped | fwcmatch/src/mmapreader.cpp:88-91 | `a\r\r\n` yields `a\r`: only one `\r` is stripped |
| MMapReading.EmptyLine | fwcmatch/src/mmapreader.cpp:86-92 | `\n` yields a present, empty line |
| MMapReading.TrailingCarriageReturnKept | fwcmatch/src/mmapreader.cpp:94-96 | with no `\n` left, a trailing `\r` stays in the line |
| MMapReading.CarriageReturnOnly | fwcmatch/src/mmapreader.cpp:88-92 | `\r\n` yields an empty line |
| MiscBench.Reversed | microbench/misc.cpp:56-123 | the reverse keeps the length and puts character k at place n-1-k |
| MiscBench.ReversedTwice | microbench/misc.cpp:56-123 | reversing twice gives the string back |
| MiscBench.ByForLoop | microbench/misc.cpp:99-108 | the string becomes its reverse; "" is unchanged |
| MiscBench.ByForLoop2 | microbench/misc.cpp:110-123 | the string becomes its reverse; "" is unchanged |
| MiscBench.ByForLoopConst | microbench/misc.cpp:71-84 | returns the reverse; "" for "" |
| MiscBench.ByForLoopConst2 | microbench/misc.cpp:86-97 | returns the reverse of a copy; the argument is a value and so unchanged |
| MiscBench.ByContructor | microbench/misc.cpp:66-69 | the characters read backwards are the reverse |
| MiscBench.ByStdReverse | microbench/misc.cpp:62-64 | the string becomes its reverse |
| MiscBench.ByStdReverseConst | microbench/misc.cpp:56-60 | returns the reverse of a copy |
| MiscBench.ReversalVariantsAgree | microbench/misc.cpp:56-123 | all seven variants give the same string for the same input: the reverse of that input |
| MiscBench.TestReverse.RunConst | microbench/misc.cpp:125-131 | result_strs has one entry per input, entry i the result for input i |
| MiscBench.TestReverse.Run | microbench/misc.cpp:133-139 | result_strs has one entry per input, entry i the in-place result on input i |
| MiscBench.TestFunc.RunLambda | microbench/misc.cpp:26-41 | the sum of func(i, str) for i below iters (runStdFunc runs the same loop) |
| MiscBench.UseAsIsWithoutFunc | microbench/misc.cpp:180-195 | the inline loop computes the same sum as runLambda with the benchmark lambda |
| MiscBench.BenchSum | microbench/misc.cpp:156-158 | the benchmark sum is n(n-1)/2 plus n times dep1 or dep2, by emptiness of str |
| MiscBench.BenchResult | microbench/misc.cpp:150-195 | with dep1 = 100, dep2 = 200 and "test1", every variant reports 728576, which fits in int |
| ContainersBench.HashCombine | microbench/containers.cpp:23-30 | no arguments leave the seed; one argument is one combining step in 64-bit arithmetic |
| ContainersBench.HashCombineAppend | microbench/containers.cpp:25-30 | the fold runs left to right: combining a + b is combining a and then b |
| ContainersBench.SomeArgs.SetStr | microbench/containers.cpp:55 | the accessor clears the ready flag; the field is written through it |
| ContainersBench.SomeArgs.SetV1 | microbench/containers.cpp:56 | the accessor clears the ready flag; the field is written through it |
| ContainersBench.SomeArgs.SetV2 | microbench/containers.cpp:57 | the accessor clears the ready flag; the field is written through it |
| ContainersBench.SomeArgs.SetB1 | microbench/containers.cpp:58 | the accessor clears the ready flag; the field is written through it |
| ContainersBench.SomeArgs.ComputeHash | microbench/containers.cpp:94-98 | `_hash` recomputes the cached value from seed 0 over the four fields |
| ContainersBench.SomeArgs.Hash | microbench/containers.cpp:60-68 | cached or not, the result is the hash of the current fields; a ready cache is returned without recomputing |
| ContainersBench.ArgsDiffer | microbench/containers.cpp:70-72 | some of the four fields differ exactly when the field values differ |
| ContainersBench.SomeArgs.NotEqual | microbench/containers.cpp:70-72 | `notEqual` holds exactly when the two objects' fields differ |
| ContainersBench.HashDiffersSound | microbench/containers.cpp:74-77 | different hashes imply different fields |
| ContainersBench.EqualHashNotEqualArgs | microbench/containers.cpp:74-77 | equal hashes do not imply equal fields |
| ContainersBench.SomeArgs.NotEqualByHash | microbench/containers.cpp:78-80 | true iff the hashes differ, and then notEqual holds |
| ContainersBench.SomeArgs.NotEqualByHashCached | microbench/containers.cpp:81-83 | the same through the caches, which are then ready |
| ContainersBench.FirstIndexOf | microbench/containers.cpp:151-156 | the first position holding the key, or none |
| ContainersBench.SearchInVector | microbench/containers.cpp:151-156 | the value of the first entry with key findStr, 0 when no entry has it |
| ContainersBench.SearchFindsPosition | microbench/containers.cpp:144-147 | with distinct keys, searching for the key at pos finds pos |
| Traversals.Matrix.constructor | cpucache/traversals.cpp:18-23 | rows and columns as given, every entry 0 |
| Traversals.InitMatrix | cpucache/traversals.cpp:37-45 | `m[i][j] = i*cols + j + 1` |
| Traversals.SumRowMajor | cpucache/traversals.cpp:48-56 | the sum of all entries, from 0 |
| Traversals.SumColumnMajor | cpucache/traversals.cpp:59-67 | the sum of all entries, from 0 |
| Traversals.TraversalOrderIrrelevant | cpucache/traversals.cpp:48-67 | column by column gives the same total as row by row |
| Traversals.NumberedTotal | cpucache/traversals.cpp:37-67 | after initMatrix, twice the total is n(n+1) with n = rows*cols |
| Traversals.Traverse | cpucache/traversals.cpp:69-93 | either order reports n(n+1)/2 with n = rows*cols |

## Left out

- The threaded strategies, `BaseMTProcessor::execute` and the producer/consumer loops
  built on these pieces are not modelled. Their point is concurrency, and their
  sequential parts are modelled above.
- The atomics of `WFSimpleRingBuffer` are plain fields. The model says nothing about
  memory ordering or visibility between threads.
- `MMapReader::open`/`close` (`open`, `fstat`, `mmap`, `munmap`) are not modelled; the
  mapping is a given sequence of characters.
- The fgets and stream readers are not modelled. A reader is an abstract
  `Reading.FileReader` that yields the file's lines and records each `setBuffer` window.
  It does not write the line bytes into the block buffer, so a `LineRef` carries the
  bytes it shows.
- The regex engine (`regex::assign`, `regex_match`) is not modelled, nor is the fnmatch
  backend. `REMatch` keeps the translated regex text. The thread-local cache is one
  `REMatch` object per thread.
- `errorAndStop` (process exit) is not modelled. Fatal conditions are preconditions.
- `std::hash` is not modelled: it is a given function per field type (`Hasher`).
- Random input generators and the benchmark harness are not modelled.
- `SimpleRing.SimpleRingBuffer.Push`: the precondition `!full()` is the source's
  assertion. Under it, the as-written ring holds at most one value.
- `DisruptorRing.DRingBuffer.EnqueueCommit`: requires `!full()` and a tail below
  NULL_POS. The source does not check either. It relies on the preceding
  `enqueuePrepare`, and 64-bit cursor overflow is not modelled.
- `DisruptorRing.DRingBuffer.Apply`: the function returns the new value instead of
  updating the slot through a reference.
- `LinesBlocks.LinesBlock.Assign`: the source asserts that line i lies in block i of
  the source buffer, and `memcpy` needs the line to fit inside the destination buffer.
  Both are required as preconditions rather than proved; a linearly filled block does
  not meet them. The model also requires each line to be shorter than a destination
  block, which the source does not demand. This matters only when two buffers of
  equal size have different block sizes. Without it, a later copy could overwrite the
  tail of an earlier line, and the copied views would no longer show their bytes.
- `LinesBlocks.BlocksBuffer.Resize`: vector capacity is modelled as growing exactly to
  the requested size. The library may reserve more.
- `LinesBlocks.LinesBlockPool.Reset`: the pool's free list is the counting ring, and
  `_freeBlocks.reset()` is its `clear()`. With the as-written ring, a second push in
  `reset` would fail its assertion.
- `ProcTools.ReadInLinesBlock`: requires a non-empty block buffer when the reader needs
  one, which is the assertion of `buffer.get(0)`.
- `BaseMT.BaseMTProcessor.ReadInLinesBlock`: requires a non-empty block buffer when the
  reader needs one, which is the assertion of `buffer.get(0)`.
- `MyWildcard.IsMatchImpl`: requires a text without NUL. With a NUL in the text the
  scan may compare the pattern's terminator against it and read past the terminator,
  which is undefined behaviour; this happens only when the scan reaches the end of the
  pattern at a NUL of the text.
- `MiscBench.TestReverse.Run`: the in-place function is given by its effect, as a
  function from string to string.
- `MiscBench.TestFunc.RunLambda`: 32-bit `int` overflow of the running sum is not
  modelled. `BenchResult` shows that the benchmark's own sum fits.
- `MiscBench.ByForLoopConst`: the `int` loop index cannot overflow in the model.
- `ContainersBench.SomeArgs.SetV2`: `v2` is an unbounded integer rather than a 32-bit
  `int`.
- `Traversals.SumRowMajor`: sums are over mathematical integers, so the `int` overflow
  at the larger benchmark sizes is not modelled.
- `Traversals.SumColumnMajor`: sums are over mathematical integers, so the `int`
  overflow at the larger benchmark sizes is not modelled.
- `BaseMT.BaseMTProcessor.CalcFinalResult`: `std::accumulate` over `size_t` counters
  wraps modulo 2^64; the model sums unbounded naturals, so that wrap-around is not
  modelled. It would need more than 2^64 matching lines.

## Findings

| source | as written | input that shows it | evidently intended | confidence | as-written member | corrected member |
|---|---|---|---|---|---|---|
| fwcmatch/src/ringbuffer.h:22-23 | `size()` and `capacity()` return `bool`, so `full()` and `increment` compare 0/1 values | a ring of 2 slots after one push: `full()` is true and the second push fails its assertion | `size_t` results: a bounded FIFO of `capacity` values | high; not executed | SimpleRing.TwoSlotsHoldOne | SimpleRing.TwoSlotsHoldTwo |
| fwcmatch/src/mywildcard.cpp:16-21 | the equality branch runs before the star branch, so a `*` in the text is consumed as a literal by a `*` of the pattern | text `*ab`, pattern `*b`: false, although glob matching says true | star branch first, giving glob matching for every text | medium; not executed | MyWildcard.StarInTextCounterexample | MyWildcard.MatchCorrectedIsGlob |
