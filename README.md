# LargeTextSort external merge sort, modelled in Dafny

LargeTextSort sorts a text file of lines of the form `"<number>. <text>"` that is larger than
memory. Lines are ordered by their text first and by their number second. It works in two steps:

1. `SplitAndSortChunks` reads the input line by line. Whenever `MaxLinesInMemory` lines have
   gathered, it sorts them with `LineComparer.Sort`, writes them to a new chunk file with
   `File.WriteAllLines` and clears the list. A non-empty remainder is flushed at the end.
2. `MergeChunks` merges the chunk files.
   - A single chunk file is copied.
   - Otherwise every file is opened as a `TempFile` and read in raw buffers by `ReadChunk`.
     `ReadChunk` splits each buffer on `"\r\n"` and carries the last piece over to the next
     read.
   - Each round, the merge writes the least non-blank current line and advances the run it
     came from.
   - When no run shows a line, the first run is closed and its file deleted.

The test-file generator guards its options with `Validator.ValidateOptions`.

Modules, in dependency order:

| file | module | models |
|---|---|---|
| `outcomes.dfy` | `Outcomes` | `Option` / `Result`, for nulls and exceptions |
| `net_text.dfy` | `NetText` | the .NET string operations used, plus `WriteAllLines` text with `"\r\n"` |
| `sorting.dfy` | `Sorting` | a sequential sort generic in a total preorder |
| `line_order.dfy` | `LineOrder` | `LineComparer`: `ParseLine`, `Compare`, `Sort` |
| `chunk_producer.dfy` | `ChunkProducer` | `SplitAndSortChunks`, `SaveSortedChunk` |
| `run_reader.dfy` | `RunReader` | the batches `ReadChunk` builds, and line reassembly |
| `temp_files.dfy` | `TempFiles` | the `TempFile` class and its reader-state invariant |
| `merge_state.dfy` | `MergeState` | the merge's dictionary, selection and progress invariant |
| `merge.dfy` | `Merge` | `ReadChunk` and `MergeChunks` as methods over `TempFile` objects |
| `generator.dfy` | `Generator` | `GeneratorOptions`, `ValidateOptions`, the generator constructor |
| `short_reads.dfy` | `ShortReads` | fixed-size buffer reads, and when they suit the merge |

Modelling decisions:
- Files are sequences of lines or characters.
- The reads of a chunk file are the non-empty blocks its stream returns; end of file is the end
  of that sequence.
- Text order is ordinal lexicographic order on `seq<char>`.
- `int.Parse` is decimal digits with optional sign and surrounding white space, and
  fails outside the 32-bit range.
- Merge bookkeeping is ghost state. This covers the lines each run still owes and the lines
  written so far.

## Model

| member | source | states |
|---|---|---|
| NetText.IndexOfFrom | Infrastructure/LineComparer.cs:31 | `IndexOf(". ")`: the result is -1 or an occurrence, and no occurrence lies before it |
| NetText.ParseInt32 | Infrastructure/LineComparer.cs:32 | `int.Parse` only ever yields a value in the 32-bit range |
| NetText.ParseDecimal | Infrastructure/LineComparer.cs:32 | parsing the decimal text of any number up to `int.MaxValue` gives back that number |
| NetText.TrimClean | LargeTextSort/LargeFileSorter.cs:205 | `Trim()` leaves a clean line as it is, and strips only the CR after it |
| NetText.TrimLineBreaksKeeps | LargeTextSort/LargeFileSorter.cs:274 | `Trim('\r', '\n')` removes exactly the leading and trailing CR/LF runs |
| NetText.SplitCrLf | LargeTextSort/LargeFileSorter.cs:265 | `Split("\r\n")` always yields at least one piece |
| NetText.SplitJoin | LargeTextSort/LargeFileSorter.cs:265 | joining the pieces of `Split("\r\n")` with `"\r\n"` gives back the text |
| NetText.SplitPiecesHaveNoCrLf | LargeTextSort/LargeFileSorter.cs:265 | no piece of `Split("\r\n")` contains `"\r\n"` |
| NetText.LinesText | LargeTextSort/LargeFileSorter.cs:126 | the text `WriteAllLines` writes is empty exactly when there are no lines |
| NetText.LinesTextAppend | LargeTextSort/LargeFileSorter.cs:229 | writing more lines appends their text: the text of `a + b` is the text of `a`, then of `b` |
| Sorting.SortBy | Infrastructure/LineComparer.cs:22-25 | the sorted sequence is a permutation of the input and ordered by any total preorder |
| Sorting.InsertBy | Infrastructure/LineComparer.cs:22-25 | inserting into a sorted sequence adds exactly that element and keeps it sorted |
| LineOrder.ParseLineSplitsAtFirstSeparator | Infrastructure/LineComparer.cs:29-35 | a line fails with `MissingSeparator` iff it has no `". "`; otherwise it splits at the first `". "` into `int.Parse` of the prefix and the text after the separator, and a bad number is an error |
| LineOrder.ParseFormatted | Infrastructure/LineComparer.cs:29-35 | a line built as `"<n>. <text>"` parses back to `n` and `text` |
| LineOrder.CompareText | Infrastructure/LineComparer.cs:10 | the text comparison returns -1, 0 or 1 |
| LineOrder.Compare | Infrastructure/LineComparer.cs:5-18 | the comparison succeeds iff both lines parse, and then returns -1, 0 or 1 |
| LineOrder.CompareTextFirst | Infrastructure/LineComparer.cs:10-17 | for different texts, the result is the text comparison and the numbers are ignored |
| LineOrder.CompareNumberTieBreak | Infrastructure/LineComparer.cs:12-15 | for equal texts, the order is the numeric order of the numbers |
| LineOrder.AppleBeforeBanana | Infrastructure/LineComparer.cs:10-17 | `"7. Apple"` comes before `"12. Banana"`, and `"12. Apple"` before `"7. Banana"`: the text decides, whatever the numbers |
| LineOrder.NumericTieBreakExample | Infrastructure/LineComparer.cs:12-15 | `"7. Apple"` comes before `"12. Apple"`, in numeric rather than string order |
| LineOrder.CompareReflexive | Infrastructure/LineComparer.cs:5-18 | every well-formed line compares equal to itself |
| LineOrder.CompareAntisymmetric | Infrastructure/LineComparer.cs:5-18 | `Compare(a, b)` is the negation of `Compare(b, a)` |
| LineOrder.CompareTotal | Infrastructure/LineComparer.cs:5-18 | any two well-formed lines are ordered one way or the other |
| LineOrder.CompareTransitive | Infrastructure/LineComparer.cs:5-18 | the order is transitive, and strictly so when either step is strict |
| LineOrder.AdjacentIsSorted | Tests/FileIsSortedIntegrationTest.cs:27-31 | every pair in order iff every adjacent pair has `Compare <= 0`, the check the test makes |
| LineOrder.KeyOrderIsTotalPreorder | Infrastructure/LineComparer.cs:23-24 | ordering by text and then by number is a total preorder |
| LineOrder.KeySortedIsSorted | Infrastructure/LineComparer.cs:20-27 | a sequence ordered by (text, number) is in `Compare` order |
| LineOrder.SortWellFormed | Infrastructure/LineComparer.cs:20-27 | sorting well-formed lines gives a permutation in `Compare` order |
| LineOrder.FirstError | Infrastructure/LineComparer.cs:31-32 | the error reported for a batch is the parse error of one of its lines |
| LineOrder.Sort | Infrastructure/LineComparer.cs:20-27 | `Sort` fails iff some line does not parse; otherwise it returns a same-length permutation in which every pair, and every adjacent pair, is in `Compare` order |
| ChunkProducer.ChunkSize | LargeTextSort/LargeFileSorter.cs:75 | the flush threshold is `MaxLinesInMemory` when that is positive; a setting below 1 flushes after every line |
| ChunkProducer.Batches | LargeTextSort/LargeFileSorter.cs:62-90 | the batches together are the input in order, and there are none iff the input is empty |
| ChunkProducer.BatchSizes | LargeTextSort/LargeFileSorter.cs:75-87 | every batch has 1 to `size` lines, and all but the last have exactly `size` |
| ChunkProducer.BatchCount | LargeTextSort/LargeFileSorter.cs:62-90 | n batches hold more than (n-1)·size and at most n·size lines |
| ChunkProducer.SaveSortedChunk | LargeTextSort/LargeFileSorter.cs:121-129 | saving fails iff a line of the batch does not parse; otherwise it writes the comparer-sorted batch |
| ChunkProducer.SplitAndSortChunks | LargeTextSort/LargeFileSorter.cs:62-90 | the loop fails iff the input has a malformed line; otherwise the chunk files are, in order, the sorted batches of the input |
| ChunkProducer.BatchesOfFull | LargeTextSort/LargeFileSorter.cs:75-87 | full batches followed by a remainder are what the batching produces (loop invariant) |
| ChunkProducer.Flush | LargeTextSort/LargeFileSorter.cs:75-87 | flushing the current list extends the chunks by its sorted batch and keeps the invariant |
| ChunkProducer.ChunksKeepLines | LargeTextSort/LargeFileSorter.cs:121-126 | sorted batches together hold the same lines as the batches |
| ChunkProducer.SplitPartitionsInput | LargeTextSort/LargeFileSorter.cs:62-90 | the chunks partition the input (same multiset), none iff the input is empty, each sorted with 1 to `size` lines, all but the last full |
| RunReader.NextBatch | LargeTextSort/LargeFileSorter.cs:264-275 | a batch built from a read has at least one element |
| RunReader.SplitWithoutLineFeed | LargeTextSort/LargeFileSorter.cs:265 | a block without LF is not split |
| RunReader.SplitLines | LargeTextSort/LargeFileSorter.cs:265 | splitting the text of whole lines and a fragment yields those lines and the fragment |
| RunReader.BareLineFeed | LargeTextSort/LargeFileSorter.cs:267-274 | a read that is a lone LF, with an empty carry (the state after a CR), gives the batch `["", ""]`, which hands over no line |
| RunReader.Step | LargeTextSort/LargeFileSorter.cs:264-275 | from any reader position, the batch of one read hands over the next owed lines and leaves a consistent carry |
| RunReader.EndOfRun | LargeTextSort/LargeFileSorter.cs:257-262 | at end of file the carry is empty and no line is owed |
| RunReader.Reassembly | LargeTextSort/LargeFileSorter.cs:200-275 | from any consistent position, the batches of the remaining reads hand over exactly the owed lines |
| RunReader.RoundTrip | LargeTextSort/LargeFileSorter.cs:200-275 | for any split of `L1\r\n…Ln\r\n` into non-empty reads, the lines handed over are `L1…Ln` in order |
| RunReader.AlignedTail | LargeTextSort/LargeFileSorter.cs:251 | the reads after an aligned first read are aligned and hold the rest of the text |
| TempFiles.TempFile.constructor | LargeTextSort/Models/TempFile.cs:3-9 | a new run has its name, its stream, `Lines == null` and `ChunkLineIndex == 0` |
| TempFiles.ReadResult | LargeTextSort/LargeFileSorter.cs:255-274 | the installed batch is never empty, and at end of file it is the previous last element, or `""` |
| TempFiles.Refill | LargeTextSort/LargeFileSorter.cs:200-278 | refilling a used-up run keeps the lines still to come and leaves it showing a valid element |
| TempFiles.RefillFromRead | LargeTextSort/LargeFileSorter.cs:264-275 | a read keeps what the run owes and gives a batch of at least two elements |
| TempFiles.ReadStep | LargeTextSort/LargeFileSorter.cs:264-275 | the elements before the last of the new batch are the next owed lines |
| TempFiles.Current | LargeTextSort/LargeFileSorter.cs:205-210 | the trimmed current element is blank iff nothing is left, else it is the next line |
| TempFiles.Advance | LargeTextSort/LargeFileSorter.cs:230 | advancing the index past a non-blank element consumes exactly that line and keeps the invariant |
| TempFiles.RemainingHead | LargeTextSort/LargeFileSorter.cs:205-230 | the lines still to come start with the trimmed current element |
| MergeState.AddRun | LargeTextSort/LargeFileSorter.cs:184 | adding a run under its own file name keeps the dictionary consistent |
| MergeState.Retire | LargeTextSort/LargeFileSorter.cs:221-223 | removing the first run keeps the rest consistent |
| MergeState.BestStep | LargeTextSort/LargeFileSorter.cs:205-216 | one selection step skips a blank line, and a strictly smaller line replaces the minimum; the selection stays the least shown line, and every run before the selected one shows a strictly greater line or none, so the first run wins a tie |
| MergeState.NewFirst | LargeTextSort/LargeFileSorter.cs:212-216 | a line strictly below the minimum so far becomes the least shown line, and every earlier run shows a strictly greater line or none |
| MergeState.KeepFirst | LargeTextSort/LargeFileSorter.cs:212-216 | a run that shows no line, or one no smaller than the minimum, leaves the selection with the earlier run, still first among equals |
| MergeState.TakeFromRun | LargeTextSort/LargeFileSorter.cs:205-230 | moving a ready run's index by one passes the element whose trimmed text is its next line, and the run then holds exactly the rest |
| MergeState.SelectedIsLeast | LargeTextSort/LargeFileSorter.cs:212-216 | the selected line is no greater than any line a run still holds |
| MergeState.PoolTake | LargeTextSort/LargeFileSorter.cs:229-230 | advancing the selected run removes exactly the written line from what the runs hold |
| MergeState.PoolOfChunks | LargeTextSort/LargeFileSorter.cs:162-185 | the opened runs hold exactly the lines of the chunks |
| MergeState.EmitKeeps | LargeTextSort/LargeFileSorter.cs:229-230 | writing the least line keeps the output sorted and its lines with the runs' lines equal to the chunks' lines |
| MergeState.RetireKeeps | LargeTextSort/LargeFileSorter.cs:219-227 | retiring the first run when none shows a line loses no line |
| MergeState.WriteLine | LargeTextSort/LargeFileSorter.cs:229 | `WriteLine` appends the line and `"\r\n"` to the output text |
| MergeState.MergeStart | LargeTextSort/LargeFileSorter.cs:187-189 | the merge invariant holds before the first round |
| Merge.ReadChunk | LargeTextSort/LargeFileSorter.cs:243-278 | resets `ChunkLineIndex` to 0, installs the batch (the carry alone at end of file), and consumes one read |
| Merge.CurrentLine | LargeTextSort/LargeFileSorter.cs:198-210 | after a refill when needed, the trimmed current line is blank iff the run is exhausted, else it is its next line |
| Merge.VisitRun | LargeTextSort/LargeFileSorter.cs:196-210 | visiting the t-th run shows its next line, or blank, and changes only that run |
| Merge.SelectStep | LargeTextSort/LargeFileSorter.cs:196-216 | one pass of the selection loop visits the t-th run and keeps the selection the first least line of the runs visited so far |
| Merge.SelectMin | LargeTextSort/LargeFileSorter.cs:191-217 | the selection loop leaves every run showing an element and yields the least shown line, or none when every run shows a blank; among equal least lines the first run's is selected |
| Merge.NextLine | LargeTextSort/LargeFileSorter.cs:230 | `ChunkLineIndex++` moves the run's index up by one past the element that trimmed is its next line, and leaves its batch and stream unchanged |
| Merge.TakeLine | LargeTextSort/LargeFileSorter.cs:230 | advancing the selected run raises its `ChunkLineIndex` by one, drops exactly its first line, and leaves the other runs unchanged |
| Merge.OpenRun | LargeTextSort/LargeFileSorter.cs:164-173 | a new `TempFile` after its first `ReadChunk` holds all the lines of its chunk |
| Merge.Register | LargeTextSort/LargeFileSorter.cs:175-184 | the opened run is added under its file name |
| Merge.OpenNext | LargeTextSort/LargeFileSorter.cs:162-185 | opening the i-th chunk file extends the dictionary by that file, with its lines |
| Merge.OpenAll | LargeTextSort/LargeFileSorter.cs:162-185 | every chunk file is opened, none is skipped, and together the runs hold the chunks' lines |
| Merge.RetireFirst | LargeTextSort/LargeFileSorter.cs:219-227 | when no run shows a line, the first key is dropped from the key order and the dictionary and added to the deleted files, and the merge invariant is kept |
| Merge.EmitMin | LargeTextSort/LargeFileSorter.cs:229-231 | the output gains the selected line and `"\r\n"`, the merged lines gain it, the selected run's remaining lines lose their first and its `ChunkLineIndex` goes up by one past it; the invariant is kept |
| Merge.MergeRound | LargeTextSort/LargeFileSorter.cs:189-232 | a round selects the first least shown line; with none it retires the first run and changes nothing else, otherwise it writes that line and advances that run alone; the merge invariant is kept and lines held plus runs open decreases |
| Merge.MergeChunks | LargeTextSort/LargeFileSorter.cs:141-241 | the output is the `"\r\n"` text of a sorted permutation of all chunk lines; a single chunk is copied; no chunks gives empty output; every chunk file is deleted except a single copied one |
| Merge.SplitFeedsMerge | LargeTextSort/LargeFileSorter.cs:26-38 | the chunks the split writes are sorted and clean, and together they hold the input lines |
| Generator.ValidateOptions | LargeTextGenerator/LargeTextGenerator/Validator.cs:5-16 | returns normally iff min < max and samples < lines; a min/max failure takes precedence |
| Generator.NewGenerator | LargeTextGenerator/LargeTextGenerator/LargeTextFileGenerator.cs:15-20 | without options the defaults are used; a generator exists only for options that pass the guard |
| Generator.DefaultsAreAcceptable | Infrastructure/Constants.cs:7-11 | the default constants (100 < 2000, 100000 < 1000000000) pass the guard |
| Generator.Pigeonhole | LargeTextGenerator/LargeTextGenerator/GeneratorOptions.cs:12-17 | more picks than choices means some choice is picked twice |
| Generator.AcceptedWithoutRepeat | LargeTextGenerator/LargeTextGenerator/LargeTextFileGenerator.cs:31-44 | as written, options the guard accepts (5 samples, 10 lines, maximum length 2000) let all ten lines draw different ones of the 2000 built samples |
| Generator.AcceptedOptionsRepeat | LargeTextGenerator/LargeTextGenerator/Validator.cs:12-15 | with accepted options and lines drawing among `SampleStringsNumber` samples, however they draw, some text repeats |
| ShortReads.FixedReadsCover | LargeTextSort/LargeFileSorter.cs:249-251 | fixed-size reads are non-empty and together are the file text |
| ShortReads.CrInWindow | LargeTextSort/Models/SorterOptions.cs:17-23 | if every line plus CRLF fits in the width, every window of that width holds a CR |
| ShortReads.AlignedFrom | LargeTextSort/Models/SorterOptions.cs:17-23 | reads of such a buffer size are aligned |
| ShortReads.LongEnoughBuffer | LargeTextSort/Models/SorterOptions.cs:17-23 | a buffer at least two characters longer than every line gives aligned reads of the whole file, as `MergeChunks` needs |
| ShortReads.WrittenWhenLeast | LargeTextSort/LargeFileSorter.cs:196-230 | a run that is least in every round writes only non-blank lines: each batch's shown elements trimmed, up to a blank one where it stays, or a single-element batch's element before it becomes the carry |
| ShortReads.UpToBlankPrefix | LargeTextSort/LargeFileSorter.cs:205-210 | a run that stays on a blank element has written a prefix of the lines its elements hold, and all of them when none is blank |
| ShortReads.CleanShown | LargeTextSort/LargeFileSorter.cs:205-210 | a batch of clean pieces has no blank element before its last, so the run shows all of them |
| ShortReads.BlankStalls | LargeTextSort/LargeFileSorter.cs:200-210 | for any two clean lines `a` and `b`, the reads `a` + CR, LF, `b` + CR, LF hand over `a` and `b`, but the batch ["", ""] of the lone LF stops the run after `a` |
| ShortReads.CrBatch | LargeTextSort/LargeFileSorter.cs:264-274 | a read of one line and its CR, with an empty carry, gives the batch [line, ""] |
| ShortReads.AlignedWritesOwed | LargeTextSort/LargeFileSorter.cs:196-230 | on aligned reads, a run that is always the least writes exactly the lines it holds |
| ShortReads.ExampleReads | LargeTextSort/LargeFileSorter.cs:249-251 | reading `"1. a\r\n2. b\r\n"` with a buffer of 5 gives `"1. a\r"`, `"\n2. b"`, `"\r\n"` |
| ShortReads.ShortBufferDuplicates | LargeTextSort/Models/SorterOptions.cs:17-23 | with a buffer one longer than the longest line, the merge writes `"2. b"` twice, though the lines are `"1. a"`, `"2. b"` |

## Left out

- File, stream and directory I/O are not modelled. Files are sequences of lines, reads are given
  blocks, and deleting a file is recording its name. `SortFile`, the temporary directory,
  `Path.Combine` and GUID file names are left out. `SaveSortedChunk` returns the sorted lines
  instead of a path.
- UTF-8 decoding of byte buffers is not modelled. The model works on characters and assumes
  reads end on character boundaries.
- The async variants (`SortFileAsync`, `SplitAndSortChunksAsync`, `SaveSortedChunkAsync`,
  `MergeChunksAsync`, `ReadChunkAsync`) are left out. They repeat the synchronous logic.
- The culture-sensitive `string.Compare` is modelled as ordinal order, because culture order
  depends on the machine.
- `IndexOf(string)` in `LineComparer.ParseLine` (Infrastructure/LineComparer.cs:31) and
  `EndsWith(string)` in `ReadChunk` (LargeTextSort/LargeFileSorter.cs:267) are culture-sensitive
  in .NET; the model matches them ordinally, character by character, for the same reason.
- LineOrder.Sort: the sort is sequential. The PLINQ parallelism is not modelled, and no stability
  is claimed.
- The `finally` block that disposes streams is left out. It is resource cleanup only.
- `int.Parse` covers decimal digits, an optional sign and surrounding white space. Culture-specific
  formats are left out.
- The random text generator (`GenerateFile`, `GenerateSampleStrings`) and both `Program.cs` entry
  points are left out. They depend on randomness and the console.
- Merge.MergeChunks: requires chunk lines that are non-blank and carry no surrounding white space.
  The chunk lines come from `ReadLine` on the input file, which strips CR and LF but no other
  white space, so the source does not guarantee this. The merge applies `Trim()` to every line
  it shows: a line with surrounding white space would be written trimmed, and could be ordered
  differently, and a blank line is passed over without advancing and stalls its run. A
  well-formed line never trims to blank.
- Merge.MergeChunks: requires each chunk file to end with `"\r\n"`, which `File.WriteAllLines`
  guarantees. A file with a non-blank last piece would show it again after every refill, and
  the source would loop writing it.
- Merge.MergeChunks: requires aligned reads, meaning every read holds a CR except a final lone LF.
  ShortReads.LongEnoughBuffer shows this holds when the buffer is at least two characters longer
  than every line. The source does not check it (see Findings).
- Merge.MergeChunks: requires distinct, non-empty chunk file names, which GUID names give.
- ShortReads.WrittenWhenLeast: models one run that is the least in every round. It writes a
  non-blank end-of-file carry once, where the source would repeat it. It stops at a blank
  element before a batch's last one, as the source does, but does not model the later
  retirement of the stalled run by the other runs' rounds.
- Generator.AcceptedOptionsRepeat: models how lines pick sample strings as any sequence of
  indexes, not the random draw, and draws among `SampleStringsNumber` samples, as the guard
  intends, rather than the `SampleStringMaxLength` the generator builds (see Findings).

## Findings

| source | as written | input that shows it | evidently intended | confidence | as-written member | corrected member |
|---|---|---|---|---|---|---|
| LargeTextSort/Models/SorterOptions.cs:17-23 | the buffer only has to be longer than the longest line; in `MergeChunks` (LargeTextSort/LargeFileSorter.cs:200-275) a read without CR gives a one-element batch whose element the merge writes and then keeps as the carry | chunk file `"1. a\r\n2. b\r\n"` read with buffer size 5: reads `"1. a\r"`, `"\n2. b"`, `"\r\n"`; the merge writes `1. a`, `2. b`, `2. b` | every line written once, which holds when the buffer is at least the longest line plus the two characters of `"\r\n"` | not executed | ShortReads.ShortBufferDuplicates | ShortReads.LongEnoughBuffer |
| LargeTextGenerator/LargeTextGenerator/LargeTextFileGenerator.cs:43-44 | the generator builds `SampleStringMaxLength` sample strings and draws each line's text among them, while `Validator` (Validator.cs:12-15) bounds `SampleStringsNumber`, which nothing else reads | options with 5 samples, 10 lines, lengths 1 to 2000 pass the guard; the ten lines may draw samples 0 to 9, so no sample index repeats and repetition is not forced | `SampleStringsNumber` sample strings, so that the guard's check forces repeated texts | not executed | Generator.AcceptedWithoutRepeat | Generator.AcceptedOptionsRepeat |
