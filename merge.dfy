/**
 * The k-way merge of the chunk files (LargeTextSort/LargeFileSorter.cs, `MergeChunks` and
 * `ReadChunk`). Each chunk file is read block by block; the runs are kept in a dictionary whose
 * enumeration order is the order they were opened; every round refills the runs that used up
 * their batch, picks the least current line (the first one on ties), writes it and advances
 * that run; when no run has a line left, the first run in the dictionary is closed and deleted.
 */
module Merge {
  import opened Outcomes
  import opened NetText
  import opened LineOrder
  import opened ChunkProducer
  import opened RunReader
  import opened TempFiles
  import opened MergeState

  /** `ReadChunk`: the next read of the run's stream becomes its batch, or the carry alone at end of file. */
  method ReadChunk(file: TempFile)
    requires file.lines.Some? ==> |file.lines.value| >= 1
    modifies file
    ensures file.chunkLineIndex == 0
    ensures file.lines == Some(ReadResult(old(file.lines), old(file.stream)))
    ensures file.stream == Unread(old(file.stream))
  {
    file.chunkLineIndex := 0;
    var lastLine := LastLine(file.lines);
    if file.stream == [] {
      file.lines := Some([lastLine]);
      return;
    }
    var textChunk := file.stream[0];
    file.stream := file.stream[1..];
    var lines := SplitCrLf(textChunk);
    if EndsWithLineBreak(lines[|lines| - 1]) {
      lines := lines + [""];
    }
    lines := lines[0 := TrimLineBreaks(lastLine) + TrimLineBreaks(lines[0])];
    file.lines := Some(lines);
  }

  /**
   * The body of the `foreach` for one run: `ReadChunk` when the batch is used up, then the
   * current element trimmed, which is the next line the run owes, or blank when it has none.
   */
  method CurrentLine(tempFile: TempFile, ghost owed: seq<string>, ghost rem: seq<string>)
    returns (line: string, ghost owed': seq<string>)
    requires Holds(tempFile, owed, rem)
    modifies tempFile
    ensures Holds(tempFile, owed', rem) && IsReady(tempFile)
    ensures line == [] <==> rem == []
    ensures line != [] ==> line == rem[0]
  {
    owed' := owed;
    if tempFile.chunkLineIndex >= |tempFile.lines.value| - 1 {
      ghost var lines, index, stream := tempFile.lines, tempFile.chunkLineIndex, tempFile.stream;
      ReadChunk(tempFile);
      owed' := Refill(lines, index, stream, owed);
    }
    Current(tempFile.lines.value, tempFile.chunkLineIndex, tempFile.stream, owed');
    line := Trim(tempFile.lines.value[tempFile.chunkLineIndex]);
  }

  /** `CurrentLine` on the run `keys[t]` of the dictionary; the other runs are untouched. */
  method VisitRun(keys: seq<string>, files: map<string, TempFile>,
                  ghost owed: map<string, seq<string>>, ghost rems: map<string, seq<string>>, t: int)
    returns (line: string, ghost owed': map<string, seq<string>>)
    requires 0 <= t < |keys| && OpenRuns(keys, files, owed, rems) && ReadyUpTo(keys, t, files)
    modifies files[keys[t]]
    ensures OpenRuns(keys, files, owed', rems) && ReadyUpTo(keys, t + 1, files)
    ensures line == [] <==> rems[keys[t]] == []
    ensures line != [] ==> line == rems[keys[t]][0]
  {
    var name := keys[t];
    ghost var o;
    line, o := CurrentLine(files[name], owed[name], rems[name]);
    owed' := owed[name := o];
  }

  /**
   * One pass of the `foreach` over the keys: refill every run that used up its batch, and
   * pick the least non-blank current line with `Compare(line, minvalue) < 0`, so the first of
   * several equal lines wins.
   */
  method SelectMin(keys: seq<string>, files: map<string, TempFile>,
                   ghost owed: map<string, seq<string>>, ghost rems: map<string, seq<string>>)
    returns (minValue: string, minName: string, ghost owed': map<string, seq<string>>)
    requires OpenRuns(keys, files, owed, rems)
    requires forall k :: k in keys ==> k != ""
    modifies set k | k in keys && k in files :: files[k]
    ensures OpenRuns(keys, files, owed', rems) && ReadyUpTo(keys, |keys|, files)
    ensures Best(keys, rems, minValue, minName)
  {
    minValue, minName := "", "";
    owed' := owed;
    var t := 0;
    while t < |keys|
      invariant 0 <= t <= |keys|
      invariant OpenRuns(keys, files, owed', rems)
      invariant ReadyUpTo(keys, t, files)
      invariant Best(keys[..t], rems, minValue, minName)
    {
      minValue, minName, owed' := SelectStep(keys, files, owed', rems, t, minValue, minName);
      t := t + 1;
    }
    assert keys[..t] == keys;
  }

  /**
   * One turn of that `foreach`: show the current line of `keys[t]` and let it replace the
   * minimum only when it is non-blank and `Compare(line, minvalue) < 0`.
   */
  method SelectStep(keys: seq<string>, files: map<string, TempFile>,
                    ghost owed: map<string, seq<string>>, ghost rems: map<string, seq<string>>, t: int,
                    minValue: string, minName: string)
    returns (minValue': string, minName': string, ghost owed': map<string, seq<string>>)
    requires 0 <= t < |keys| && OpenRuns(keys, files, owed, rems) && ReadyUpTo(keys, t, files)
    requires forall k :: k in keys ==> k != ""
    requires Best(keys[..t], rems, minValue, minName)
    modifies files[keys[t]]
    ensures OpenRuns(keys, files, owed', rems) && ReadyUpTo(keys, t + 1, files)
    ensures Best(keys[..t + 1], rems, minValue', minName')
  {
    var line;
    line, owed' := VisitRun(keys, files, owed, rems, t);
    BestStep(keys, t, rems, minValue, minName, line);
    minValue', minName' := minValue, minName;
    if line != "" {
      if minValue == "" || Compare(line, minValue).value < 0 {
        minValue', minName' := line, keys[t];
      }
    }
  }

  /** `tempFiles[minFileName].ChunkLineIndex++`: the run moves past the line just written. */
  method NextLine(tempFile: TempFile, ghost owed: seq<string>, ghost rem: seq<string>)
    requires Holds(tempFile, owed, rem) && IsReady(tempFile) && rem != []
    modifies tempFile
    ensures tempFile.chunkLineIndex == old(tempFile.chunkLineIndex) + 1
    ensures tempFile.lines == old(tempFile.lines) && tempFile.stream == old(tempFile.stream)
    ensures Holds(tempFile, owed, rem[1..])
    ensures MovedPast(tempFile, rem[0])
  {
    var index := tempFile.chunkLineIndex;
    TakeFromRun(tempFile.lines, index, tempFile.stream, owed, rem);
    tempFile.chunkLineIndex := index + 1;
  }

  /** `tempFiles[minFileName].ChunkLineIndex++` on the dictionary. */
  method TakeLine(keys: seq<string>, files: map<string, TempFile>,
                  ghost owed: map<string, seq<string>>, ghost rems: map<string, seq<string>>, name: string)
    requires OpenRuns(keys, files, owed, rems) && ReadyUpTo(keys, |keys|, files)
    requires name in keys && rems[name] != []
    modifies files[name]
    ensures OpenRuns(keys, files, owed, rems[name := rems[name][1..]])
    ensures files[name].chunkLineIndex == old(files[name].chunkLineIndex) + 1
    ensures files[name].lines == old(files[name].lines) && files[name].stream == old(files[name].stream)
    ensures MovedPast(files[name], rems[name][0])
  {
    var file := files[name];
    var i :| 0 <= i < |keys| && keys[i] == name;
    assert IsReady(file) && Holds(file, owed[name], rems[name]);
    NextLine(file, owed[name], rems[name]);
  }

  /** The `TempFile` for one chunk file, after its first `ReadChunk`. */
  method OpenRun(name: string, blocks: seq<string>, ghost lines: seq<string>)
    returns (file: TempFile, ghost owed: seq<string>)
    requires AllClean(lines) && SortedLines(lines)
    requires Aligned(blocks) && Concat(blocks) == LinesText(lines)
    ensures fresh(file) && file.fileName == name && Holds(file, owed, lines)
  {
    file := new TempFile(name, blocks);
    StartRun(lines);
    ReadChunk(file);
    owed := Refill(None, 0, blocks, lines);
  }

  /** `tempFiles.Add(fileName, file)`: the run of the `i`-th chunk file joins the dictionary. */
  method Register(names: seq<string>, ghost chunks: seq<seq<string>>, i: int, files: map<string, TempFile>,
                  keys: seq<string>, ghost owed: map<string, seq<string>>, ghost rems: map<string, seq<string>>,
                  file: TempFile, ghost o: seq<string>)
    returns (files': map<string, TempFile>, keys': seq<string>,
             ghost owed': map<string, seq<string>>, ghost rems': map<string, seq<string>>)
    requires NoDuplicates(names) && |names| == |chunks| && 0 <= i < |names| && keys == names[..i]
    requires OpenRuns(keys, files, owed, rems)
    requires forall j :: 0 <= j < i ==> rems[names[j]] == chunks[j]
    requires file.fileName == names[i] && Holds(file, o, chunks[i])
    requires forall k :: k in keys ==> files[k] != file
    ensures keys' == names[..i + 1] && files' == files[names[i] := file]
    ensures OpenRuns(keys', files', owed', rems')
    ensures forall j :: 0 <= j <= i ==> rems'[names[j]] == chunks[j]
  {
    NextName(names, i);
    AddRun(keys, files, owed, rems, file, o, chunks[i]);
    files' := files[names[i] := file];
    keys' := keys + [names[i]];
    owed' := owed[names[i] := o];
    rems' := rems[names[i] := chunks[i]];
  }

  /** One turn of the `foreach`: open the `i`-th chunk file, read it once, add it unless `isEOF`. */
  method OpenNext(names: seq<string>, contents: seq<seq<string>>, ghost chunks: seq<seq<string>>, i: int,
                  files: map<string, TempFile>, keys: seq<string>,
                  ghost owed: map<string, seq<string>>, ghost rems: map<string, seq<string>>)
    returns (files': map<string, TempFile>, keys': seq<string>,
             ghost owed': map<string, seq<string>>, ghost rems': map<string, seq<string>>)
    requires |names| == |contents| == |chunks| && NoDuplicates(names) && 0 <= i < |names|
    requires AllClean(chunks[i]) && SortedLines(chunks[i])
    requires Aligned(contents[i]) && Concat(contents[i]) == LinesText(chunks[i])
    requires keys == names[..i] && OpenRuns(keys, files, owed, rems)
    requires forall j :: 0 <= j < i ==> rems[names[j]] == chunks[j]
    ensures keys' == names[..i + 1] && OpenRuns(keys', files', owed', rems')
    ensures forall j :: 0 <= j <= i ==> rems'[names[j]] == chunks[j]
    ensures forall k :: k in keys' ==> (k in keys && files'[k] == files[k]) || fresh(files'[k])
  {
    var file;
    ghost var o;
    file, o := OpenRun(names[i], contents[i], chunks[i]);
    files', keys', owed', rems' := files, keys, owed, rems;
    var isEOF := file.lines.None?;
    if !isEOF {
      files', keys', owed', rems' := Register(names, chunks, i, files, keys, owed, rems, file, o);
    }
  }

  /**
   * The `foreach` over the chunk file names: every file is opened and read once; `isEOF` never
   * holds after `ReadChunk`, so every run enters the dictionary, in the order of the names.
   */
  method OpenAll(names: seq<string>, contents: seq<seq<string>>, ghost chunks: seq<seq<string>>)
    returns (files: map<string, TempFile>, keys: seq<string>,
             ghost owed: map<string, seq<string>>, ghost rems: map<string, seq<string>>)
    requires |names| == |contents| == |chunks| && NoDuplicates(names)
    requires forall i :: 0 <= i < |chunks| ==> AllClean(chunks[i]) && SortedLines(chunks[i])
    requires forall i :: 0 <= i < |contents| ==> Aligned(contents[i]) && Concat(contents[i]) == LinesText(chunks[i])
    ensures keys == names && OpenRuns(keys, files, owed, rems)
    ensures forall k :: k in keys ==> fresh(files[k])
    ensures Pool(keys, rems) == multiset(Flatten(chunks)) && RunsSorted(keys, rems)
  {
    files, keys, owed, rems := map[], [], map[], map[];
    var i := 0;
    while i < |names|
      invariant 0 <= i <= |names| && keys == names[..i]
      invariant OpenRuns(keys, files, owed, rems)
      invariant forall k :: k in keys ==> fresh(files[k])
      invariant forall j :: 0 <= j < i ==> rems[names[j]] == chunks[j]
    {
      files, keys, owed, rems := OpenNext(names, contents, chunks, i, files, keys, owed, rems);
      i := i + 1;
    }
    assert names[..i] == names;
    PoolOfChunks(names, chunks, rems);
  }

  /**
   * No run has a line left: the first run of the dictionary is closed, removed and its file
   * deleted.
   */
  method RetireFirst(keys: seq<string>, files: map<string, TempFile>,
                     ghost owed: map<string, seq<string>>, ghost rems: map<string, seq<string>>,
                     ghost names: seq<string>, ghost merged: seq<string>, output: string,
                     deleted: seq<string>, ghost chunks: seq<seq<string>>)
    returns (keys': seq<string>, files': map<string, TempFile>, deleted': seq<string>)
    requires OpenRuns(keys, files, owed, rems) && keys != []
    requires Merged(names, keys, rems, merged, output, deleted, chunks) && Best(keys, rems, "", "")
    ensures keys' == keys[1..] && files' == files - {keys[0]} && deleted' == deleted + [keys[0]]
    ensures forall k :: k in keys' ==> k in keys && k in files' && files'[k] == files[k]
    ensures OpenRuns(keys', files', owed, rems)
    ensures Merged(names, keys', rems, merged, output, deleted', chunks)
    ensures |Pool(keys', rems)| + |keys'| < |Pool(keys, rems)| + |keys|
  {
    var file := files[keys[0]];
    Retire(keys, files, owed, rems);
    RetireKeeps(merged, keys, rems, chunks);
    files' := files - {file.fileName};
    deleted' := deleted + [file.fileName];
    keys' := keys[1..];
    ShiftFirst(deleted, keys);
  }

  /**
   * `writer.WriteLine(minvalue)` and `ChunkLineIndex++` on the run it came from: the output
   * grows by the line, the run gives it up, and one line fewer is held.
   */
  method EmitMin(keys: seq<string>, files: map<string, TempFile>,
                 ghost owed: map<string, seq<string>>, ghost rems: map<string, seq<string>>,
                 ghost names: seq<string>, ghost merged: seq<string>, output: string,
                 deleted: seq<string>, ghost chunks: seq<seq<string>>, minValue: string, minName: string)
    returns (output': string, ghost merged': seq<string>, ghost rems': map<string, seq<string>>)
    requires OpenRuns(keys, files, owed, rems) && ReadyUpTo(keys, |keys|, files)
    requires Merged(names, keys, rems, merged, output, deleted, chunks)
    requires Best(keys, rems, minValue, minName) && minName != ""
    modifies files[minName]
    ensures output' == output + minValue + "\r\n" && merged' == merged + [minValue]
    ensures rems' == rems[minName := rems[minName][1..]]
    ensures files[minName].chunkLineIndex == old(files[minName].chunkLineIndex) + 1
    ensures files[minName].lines == old(files[minName].lines) && files[minName].stream == old(files[minName].stream)
    ensures MovedPast(files[minName], minValue)
    ensures OpenRuns(keys, files, owed, rems')
    ensures Merged(names, keys, rems', merged', output', deleted, chunks)
    ensures |Pool(keys, rems')| < |Pool(keys, rems)|
  {
    EmitKeeps(merged, keys, rems, chunks, minValue, minName);
    TakeSorted(keys, rems, minName);
    output' := output + minValue + "\r\n";
    merged' := merged + [minValue];
    TakeLine(keys, files, owed, rems, minName);
    rems' := rems[minName := rems[minName][1..]];
  }

  /**
   * One round of `while (tempFiles.Count > 0)`: select the least current line, then either
   * close the first run (no run has a line left) or write the line and advance its run.
   */
  method MergeRound(keys: seq<string>, files: map<string, TempFile>,
                    ghost owed: map<string, seq<string>>, ghost rems: map<string, seq<string>>,
                    ghost names: seq<string>, ghost merged: seq<string>, output: string,
                    deleted: seq<string>, ghost chunks: seq<seq<string>>)
    returns (keys': seq<string>, files': map<string, TempFile>, ghost owed': map<string, seq<string>>,
             ghost rems': map<string, seq<string>>, ghost merged': seq<string>, output': string,
             deleted': seq<string>, minValue: string, minFileName: string)
    requires keys != [] && OpenRuns(keys, files, owed, rems)
    requires Merged(names, keys, rems, merged, output, deleted, chunks)
    modifies set k | k in keys && k in files :: files[k]
    ensures Best(keys, rems, minValue, minFileName)
    ensures minFileName == "" ==>
      keys' == keys[1..] && files' == files - {keys[0]} && deleted' == deleted + [keys[0]]
      && rems' == rems && merged' == merged && output' == output
    ensures minFileName != "" ==>
      keys' == keys && files' == files && deleted' == deleted
      && rems' == rems[minFileName := rems[minFileName][1..]]
      && merged' == merged + [minValue] && output' == output + minValue + "\r\n"
      && MovedPast(files[minFileName], minValue)
    ensures forall k :: k in keys' ==> k in keys && k in files' && files'[k] == files[k]
    ensures OpenRuns(keys', files', owed', rems')
    ensures Merged(names, keys', rems', merged', output', deleted', chunks)
    ensures |Pool(keys', rems')| + |keys'| < |Pool(keys, rems)| + |keys|
  {
    minValue, minFileName, owed' := SelectMin(keys, files, owed, rems);
    if minFileName == "" {
      keys', files', deleted' := RetireFirst(keys, files, owed', rems, names, merged, output, deleted, chunks);
      rems', merged', output' := rems, merged, output;
    } else {
      output', merged', rems' := EmitMin(keys, files, owed', rems, names, merged, output, deleted, chunks,
                                         minValue, minFileName);
      keys', files', deleted' := keys, files, deleted;
    }
  }

  /**
   * `MergeChunks`: `names` are the chunk files in creation order, `contents` the reads each
   * file's stream returns and `chunks` the lines each file holds. A single chunk file is copied;
   * otherwise every file is opened and read, and each round writes the least current line, or,
   * when no run has a line left, closes and deletes the first run. The result is the output
   * text, the lines it holds, and the chunk files deleted, in order.
   */
  method MergeChunks(names: seq<string>, contents: seq<seq<string>>, ghost chunks: seq<seq<string>>)
    returns (output: string, deleted: seq<string>, ghost merged: seq<string>)
    requires |names| == |contents| == |chunks|
    requires NoDuplicates(names) && forall i :: 0 <= i < |names| ==> names[i] != ""
    requires forall i :: 0 <= i < |chunks| ==> AllClean(chunks[i]) && SortedLines(chunks[i])
    requires forall i :: 0 <= i < |contents| ==> Aligned(contents[i]) && Concat(contents[i]) == LinesText(chunks[i])
    ensures output == LinesText(merged)
    ensures SortedLines(merged) && multiset(merged) == multiset(Flatten(chunks))
    ensures deleted == if |names| == 1 then [] else names
    ensures |names| == 1 ==> output == Concat(contents[0])
    ensures names == [] ==> output == ""
  {
    if |names| == 1 {
      output, deleted, merged := Concat(contents[0]), [], chunks[0];
      assert Flatten(chunks) == chunks[0] + Flatten([]);
      return;
    }
    var files, keys;
    ghost var owed, rems;
    files, keys, owed, rems := OpenAll(names, contents, chunks);
    output, deleted, merged := "", [], [];
    MergeStart(names, rems, chunks);
    while |keys| > 0
      invariant OpenRuns(keys, files, owed, rems)
      invariant forall k :: k in keys ==> fresh(files[k])
      invariant Merged(names, keys, rems, merged, output, deleted, chunks)
      decreases |Pool(keys, rems)| + |keys|
    {
      var minValue, minFileName;
      keys, files, owed, rems, merged, output, deleted, minValue, minFileName :=
        MergeRound(keys, files, owed, rems, names, merged, output, deleted, chunks);
    }
    PoolOfEmpty(keys, rems);
  }

  // ---------------------------------------------------------------------------
  // The two steps of `SortFile` together
  // ---------------------------------------------------------------------------

  lemma {:induction false} InFlatten(chunks: seq<seq<string>>, i: int, j: int)
    requires 0 <= i < |chunks| && 0 <= j < |chunks[i]|
    ensures chunks[i][j] in multiset(Flatten(chunks))
    decreases i
  {
    if i > 0 {
      InFlatten(chunks[1..], i - 1, j);
    }
  }

  /**
   * The chunk files the split writes from clean input lines are what the merge expects: each
   * holds clean lines in comparer order, and together they hold the input lines. So the lines
   * `MergeChunks` writes are the input lines, each as often, in comparer order.
   */
  lemma SplitFeedsMerge(input: seq<string>, size: nat, chunks: seq<seq<string>>)
    requires size >= 1 && AllClean(input) && ChunksOf(chunks, Batches(input, size))
    ensures forall i :: 0 <= i < |chunks| ==> AllClean(chunks[i]) && SortedLines(chunks[i])
    ensures multiset(Flatten(chunks)) == multiset(input)
  {
    SplitPartitionsInput(input, size, chunks);
    forall i | 0 <= i < |chunks| ensures AllClean(chunks[i]) {
      forall j | 0 <= j < |chunks[i]| ensures CleanLine(chunks[i][j]) {
        InFlatten(chunks, i, j);
        assert chunks[i][j] in multiset(input);
      }
    }
  }
}
