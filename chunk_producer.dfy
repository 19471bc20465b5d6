/**
 * The chunk producer (LargeTextSort/LargeFileSorter.cs, `SplitAndSortChunks` and
 * `SaveSortedChunk`): input lines are collected into a batch; a full batch is sorted,
 * written to a new chunk file and cleared; a non-empty remainder is flushed at the end.
 *
 * The input file is the sequence of lines `StreamReader.ReadLine` returns; a chunk file is
 * the sequence of lines `File.WriteAllLines` writes, i.e. the text `LinesText(chunk)`.
 */
module ChunkProducer {
  import opened Outcomes
  import opened NetText
  import opened LineOrder

  /**
   * The batch size the loop really produces: it flushes as soon as `Count >= MaxLinesInMemory`,
   * so a setting below 1 flushes after every line.
   */
  function ChunkSize(maxLinesInMemory: int): (size: nat)
    ensures size >= 1
    ensures maxLinesInMemory >= 1 ==> size == maxLinesInMemory
    ensures maxLinesInMemory < 1 ==> size == 1
  {
    if maxLinesInMemory < 1 then 1 else maxLinesInMemory
  }

  function Flatten(chunks: seq<seq<string>>): seq<string>
    decreases |chunks|
  {
    if chunks == [] then [] else chunks[0] + Flatten(chunks[1..])
  }

  /** The batches in input order: all full except possibly the last, none empty. */
  function Batches(lines: seq<string>, size: nat): (batches: seq<seq<string>>)
    requires size >= 1
    ensures Flatten(batches) == lines
    ensures batches == [] <==> lines == []
    decreases |lines|
  {
    if lines == [] then []
    else if |lines| <= size then
      assert Flatten([lines]) == lines + [];
      [lines]
    else
      var rest := Batches(lines[size..], size);
      assert lines == lines[..size] + lines[size..];
      assert ([lines[..size]] + rest)[1..] == rest;
      [lines[..size]] + rest
  }

  /** Every batch has 1 to `size` lines, and all but the last exactly `size`. */
  lemma {:induction false} BatchSizes(lines: seq<string>, size: nat)
    requires size >= 1
    ensures forall k :: 0 <= k < |Batches(lines, size)| ==> 1 <= |Batches(lines, size)[k]| <= size
    ensures forall k :: 0 <= k < |Batches(lines, size)| - 1 ==> |Batches(lines, size)[k]| == size
    decreases |lines|
  {
    var batches := Batches(lines, size);
    if |lines| > size {
      BatchSizes(lines[size..], size);
      var rest := Batches(lines[size..], size);
      assert batches == [lines[..size]] + rest;
      forall k | 0 <= k < |batches|
        ensures 1 <= |batches[k]| <= size
        ensures k < |batches| - 1 ==> |batches[k]| == size
      {
        if k > 0 {
          assert batches[k] == rest[k - 1];
        }
      }
    } else if lines != [] {
      assert batches == [lines];
    }
  }

  /**
   * How many chunk files the split creates: the number of lines divided by the size,
   * rounded up, stated without division.
   */
  lemma {:induction false} BatchCount(lines: seq<string>, size: nat)
    requires size >= 1
    ensures var n := |Batches(lines, size)|;
      (n - 1) * size < |lines| <= n * size
    decreases |lines|
  {
    if |lines| > size {
      BatchCount(lines[size..], size);
      var n := |Batches(lines[size..], size)|;
      assert (n + 1 - 1) * size == (n - 1) * size + size;
      assert (n + 1) * size == n * size + size;
    }
  }

  /** A chunk file's lines: the batch's lines, each as often, in comparer order. */
  predicate SortedChunkOf(chunk: seq<string>, batch: seq<string>) {
    multiset(chunk) == multiset(batch) && SortedLines(chunk)
  }

  /** The chunk files, in creation order, one per batch. */
  predicate ChunksOf(chunks: seq<seq<string>>, batches: seq<seq<string>>) {
    |chunks| == |batches| && forall k :: 0 <= k < |chunks| ==> SortedChunkOf(chunks[k], batches[k])
  }

  /**
   * `SaveSortedChunk` minus the file write: the batch sorted by the comparer, which
   * `File.WriteAllLines` then stores as `LinesText` of the result.
   */
  method SaveSortedChunk(batch: seq<string>) returns (saved: Result<seq<string>, ParseError>)
    ensures saved.Ok? <==> AllWellFormed(batch)
    ensures saved.Ok? ==> SortedChunkOf(saved.value, batch)
  {
    saved := Sort(batch);
  }

  /**
   * `SplitAndSortChunks` without the files: the chunks in creation order, or the parse error
   * that made sorting a batch throw.
   */
  method SplitAndSortChunks(input: seq<string>, maxLinesInMemory: int)
    returns (r: Result<seq<seq<string>>, ParseError>)
    ensures r.Ok? <==> AllWellFormed(input)
    ensures r.Ok? ==> ChunksOf(r.value, Batches(input, ChunkSize(maxLinesInMemory)))
  {
    ghost var size := ChunkSize(maxLinesInMemory);
    ghost var start := 0;
    ghost var batches: seq<seq<string>> := [];
    var tempFiles: seq<seq<string>> := [];
    var lines: seq<string> := [];
    var i := 0;
    while i < |input|
      invariant 0 <= start <= i <= |input| && i - start < size
      invariant lines == input[start..i]
      invariant Flatten(batches) == input[..start] && AllFull(batches, size)
      invariant AllWellFormed(input[..start]) && ChunksOf(tempFiles, batches)
    {
      assert input[start..i + 1] == input[start..i] + [input[i]];
      lines := lines + [input[i]];
      i := i + 1;
      if |lines| >= maxLinesInMemory {
        var saved := SaveSortedChunk(lines);
        if saved.Err? {
          Malformed(input, start, i);
          return Err(saved.error);
        }
        Flush(input, start, i, batches, tempFiles, saved.value, size);
        tempFiles := tempFiles + [saved.value];
        batches := batches + [lines];
        start, lines := i, [];
      }
    }
    assert input[..i] == input;
    if |lines| > 0 {
      var saved := SaveSortedChunk(lines);
      if saved.Err? {
        Malformed(input, start, i);
        return Err(saved.error);
      }
      Flush(input, start, i, batches, tempFiles, saved.value, size);
      BatchesOfFull(batches, lines, size);
      assert input == Flatten(batches) + lines;
      tempFiles := tempFiles + [saved.value];
      assert Batches(input, size) == batches + [lines];
    } else {
      BatchesOfFull(batches, [], size);
      assert input == Flatten(batches) + [];
      assert Batches(input, size) == batches;
    }
    return Ok(tempFiles);
  }

  predicate AllFull(batches: seq<seq<string>>, size: nat) {
    forall k :: 0 <= k < |batches| ==> |batches[k]| == size
  }

  /** Full batches followed by a last, possibly partial, one are what `Batches` cuts. */
  lemma {:induction false} BatchesOfFull(batches: seq<seq<string>>, last: seq<string>, size: nat)
    requires size >= 1 && AllFull(batches, size) && |last| <= size
    ensures Batches(Flatten(batches) + last, size) == batches + (if last == [] then [] else [last])
    decreases |batches|
  {
    if batches == [] {
      assert Flatten(batches) + last == last;
    } else {
      var all := Flatten(batches) + last;
      assert all == batches[0] + (Flatten(batches[1..]) + last);
      assert all[..size] == batches[0];
      assert all[size..] == Flatten(batches[1..]) + last;
      BatchesOfFull(batches[1..], last, size);
      assert batches == [batches[0]] + batches[1..];
    }
  }

  /** Writing the sorted batch `input[start..i]` extends the chunk sequence by that chunk. */
  lemma Flush(input: seq<string>, start: nat, i: nat, batches: seq<seq<string>>,
              chunks: seq<seq<string>>, chunk: seq<string>, size: nat)
    requires size >= 1 && start < i <= |input| && i - start <= size
    requires Flatten(batches) == input[..start] && AllFull(batches, size)
    requires AllWellFormed(input[..start]) && ChunksOf(chunks, batches)
    requires AllWellFormed(input[start..i]) && SortedChunkOf(chunk, input[start..i])
    ensures Flatten(batches + [input[start..i]]) == input[..i]
    ensures AllWellFormed(input[..i]) && ChunksOf(chunks + [chunk], batches + [input[start..i]])
    ensures i - start == size ==> AllFull(batches + [input[start..i]], size)
  {
    var batch := input[start..i];
    assert input[..i] == input[..start] + batch;
    FlattenAppend(batches, [batch]);
    assert Flatten([batch]) == batch + [];
    var all := chunks + [chunk];
    var cut := batches + [batch];
    forall k | 0 <= k < |all| ensures SortedChunkOf(all[k], cut[k]) {
      if k < |chunks| {
        assert all[k] == chunks[k] && cut[k] == batches[k];
      }
    }
    WellFormedJoin(input[..start], batch);
  }

  /** A malformed line in the current batch is a malformed line of the input. */
  lemma Malformed(input: seq<string>, start: nat, i: nat)
    requires start <= i <= |input| && !AllWellFormed(input[start..i])
    ensures !AllWellFormed(input)
  {
    var k :| 0 <= k < i - start && !WellFormed(input[start..i][k]);
    assert input[start + k] == input[start..i][k];
  }

  lemma WellFormedJoin(a: seq<string>, b: seq<string>)
    requires AllWellFormed(a) && AllWellFormed(b)
    ensures AllWellFormed(a + b)
  {
  }

  lemma {:induction false} FlattenAppend(a: seq<seq<string>>, b: seq<seq<string>>)
    ensures Flatten(a + b) == Flatten(a) + Flatten(b)
    decreases |a|
  {
    if a == [] {
      assert a + b == b;
    } else {
      assert (a + b)[0] == a[0];
      assert (a + b)[1..] == a[1..] + b;
      FlattenAppend(a[1..], b);
    }
  }

  /** Chunks that are sorted batches hold, together, exactly the batches' lines. */
  lemma {:induction false} ChunksKeepLines(chunks: seq<seq<string>>, batches: seq<seq<string>>)
    requires ChunksOf(chunks, batches)
    ensures multiset(Flatten(chunks)) == multiset(Flatten(batches))
    decreases |batches|
  {
    if batches != [] {
      assert SortedChunkOf(chunks[0], batches[0]);
      ChunksKeepLines(chunks[1..], batches[1..]);
    }
  }

  /**
   * What a successful split guarantees: the chunks together hold every input line, as many
   * times as it occurs; each chunk is sorted and has 1 to `size` lines, all but the last
   * exactly `size`; an empty input gives no chunk.
   */
  lemma SplitPartitionsInput(input: seq<string>, size: nat, chunks: seq<seq<string>>)
    requires size >= 1 && ChunksOf(chunks, Batches(input, size))
    ensures multiset(Flatten(chunks)) == multiset(input)
    ensures chunks == [] <==> input == []
    ensures forall k :: 0 <= k < |chunks| ==> 1 <= |chunks[k]| <= size && SortedLines(chunks[k])
    ensures forall k :: 0 <= k < |chunks| - 1 ==> |chunks[k]| == size
  {
    var batches := Batches(input, size);
    ChunksKeepLines(chunks, batches);
    BatchSizes(input, size);
    forall k | 0 <= k < |chunks| ensures |chunks[k]| == |batches[k]| && SortedLines(chunks[k]) {
      assert SortedChunkOf(chunks[k], batches[k]);
      assert |multiset(chunks[k])| == |multiset(batches[k])|;
    }
  }
}
