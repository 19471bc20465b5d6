/**
 * A chunk file opened for the merge (LargeTextSort/Models/TempFile.cs) and the state of its
 * reader: the reads still to come, the current batch and the index of the current element.
 *
 * The value-level predicates below state when such a state is consistent with the lines the
 * chunk file still owes the merge, and the lemmas show that refilling and advancing keep it so.
 */
module TempFiles {
  import opened Outcomes
  import opened NetText
  import opened RunReader

  /** `TempFile`: the file name, its open stream, the current batch and the index into it. */
  class TempFile {
    const fileName: string
    /** The stream, as the reads it will still return (end of file when empty). */
    var stream: seq<string>
    /** `Lines`, null until the first `ReadChunk`. */
    var lines: Option<seq<string>>
    var chunkLineIndex: int

    constructor (name: string, blocks: seq<string>)
      ensures fileName == name && stream == blocks
      ensures lines == None && chunkLineIndex == 0
    {
      fileName := name;
      stream := blocks;
      lines := None;
      chunkLineIndex := 0;
    }
  }

  /** `Lines?[^1] ?? string.Empty`. */
  function LastLine(lines: Option<seq<string>>): string
    requires lines.Some? ==> |lines.value| >= 1
  {
    match lines
    case None => ""
    case Some(batch) => Last(batch)
  }

  /** The batch `ReadChunk` installs: the carry alone at end of file, else the next read's batch. */
  function ReadResult(lines: Option<seq<string>>, stream: seq<string>): (batch: seq<string>)
    requires lines.Some? ==> |lines.value| >= 1
    ensures |batch| >= 1
    ensures stream == [] ==> batch == [LastLine(lines)]
  {
    if stream == [] then [LastLine(lines)] else NextBatch(LastLine(lines), stream[0])
  }

  /** The reads left after `ReadChunk`. */
  function Unread(stream: seq<string>): seq<string> {
    if stream == [] then [] else stream[1..]
  }

  /**
   * The reader state of a run is consistent with the lines `owed` after its current batch:
   * the reads are aligned, the carry and the unread text are `Pending` on those lines, and every
   * element before the last of the batch trims to a clean line, except in the state a lone LF
   * read at end of file leaves (two blank elements, nothing owed).
   */
  ghost predicate RunOk(lines: Option<seq<string>>, index: int, stream: seq<string>, owed: seq<string>) {
    AllClean(owed) && Aligned(stream)
    && match lines
       case None => index == 0 && Pending("", Concat(stream), owed)
       case Some(batch) =>
         |batch| >= 1 && 0 <= index < |batch| && Pending(Last(batch), Concat(stream), owed)
         && (CleanPieces(batch) || (batch == ["", ""] && index == 0 && stream == []))
  }

  /** The lines the merge will still take from the run: the rest of the batch, then the owed lines. */
  function Remaining(lines: Option<seq<string>>, index: int, owed: seq<string>): seq<string>
    requires lines.Some? ==> 0 <= index < |lines.value|
  {
    match lines
    case None => owed
    case Some(batch) => TrimmedNonblank(batch[index..|batch| - 1]) + owed
  }

  /** The check `ChunkLineIndex >= Lines.Length - 1` that makes the merge call `ReadChunk`. */
  predicate NeedsRefill(lines: Option<seq<string>>, index: int) {
    lines.None? || index >= |lines.value| - 1
  }

  /** The current element is a line of the run, or the run is at end of file. */
  predicate Ready(lines: Option<seq<string>>, index: int, stream: seq<string>) {
    lines.Some? && (index < |lines.value| - 1 || stream == [])
  }

  /**
   * `ReadChunk` on a run that has used up its batch keeps the lines the merge will take, and
   * leaves the run ready.
   */
  lemma Refill(lines: Option<seq<string>>, index: int, stream: seq<string>, owed: seq<string>)
      returns (owed': seq<string>)
    requires RunOk(lines, index, stream, owed) && NeedsRefill(lines, index)
    ensures RunOk(Some(ReadResult(lines, stream)), 0, Unread(stream), owed')
    ensures Remaining(Some(ReadResult(lines, stream)), 0, owed') == Remaining(lines, index, owed)
    ensures Ready(Some(ReadResult(lines, stream)), 0, Unread(stream))
  {
    UsedUp(lines, index, owed);
    if stream == [] {
      owed' := RefillAtEnd(LastLine(lines), owed);
    } else {
      owed' := RefillFromRead(LastLine(lines), stream, owed);
    }
  }

  lemma UsedUp(lines: Option<seq<string>>, index: int, owed: seq<string>)
    requires lines.Some? ==> 0 <= index < |lines.value|
    requires NeedsRefill(lines, index)
    ensures Remaining(lines, index, owed) == owed
  {
    if lines.Some? {
      var batch := lines.value;
      assert batch[index..|batch| - 1] == [];
    }
  }

  lemma RefillAtEnd(carry: string, owed: seq<string>) returns (owed': seq<string>)
    requires Pending(carry, [], owed)
    ensures RunOk(Some([carry]), 0, [], owed') && Remaining(Some([carry]), 0, owed') == owed
  {
    EndOfRun(carry, owed);
    owed' := [];
    var batch := [carry];
    assert batch[0..|batch| - 1] == [];
    assert Concat([]) == [];
  }

  lemma RefillFromRead(carry: string, stream: seq<string>, owed: seq<string>) returns (owed': seq<string>)
    requires AllClean(owed) && Aligned(stream) && stream != [] && Pending(carry, Concat(stream), owed)
    ensures RunOk(Some(NextBatch(carry, stream[0])), 0, stream[1..], owed')
    ensures Remaining(Some(NextBatch(carry, stream[0])), 0, owed') == owed
    ensures |NextBatch(carry, stream[0])| >= 2
  {
    var m := ReadStep(carry, stream, owed);
    owed' := owed[m..];
    RemainingAfterRead(NextBatch(carry, stream[0]), owed, m);
  }

  /** The next read moves the run on by the lines its batch completes. */
  lemma ReadStep(carry: string, stream: seq<string>, owed: seq<string>) returns (m: nat)
    requires AllClean(owed) && Aligned(stream) && stream != [] && Pending(carry, Concat(stream), owed)
    ensures m <= |owed| && Data(NextBatch(carry, stream[0])) == owed[..m]
    ensures Pending(Last(NextBatch(carry, stream[0])), Concat(stream[1..]), owed[m..])
    ensures Aligned(stream[1..]) && |NextBatch(carry, stream[0])| >= 2
    ensures CleanPieces(NextBatch(carry, stream[0])) || (NextBatch(carry, stream[0]) == ["", ""] && stream[1..] == [])
  {
    ConcatFirst(stream);
    AlignedTail(stream);
    m := Step(carry, Concat(stream), owed, stream[0]);
    if '\r' !in stream[0] {
      LineFeedBatch(carry);
    }
  }

  /** What the merge will take after a read: the lines the batch completes, then the rest. */
  lemma RemainingAfterRead(batch: seq<string>, owed: seq<string>, m: nat)
    requires |batch| >= 1 && m <= |owed| && Data(batch) == owed[..m] && AllClean(owed)
    ensures Remaining(Some(batch), 0, owed[m..]) == owed && AllClean(owed[m..])
  {
    assert batch[0..|batch| - 1] == batch[..|batch| - 1];
    assert owed == owed[..m] + owed[m..];
    forall j | 0 <= j < |owed| - m ensures CleanLine(owed[m..][j]) {
      assert owed[m..][j] == owed[m + j];
    }
  }


  /**
   * On a ready run the current element, trimmed, is blank exactly when the run has nothing
   * left, and otherwise it is the next line the run owes.
   */
  lemma Current(batch: seq<string>, index: int, stream: seq<string>, owed: seq<string>)
    requires RunOk(Some(batch), index, stream, owed) && Ready(Some(batch), index, stream)
    ensures Trim(batch[index]) == [] <==> Remaining(Some(batch), index, owed) == []
    ensures Trim(batch[index]) != [] ==>
      index < |batch| - 1 && Remaining(Some(batch), index, owed)[0] == Trim(batch[index])
  {
    if index < |batch| - 1 && CleanPieces(batch) {
      CurrentOfClean(batch, index, owed);
    } else if index < |batch| - 1 {
      EndOfRun("", owed);
      BlankBatch();
    } else {
      EndOfRun(Last(batch), owed);
      assert batch[index..|batch| - 1] == [];
      assert Trim("") == [];
    }
  }

  lemma CurrentOfClean(batch: seq<string>, index: int, owed: seq<string>)
    requires 0 <= index < |batch| - 1 && CleanPieces(batch)
    ensures Trim(batch[index]) != [] && Remaining(Some(batch), index, owed)[0] == Trim(batch[index])
  {
    assert CleanLine(Trim(batch[index]));
    RemainingHead(batch, index, owed);
  }


  lemma BlankBatch()
    ensures Trim("") == []
    ensures TrimmedNonblank(["", ""][0..1]) == []
  {
    var one: seq<string> := [""];
    assert ["", ""][0..1] == one;
    assert one[1..] == [];
  }

  /** Taking the current line moves the run on by exactly that line. */
  lemma Advance(batch: seq<string>, index: int, stream: seq<string>, owed: seq<string>)
    requires RunOk(Some(batch), index, stream, owed) && Ready(Some(batch), index, stream)
    requires Trim(batch[index]) != []
    ensures RunOk(Some(batch), index + 1, stream, owed)
    ensures Remaining(Some(batch), index + 1, owed) == Remaining(Some(batch), index, owed)[1..]
  {
    Current(batch, index, stream, owed);
    BlankBatch();
    RemainingAdvance(batch, index, owed);
  }

  lemma RemainingAdvance(batch: seq<string>, index: int, owed: seq<string>)
    requires 0 <= index < |batch| - 1 && Trim(batch[index]) != []
    ensures Remaining(Some(batch), index + 1, owed) == Remaining(Some(batch), index, owed)[1..]
  {
    RemainingHead(batch, index, owed);
  }

  /** A non-blank current element is the first line the merge will take from the run. */
  lemma RemainingHead(batch: seq<string>, index: int, owed: seq<string>)
    requires 0 <= index < |batch| - 1 && Trim(batch[index]) != []
    ensures Remaining(Some(batch), index, owed) == [Trim(batch[index])] + Remaining(Some(batch), index + 1, owed)
  {
    var later := TrimmedNonblank(batch[index + 1..|batch| - 1]);
    TrimmedFrom(batch, index);
    ConsAppend(Trim(batch[index]), later, owed);
    RemainingOf(batch, index, owed);
    RemainingOf(batch, index + 1, owed);
  }

  lemma RemainingOf(batch: seq<string>, index: int, owed: seq<string>)
    requires 0 <= index < |batch|
    ensures Remaining(Some(batch), index, owed) == TrimmedNonblank(batch[index..|batch| - 1]) + owed
  {
  }

  lemma ConsAppend(line: string, a: seq<string>, b: seq<string>)
    ensures ([line] + a) + b == [line] + (a + b)
  {
    forall i | 0 <= i < |a| + |b| + 1 ensures (([line] + a) + b)[i] == ([line] + (a + b))[i] {
    }
  }

  lemma TrimmedFrom(batch: seq<string>, index: int)
    requires 0 <= index < |batch| - 1 && Trim(batch[index]) != []
    ensures TrimmedNonblank(batch[index..|batch| - 1])
         == [Trim(batch[index])] + TrimmedNonblank(batch[index + 1..|batch| - 1])
  {
    var rest := batch[index + 1..|batch| - 1];
    assert batch[index..|batch| - 1] == [batch[index]] + rest;
    TrimmedNonblankHead(batch[index], rest);
  }

}
