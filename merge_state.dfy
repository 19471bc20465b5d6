/**
 * The state of the k-way merge (LargeTextSort/LargeFileSorter.cs, `MergeChunks`) as values:
 * the dictionary of open runs, the lines each run still holds, the selection of the least
 * current line, and the facts that writing a line or closing a run keep the merge on track.
 */
module MergeState {
  import opened Outcomes
  import opened NetText
  import opened LineOrder
  import opened ChunkProducer
  import opened RunReader
  import opened TempFiles

  predicate NoDuplicates(keys: seq<string>) {
    forall i, j :: 0 <= i < j < |keys| ==> keys[i] != keys[j]
  }

  /** The lines all open runs still hold, with multiplicity. */
  function Pool(keys: seq<string>, rems: map<string, seq<string>>): multiset<string>
    requires forall k :: k in keys ==> k in rems
    decreases |keys|
  {
    if keys == [] then multiset{} else multiset(rems[keys[0]]) + Pool(keys[1..], rems)
  }

  /** A run's reader state agrees with the lines it owes and with the lines the merge will take from it. */
  ghost predicate Holds(file: TempFile, owed: seq<string>, rem: seq<string>)
    reads file
  {
    RunHolds(file.lines, file.chunkLineIndex, file.stream, owed, rem)
  }

  /** `Holds` on the fields of a run. */
  ghost predicate RunHolds(lines: Option<seq<string>>, index: int, stream: seq<string>, owed: seq<string>, rem: seq<string>) {
    lines.Some? && RunOk(lines, index, stream, owed)
    && Remaining(lines, index, owed) == rem && SortedLines(rem)
  }

  /** The run's index has just moved past the element that, trimmed, is `line`. */
  predicate MovedPast(file: TempFile, line: string)
    reads file
  {
    JustPast(file.lines, file.chunkLineIndex, line)
  }

  /** `MovedPast` on the fields of a run. */
  predicate JustPast(lines: Option<seq<string>>, index: int, line: string) {
    lines.Some? && 1 <= index <= |lines.value| && Trim(lines.value[index - 1]) == line
  }

  ghost predicate IsReady(file: TempFile)
    reads file
  {
    Ready(file.lines, file.chunkLineIndex, file.stream)
  }

  /**
   * The dictionary of open runs: `keys` in enumeration order, one distinct `TempFile` per key,
   * each consistent with the lines it owes, and `rems` the lines the merge will still take from it.
   */
  ghost predicate OpenRuns(keys: seq<string>, files: map<string, TempFile>,
                           owed: map<string, seq<string>>, rems: map<string, seq<string>>)
    reads set k | k in keys && k in files :: files[k]
  {
    NoDuplicates(keys)
    && (forall k :: k in keys ==> k in files && k in owed && k in rems)
    && (forall k1, k2 :: k1 in keys && k2 in keys && k1 != k2 ==> files[k1] != files[k2])
    && forall k :: k in keys ==> files[k].fileName == k && Holds(files[k], owed[k], rems[k])
  }

  /** The first `t` open runs show their current element (they have been refilled when needed). */
  ghost predicate ReadyUpTo(keys: seq<string>, t: int, files: map<string, TempFile>)
    reads set k | k in keys && k in files :: files[k]
  {
    forall i :: 0 <= i < t && i < |keys| ==> keys[i] in files && IsReady(files[keys[i]])
  }

  /** A new run added to the dictionary under a new key. */
  lemma AddRun(keys: seq<string>, files: map<string, TempFile>, owed: map<string, seq<string>>,
               rems: map<string, seq<string>>, file: TempFile, o: seq<string>, lines: seq<string>)
    requires OpenRuns(keys, files, owed, rems) && file.fileName !in keys
    requires forall k :: k in keys ==> files[k] != file
    requires Holds(file, o, lines)
    ensures OpenRuns(keys + [file.fileName], files[file.fileName := file],
                     owed[file.fileName := o], rems[file.fileName := lines])
  {
  }

  /** Closing the first run of the dictionary keeps the others open and consistent. */
  lemma Retire(keys: seq<string>, files: map<string, TempFile>,
               owed: map<string, seq<string>>, rems: map<string, seq<string>>)
    requires OpenRuns(keys, files, owed, rems) && keys != []
    ensures OpenRuns(keys[1..], files - {keys[0]}, owed, rems)
  {
    var rest := keys[1..];
    forall k | k in rest ensures k != keys[0] && k in keys {
      var i :| 0 <= i < |rest| && rest[i] == k;
      assert keys[i + 1] == k;
    }
  }

  /**
   * The least line among the current lines of the runs `seen`, and the first run showing it:
   * every run before it shows a strictly greater line or none. Both are empty when none of the
   * runs has a line left.
   */
  ghost predicate Best(seen: seq<string>, rems: map<string, seq<string>>, minValue: string, minName: string)
    requires forall k :: k in seen ==> k in rems
  {
    (minName == "" ==> minValue == "" && forall k :: k in seen ==> rems[k] == [])
    && (minName != "" ==>
          minName in seen && rems[minName] != [] && minValue == rems[minName][0] && minValue != ""
          && (forall k :: k in seen && rems[k] != [] ==> LineLeq(minValue, rems[k][0]))
          && forall i, j :: 0 <= j < i < |seen| && seen[i] == minName && rems[seen[j]] != [] ==>
               LineLess(minValue, rems[seen[j]][0]))
  }

  /**
   * One step of the selection over `keys[t]`: a blank line is skipped, a strictly smaller one
   * replaces the minimum, an equal or greater one leaves it.
   */
  lemma BestStep(keys: seq<string>, t: int, rems: map<string, seq<string>>,
                 minValue: string, minName: string, line: string)
    requires 0 <= t < |keys| && keys[t] != "" && NoDuplicates(keys)
    requires forall k :: k in keys ==> k in rems && SortedLines(rems[k])
    requires Best(keys[..t], rems, minValue, minName)
    requires line == [] <==> rems[keys[t]] == []
    requires line != [] ==> line == rems[keys[t]][0]
    ensures line != "" && minValue != "" ==> WellFormed(line) && WellFormed(minValue)
    ensures if line != "" && (minValue == "" || Compare(line, minValue).value < 0)
            then Best(keys[..t + 1], rems, line, keys[t])
            else Best(keys[..t + 1], rems, minValue, minName)
  {
    var name := keys[t];
    if line != "" {
      assert WellFormed(line) by {
        assert AllWellFormed(rems[name]);
      }
      if minValue != "" {
        assert WellFormed(minValue) by {
          assert AllWellFormed(rems[minName]);
        }
      }
      if minValue == "" || Compare(line, minValue).value < 0 {
        NewFirst(keys, t, rems, minValue, minName, line);
      } else {
        CompareAntisymmetric(line, minValue);
        KeepFirst(keys, t, rems, minValue, minName);
      }
    } else {
      KeepFirst(keys, t, rems, minValue, minName);
    }
  }

  /** A line at `keys[t]` strictly below the minimum so far becomes the first least line. */
  lemma NewFirst(keys: seq<string>, t: int, rems: map<string, seq<string>>,
                 minValue: string, minName: string, line: string)
    requires 0 <= t < |keys| && keys[t] != "" && NoDuplicates(keys)
    requires forall k :: k in keys ==> k in rems
    requires Best(keys[..t], rems, minValue, minName)
    requires rems[keys[t]] != [] && line == rems[keys[t]][0] && line != ""
    requires WellFormed(line) && (minValue == "" || LineLess(line, minValue))
    ensures Best(keys[..t + 1], rems, line, keys[t])
  {
    var name := keys[t];
    assert keys[..t + 1] == keys[..t] + [name];
    forall k | k in keys[..t + 1] && rems[k] != [] ensures LineLeq(line, rems[k][0]) {
      if k == name {
        CompareReflexive(line);
      } else if minValue != "" {
        CompareTransitive(line, minValue, rems[k][0]);
      }
    }
    var seen := keys[..t + 1];
    forall i, j | 0 <= j < i < |seen| && seen[i] == name && rems[seen[j]] != []
      ensures LineLess(line, rems[seen[j]][0])
    {
      var k := keys[j];
      assert keys[..t][j] == k;
      CompareTransitive(line, minValue, rems[k][0]);
    }
  }

  /**
   * When `keys[t]` shows no line, or one no smaller than the minimum so far, the selection
   * stays with the earlier run.
   */
  lemma KeepFirst(keys: seq<string>, t: int, rems: map<string, seq<string>>, minValue: string, minName: string)
    requires 0 <= t < |keys| && NoDuplicates(keys)
    requires forall k :: k in keys ==> k in rems
    requires Best(keys[..t], rems, minValue, minName)
    requires rems[keys[t]] == [] || (minName != "" && LineLeq(minValue, rems[keys[t]][0]))
    ensures Best(keys[..t + 1], rems, minValue, minName)
  {
    var seen := keys[..t + 1];
    assert seen == keys[..t] + [keys[t]];
    if minName != "" {
      forall i, j | 0 <= j < i < |seen| && seen[i] == minName && rems[seen[j]] != []
        ensures LineLess(minValue, rems[seen[j]][0])
      {
        assert keys[..t][i] == keys[i] && keys[..t][j] == keys[j];
      }
    }
  }

  /** Each run's remaining lines are in comparer order. */
  ghost predicate RunsSorted(keys: seq<string>, rems: map<string, seq<string>>) {
    forall k :: k in keys ==> k in rems && SortedLines(rems[k])
  }

  lemma SortedSuffix(lines: seq<string>, n: nat)
    requires SortedLines(lines) && n <= |lines|
    ensures SortedLines(lines[n..])
  {
    forall i, j | 0 <= i < j < |lines| - n ensures LineLeq(lines[n..][i], lines[n..][j]) {
      assert lines[n..][i] == lines[n + i] && lines[n..][j] == lines[n + j];
    }
  }

  /** A run that gives up its first line stays sorted. */
  lemma TakeSorted(keys: seq<string>, rems: map<string, seq<string>>, name: string)
    requires RunsSorted(keys, rems) && name in keys && rems[name] != []
    ensures RunsSorted(keys, rems[name := rems[name][1..]])
  {
    SortedSuffix(rems[name], 1);
  }

  /** Every line the open runs still hold comes at or after `x` in comparer order. */
  ghost predicate Bound(x: string, keys: seq<string>, rems: map<string, seq<string>>)
    requires forall k :: k in keys ==> k in rems
  {
    forall k, j :: k in keys && 0 <= j < |rems[k]| ==> LineLeq(x, rems[k][j])
  }

  /** Writing a line after lines that all come at or before it keeps the output sorted. */
  lemma SortedAppend(written: seq<string>, x: string)
    requires SortedLines(written) && WellFormed(x)
    requires written != [] ==> LineLeq(written[|written| - 1], x)
    ensures SortedLines(written + [x])
  {
    AdjacentIsSorted(written);
    AdjacentAppend(written, x);
    AdjacentIsSorted(written + [x]);
  }

  lemma AdjacentAppend(written: seq<string>, x: string)
    requires AdjacentInOrder(written) && WellFormed(x)
    requires written != [] ==> LineLeq(written[|written| - 1], x)
    ensures AdjacentInOrder(written + [x])
  {
    var all := written + [x];
    forall i | 0 <= i < |all| ensures WellFormed(all[i]) {
      if i < |written| {
        assert all[i] == written[i];
      }
    }
    forall i | 0 <= i < |all| - 1 ensures LineLeq(all[i], all[i + 1]) {
      assert all[i] == written[i];
      if i + 1 < |written| {
        assert all[i + 1] == written[i + 1];
      } else {
        assert all[i + 1] == x;
      }
    }
  }



  /**
   * The line selected as the least current line comes at or before every line the runs hold,
   * including the rest of its own run.
   */
  lemma SelectedIsLeast(keys: seq<string>, rems: map<string, seq<string>>, minValue: string, minName: string)
    requires forall k :: k in keys ==> k in rems && SortedLines(rems[k])
    requires Best(keys, rems, minValue, minName) && minName != ""
    ensures Bound(minValue, keys, rems)
    ensures Bound(minValue, keys, rems[minName := rems[minName][1..]])
  {
    forall k, j | k in keys && 0 <= j < |rems[k]| ensures LineLeq(minValue, rems[k][j]) {
      if j > 0 {
        CompareTransitive(minValue, rems[k][0], rems[k][j]);
      }
    }
    var taken := rems[minName := rems[minName][1..]];
    forall k, j | k in keys && 0 <= j < |taken[k]| ensures LineLeq(minValue, taken[k][j]) {
      if k == minName {
        assert taken[k][j] == rems[k][j + 1];
      }
    }
  }

  /** Taking a run's first line removes exactly that line from the pool. */
  lemma {:induction false} PoolTake(keys: seq<string>, rems: map<string, seq<string>>, name: string)
    requires NoDuplicates(keys) && forall k :: k in keys ==> k in rems
    requires name in keys && rems[name] != []
    ensures Pool(keys, rems[name := rems[name][1..]]) + multiset{rems[name][0]} == Pool(keys, rems)
    decreases |keys|
  {
    var taken := rems[name := rems[name][1..]];
    assert rems[name] == [rems[name][0]] + rems[name][1..];
    if keys[0] == name {
      assert name !in keys[1..];
      PoolOther(keys[1..], rems, name, rems[name][1..]);
    } else {
      PoolTake(keys[1..], rems, name);
    }
  }

  /** The pool of runs other than `name` does not depend on `name`'s lines. */
  lemma {:induction false} PoolOther(keys: seq<string>, rems: map<string, seq<string>>, name: string, lines: seq<string>)
    requires forall k :: k in keys ==> k in rems
    requires name !in keys
    ensures Pool(keys, rems[name := lines]) == Pool(keys, rems)
    decreases |keys|
  {
    if keys != [] {
      PoolOther(keys[1..], rems, name, lines);
    }
  }

  /** The runs opened from the chunks hold, together, exactly the chunks' lines. */
  lemma {:induction false} PoolOfChunks(names: seq<string>, chunks: seq<seq<string>>, rems: map<string, seq<string>>)
    requires |names| == |chunks|
    requires forall i :: 0 <= i < |names| ==> names[i] in rems && rems[names[i]] == chunks[i]
    ensures Pool(names, rems) == multiset(Flatten(chunks))
    decreases |names|
  {
    if names != [] {
      PoolOfChunks(names[1..], chunks[1..], rems);
    }
  }

  /** Runs with nothing left hold nothing. */
  lemma {:induction false} PoolOfEmpty(keys: seq<string>, rems: map<string, seq<string>>)
    requires forall k :: k in keys ==> k in rems && rems[k] == []
    ensures Pool(keys, rems) == multiset{}
    decreases |keys|
  {
    if keys != [] {
      PoolOfEmpty(keys[1..], rems);
    }
  }

  /** A chunk file before its first read: nothing carried, its whole text unread. */
  lemma StartRun(lines: seq<string>)
    ensures Pending("", LinesText(lines), lines)
  {
    if lines != [] {
      assert "" <= lines[0];
      assert "" + LinesText(lines) == LinesText(lines);
    }
  }

  /** `writer.WriteLine(minvalue)` extends the output text by that line. */
  lemma WriteLine(written: seq<string>, line: string)
    ensures LinesText(written + [line]) == LinesText(written) + line + "\r\n"
  {
    LinesTextAppend(written, [line]);
    assert LinesText([line]) == line + "\r\n" + LinesText([]);
  }

  /**
   * The merge so far: the lines written and the lines the runs hold are together the chunks'
   * lines, the written lines are in comparer order, and none of the held lines comes before the
   * last line written.
   */
  ghost predicate Progress(merged: seq<string>, keys: seq<string>, rems: map<string, seq<string>>,
                           chunks: seq<seq<string>>)
    requires forall k :: k in keys ==> k in rems
  {
    multiset(merged) + Pool(keys, rems) == multiset(Flatten(chunks))
    && SortedLines(merged)
    && (merged != [] ==> Bound(merged[|merged| - 1], keys, rems))
  }

  /** Writing the selected line and advancing its run keeps the merge on track, with one line fewer held. */
  lemma EmitKeeps(merged: seq<string>, keys: seq<string>, rems: map<string, seq<string>>,
                  chunks: seq<seq<string>>, minValue: string, minName: string)
    requires NoDuplicates(keys) && RunsSorted(keys, rems)
    requires Progress(merged, keys, rems, chunks)
    requires Best(keys, rems, minValue, minName) && minName != ""
    ensures Progress(merged + [minValue], keys, rems[minName := rems[minName][1..]], chunks)
    ensures |Pool(keys, rems[minName := rems[minName][1..]])| < |Pool(keys, rems)|
    ensures LinesText(merged + [minValue]) == LinesText(merged) + minValue + "\r\n"
  {
    SelectedIsLeast(keys, rems, minValue, minName);
    assert WellFormed(minValue) by {
      assert AllWellFormed(rems[minName]);
    }
    SortedAppend(merged, minValue);
    WriteLine(merged, minValue);
    PoolTake(keys, rems, minName);
    assert (merged + [minValue])[|merged|] == minValue;
  }

  /** Closing the first run when no run has a line left loses no line. */
  lemma RetireKeeps(merged: seq<string>, keys: seq<string>, rems: map<string, seq<string>>,
                    chunks: seq<seq<string>>)
    requires keys != [] && forall k :: k in keys ==> k in rems
    requires Progress(merged, keys, rems, chunks) && Best(keys, rems, "", "")
    ensures Progress(merged, keys[1..], rems, chunks)
    ensures Pool(keys[1..], rems) == Pool(keys, rems)
  {
    PoolOfEmpty(keys, rems);
    PoolOfEmpty(keys[1..], rems);
  }

  /**
   * The heap-free part of the merge state: runs `deleted` are closed and `keys` open, in the
   * order of `names`; the output text holds the lines `merged` written so far.
   */
  ghost predicate Merged(names: seq<string>, keys: seq<string>, rems: map<string, seq<string>>,
                         merged: seq<string>, output: string, deleted: seq<string>, chunks: seq<seq<string>>)
  {
    (forall k :: k in keys ==> k != "")
    && deleted + keys == names
    && output == LinesText(merged)
    && RunsSorted(keys, rems) && Progress(merged, keys, rems, chunks)
  }

  /** Moving the first open run to the closed ones keeps them, together, the chunk file names. */
  lemma ShiftFirst(deleted: seq<string>, keys: seq<string>)
    requires keys != []
    ensures (deleted + [keys[0]]) + keys[1..] == deleted + keys
  {
    assert keys == [keys[0]] + keys[1..];
  }

  /** Taking a run's current line: the run stays consistent and holds the rest of its lines. */
  lemma TakeFromRun(lines: Option<seq<string>>, index: int, stream: seq<string>, owed: seq<string>, rem: seq<string>)
    requires RunHolds(lines, index, stream, owed, rem) && Ready(lines, index, stream) && rem != []
    ensures RunHolds(lines, index + 1, stream, owed, rem[1..])
    ensures JustPast(lines, index + 1, rem[0])
  {
    var batch := lines.value;
    assert lines == Some(batch);
    Current(batch, index, stream, owed);
    Advance(batch, index, stream, owed);
    SortedSuffix(rem, 1);
  }

  /** The next chunk file name is new among those opened before it. */
  lemma NextName(names: seq<string>, i: int)
    requires NoDuplicates(names) && 0 <= i < |names|
    ensures names[..i + 1] == names[..i] + [names[i]] && names[i] !in names[..i]
  {
  }

  /** Before the first round: nothing written, nothing closed, every run open. */
  lemma MergeStart(names: seq<string>, rems: map<string, seq<string>>, chunks: seq<seq<string>>)
    requires forall k :: k in names ==> k != ""
    requires RunsSorted(names, rems) && Pool(names, rems) == multiset(Flatten(chunks))
    ensures Merged(names, names, rems, [], "", [], chunks)
  {
    assert [] + names == names;
    assert multiset([]) + Pool(names, rems) == Pool(names, rems);
  }
}
