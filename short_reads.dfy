/**
 * The reads a chunk file's `FileStream` returns with the buffer size `SorterOptions.BufferSize`
 * (LargeTextSort/LargeFileSorter.cs, `ReadChunk`), and when they suit the merge.
 *
 * The merge takes the current element of a batch for a line only while it is not the last
 * one, except right after a refill; a batch of one element is therefore both written and kept
 * as the carry. Reads that each hold a CR (`Aligned`) never give such a batch. Reads of a buffer
 * at least two characters longer than the longest line are aligned; a buffer just one character
 * longer, which the option's documentation allows, is not, and a line is written twice.
 */
module ShortReads {
  import opened NetText
  import opened RunReader
  import opened TempFiles

  function Min(a: int, b: int): int {
    if a <= b then a else b
  }

  /**
   * `Stream.Read(buffer, 0, size)` on a file holding `text`, from offset `from` on: full
   * buffers, then the rest; end of file once the text is used up.
   */
  function FixedReads(text: string, size: nat, from: nat): seq<string>
    requires size >= 1
    decreases |text| - from
  {
    if from >= |text| then [] else [text[from..Min(from + size, |text|)]] + FixedReads(text, size, from + size)
  }

  /** The reads are never empty and together they are the text from `from` on. */
  lemma {:induction false} FixedReadsCover(text: string, size: nat, from: nat)
    requires size >= 1 && from <= |text|
    ensures NonEmptyBlocks(FixedReads(text, size, from))
    ensures Concat(FixedReads(text, size, from)) == text[from..]
    decreases |text| - from
  {
    if from < |text| {
      var next := Min(from + size, |text|);
      var rest := FixedReads(text, size, from + size);
      if from + size <= |text| {
        FixedReadsCover(text, size, from + size);
      }
      assert text[from..] == text[from..next] + text[next..];
      assert ([text[from..next]] + rest)[1..] == rest;
    }
  }

  /** Every line is at most `width - 2` characters long: with its "\r\n" it fits in `width`. */
  predicate LinesFit(lines: seq<string>, width: int) {
    forall i :: 0 <= i < |lines| ==> |lines[i]| + 2 <= width
  }

  /** Any `width` consecutive characters of the text of lines that fit hold a CR. */
  lemma {:induction false} CrInWindow(lines: seq<string>, width: nat, p: nat)
    requires LinesFit(lines, width) && p + width <= |LinesText(lines)| && width >= 1
    ensures '\r' in LinesText(lines)[p..p + width]
    decreases |lines|
  {
    var text := LinesText(lines);
    var first := lines[0];
    var later := LinesText(lines[1..]);
    assert text == first + "\r\n" + later;
    var n := |first|;
    if p <= n {
      assert text[n] == '\r';
      assert text[p..p + width][n - p] == '\r';
    } else if p == n + 1 {
      var second := lines[1..][0];
      assert |second| + 2 <= width;
      assert later == second + "\r\n" + LinesText(lines[1..][1..]);
      assert text[n + 2 + |second|] == '\r';
      assert text[p..p + width][|second| + 1] == '\r';
    } else {
      CrInWindow(lines[1..], width, p - n - 2);
      assert text[p..p + width] == later[p - n - 2..p - n - 2 + width];
    }
  }

  /**
   * Reads of a buffer with room for the longest line and its "\r\n" are aligned: each holds
   * a CR, except that the last may be the final LF alone.
   */
  lemma {:induction false} AlignedFrom(lines: seq<string>, size: nat, from: nat)
    requires size >= 1 && LinesFit(lines, size) && from <= |LinesText(lines)|
    ensures Aligned(FixedReads(LinesText(lines), size, from))
    decreases |LinesText(lines)| - from
  {
    var text := LinesText(lines);
    if from < |text| {
      var block := text[from..Min(from + size, |text|)];
      var rest := FixedReads(text, size, from + size);
      var blocks := [block] + rest;
      if from + size <= |text| {
        AlignedFrom(lines, size, from + size);
        CrInWindow(lines, size, from);
      } else {
        LinesTextEnd(lines);
        if |text| - from >= 2 {
          assert block[|text| - 2 - from] == '\r';
        } else {
          assert block == "\n";
        }
      }
      forall k | 0 <= k < |blocks|
        ensures blocks[k] != [] && ('\r' in blocks[k] || (k == |blocks| - 1 && blocks[k] == "\n"))
      {
        if k > 0 {
          assert blocks[k] == rest[k - 1];
        }
      }
    }
  }

  /** The buffer-size requirement the merge needs, stated for a whole chunk file. */
  lemma LongEnoughBuffer(lines: seq<string>, size: nat)
    requires size >= 1 && LinesFit(lines, size)
    ensures Aligned(FixedReads(LinesText(lines), size, 0))
    ensures Concat(FixedReads(LinesText(lines), size, 0)) == LinesText(lines)
  {
    AlignedFrom(lines, size, 0);
    FixedReadsCover(LinesText(lines), size, 0);
  }

  // ---------------------------------------------------------------------------
  // What the merge writes from a run, as written
  // ---------------------------------------------------------------------------

  /**
   * The lines the merge writes from a run whose current line is the least in every round, as
   * the source does it. After each refill the current element is shown. A blank element is
   * passed over without moving the index, so when it is not the batch's last one the run stays
   * on it and writes nothing more. When the batch has a single element, that element is
   * written and then glued, as the carry, to the next read. (At end of file a non-blank carry
   * is shown again after every refill; it is written once here.)
   */
  function WrittenWhenLeast(carry: string, blocks: seq<string>): (written: seq<string>)
    requires NonEmptyBlocks(blocks)
    ensures forall i :: 0 <= i < |written| ==> written[i] != []
    decreases |blocks|
  {
    if blocks == [] then TrimmedNonblank([carry])
    else
      var batch := NextBatch(carry, blocks[0]);
      if |batch| == 1 then TrimmedNonblank(batch) + WrittenWhenLeast(Last(batch), blocks[1..])
      else
        var shown := batch[..|batch| - 1];
        if HasBlank(shown) then UpToBlank(shown)
        else UpToBlank(shown) + WrittenWhenLeast(Last(batch), blocks[1..])
  }

  /** The elements shown one after another, trimmed, up to the first blank one, where the run stays. */
  function UpToBlank(elements: seq<string>): (lines: seq<string>)
    ensures |lines| <= |elements|
    ensures forall i :: 0 <= i < |lines| ==> lines[i] != []
    decreases |elements|
  {
    if elements == [] || Trim(elements[0]) == [] then []
    else [Trim(elements[0])] + UpToBlank(elements[1..])
  }

  predicate HasBlank(elements: seq<string>) {
    exists j :: 0 <= j < |elements| && Trim(elements[j]) == []
  }

  /** A run that stays on a blank element has written a prefix of the lines its elements hold. */
  lemma {:induction false} UpToBlankPrefix(elements: seq<string>)
    ensures UpToBlank(elements) <= TrimmedNonblank(elements)
    ensures !HasBlank(elements) ==> UpToBlank(elements) == TrimmedNonblank(elements)
    decreases |elements|
  {
    if elements != [] {
      var rest := elements[1..];
      UpToBlankPrefix(rest);
      if !HasBlank(elements) {
        assert Trim(elements[0]) != [];
        assert !HasBlank(rest) by {
          forall j | 0 <= j < |rest| ensures Trim(rest[j]) != [] {
            assert rest[j] == elements[j + 1];
          }
        }
      }
    }
  }

  /** The elements before the last of a batch of clean pieces are all shown. */
  lemma CleanShown(batch: seq<string>)
    requires |batch| >= 2 && CleanPieces(batch)
    ensures !HasBlank(batch[..|batch| - 1]) && UpToBlank(batch[..|batch| - 1]) == Data(batch)
  {
    var shown := batch[..|batch| - 1];
    forall j | 0 <= j < |shown| ensures Trim(shown[j]) != [] {
      assert CleanLine(Trim(batch[j]));
    }
    UpToBlankPrefix(shown);
  }

  /**
   * On aligned reads no batch has a single element, the only blank batch is the last one, and
   * the run writes exactly what it owes.
   */
  lemma {:induction false} AlignedWritesOwed(carry: string, blocks: seq<string>, owed: seq<string>)
    requires AllClean(owed) && Aligned(blocks) && Pending(carry, Concat(blocks), owed)
    ensures WrittenWhenLeast(carry, blocks) == Reassemble(carry, blocks)
    decreases |blocks|
  {
    if blocks != [] {
      var m := ReadStep(carry, blocks, owed);
      var batch := NextBatch(carry, blocks[0]);
      RemainingAfterRead(batch, owed, m);
      if CleanPieces(batch) {
        CleanStep(carry, blocks);
        AlignedWritesOwed(Last(batch), blocks[1..], owed[m..]);
      } else {
        FinalBlankStep(carry, blocks);
      }
    }
  }

  /** A read whose batch has clean pieces writes what it hands over, and the run goes on. */
  lemma CleanStep(carry: string, blocks: seq<string>)
    requires NonEmptyBlocks(blocks) && blocks != []
    requires |NextBatch(carry, blocks[0])| >= 2 && CleanPieces(NextBatch(carry, blocks[0]))
    ensures WrittenWhenLeast(carry, blocks)
      == Data(NextBatch(carry, blocks[0])) + WrittenWhenLeast(Last(NextBatch(carry, blocks[0])), blocks[1..])
    ensures Reassemble(carry, blocks)
      == Data(NextBatch(carry, blocks[0])) + Reassemble(Last(NextBatch(carry, blocks[0])), blocks[1..])
  {
    CleanShown(NextBatch(carry, blocks[0]));
  }

  /** The last read, when its batch is ["", ""], writes and hands over nothing. */
  lemma FinalBlankStep(carry: string, blocks: seq<string>)
    requires NonEmptyBlocks(blocks) && blocks != []
    requires NextBatch(carry, blocks[0]) == ["", ""] && blocks[1..] == []
    ensures WrittenWhenLeast(carry, blocks) == [] && Reassemble(carry, blocks) == []
  {
    FinalBlankBatch(NextBatch(carry, blocks[0]));
  }

  /** The final batch ["", ""] writes nothing and hands over nothing. */
  lemma FinalBlankBatch(batch: seq<string>)
    requires batch == ["", ""]
    ensures HasBlank(batch[..1]) && UpToBlank(batch[..1]) == []
    ensures Data(batch) + Reassemble(Last(batch), []) == []
  {
    BlankBatch();
    var shown := batch[..1];
    assert shown == [""] && Trim(shown[0]) == [];
  }

  /**
   * A read of the LF alone between two lines gives the batch ["", ""]: the run stays on its
   * blank element, and the second line, which the reader hands over, is never written.
   */
  lemma BlankStalls(a: string, b: string)
    requires CleanLine(a) && CleanLine(b)
    ensures WrittenWhenLeast("", [a + "\r", "\n", b + "\r", "\n"]) == [a]
    ensures Reassemble("", [a + "\r", "\n", b + "\r", "\n"]) == [a, b]
  {
    var tail := [b + "\r", "\n"];
    assert [a + "\r", "\n", b + "\r", "\n"] == [a + "\r"] + (["\n"] + tail);
    StallWritten(a, tail);
    StallHandedOver(a, b);
  }

  lemma StallWritten(a: string, tail: seq<string>)
    requires CleanLine(a) && NonEmptyBlocks(tail)
    ensures WrittenWhenLeast("", [a + "\r"] + (["\n"] + tail)) == [a]
  {
    WrittenAfterCr(a, ["\n"] + tail);
    StallAtLineFeed(tail);
  }

  lemma StallHandedOver(a: string, b: string)
    requires CleanLine(a) && CleanLine(b)
    ensures Reassemble("", [a + "\r"] + (["\n"] + [b + "\r", "\n"])) == [a, b]
  {
    ReassembleAfterCr(a, ["\n"] + [b + "\r", "\n"]);
    HandedOverAfterStall(b);
  }

  lemma HandedOverAfterStall(b: string)
    requires CleanLine(b)
    ensures Reassemble("", ["\n"] + [b + "\r", "\n"]) == [b]
  {
    var tail := [b + "\r", "\n"];
    assert tail == [b + "\r"] + ["\n"];
    ReassembleAfterLineFeed(tail);
    ReassembleAfterCr(b, ["\n"]);
    ReassembleLineFeed();
  }

  /** A read holding one line and its CR writes that line and leaves an empty carry. */
  lemma WrittenAfterCr(line: string, rest: seq<string>)
    requires CleanLine(line) && NonEmptyBlocks(rest)
    ensures WrittenWhenLeast("", [line + "\r"] + rest) == [line] + WrittenWhenLeast("", rest)
  {
    var blocks := [line + "\r"] + rest;
    assert blocks[0] == line + "\r" && blocks[1..] == rest;
    CrBatch(line);
    CrData(line);
    var batch := [line, ""];
    assert batch[..1] == [line] && Last(batch) == "";
  }

  /** A batch ["", ""] stops the run. */
  lemma StallAtLineFeed(rest: seq<string>)
    requires NonEmptyBlocks(rest)
    ensures WrittenWhenLeast("", ["\n"] + rest) == []
  {
    var blocks := ["\n"] + rest;
    assert blocks[0] == "\n";
    BareLineFeed();
    var shown := NextBatch("", "\n")[..1];
    assert shown == [""];
    BlankBatch();
    assert Trim(shown[0]) == [];
  }

  /** A read holding one line and its CR hands over that line and leaves an empty carry. */
  lemma ReassembleAfterCr(line: string, rest: seq<string>)
    requires CleanLine(line) && NonEmptyBlocks(rest)
    ensures Reassemble("", [line + "\r"] + rest) == [line] + Reassemble("", rest)
  {
    var blocks := [line + "\r"] + rest;
    assert blocks[0] == line + "\r" && blocks[1..] == rest;
    CrBatch(line);
    CrData(line);
  }

  /** The LF that completes a CR hands over nothing. */
  lemma ReassembleAfterLineFeed(rest: seq<string>)
    requires NonEmptyBlocks(rest)
    ensures Reassemble("", ["\n"] + rest) == Reassemble("", rest)
  {
    var blocks := ["\n"] + rest;
    assert blocks[0] == "\n" && blocks[1..] == rest;
    BareLineFeed();
  }

  lemma ReassembleLineFeed()
    ensures Reassemble("", ["\n"]) == []
  {
    var blocks := ["\n"];
    assert blocks[1..] == [];
    BareLineFeed();
    BlankBatch();
  }

  /** The two lines of the examples are clean. */
  lemma ExampleLines()
    ensures CleanLine("1. a") && CleanLine("2. b")
  {
  }

  /** The batch [line, ""] shows its line. */
  lemma CrData(line: string)
    requires CleanLine(line)
    ensures Data([line, ""]) == [line] && UpToBlank([line]) == [line] && !HasBlank([line])
  {
    TrimClean(line);
    assert [line, ""][..1] == [line];
    TrimmedNonblankSingle(line);
    assert [line][1..] == [];
  }

  /**
   * A chunk file of the lines "1. a" and "2. b" read with a 5-character buffer, one more than
   * the longest line: the second read is "\n2. b", which holds no CR, and "2. b" is written twice.
   */
  lemma ShortBufferDuplicates()
    ensures !LinesFit(["1. a", "2. b"], 5) && |"1. a"| < 5 && |"2. b"| < 5
    ensures FixedReads(LinesText(["1. a", "2. b"]), 5, 0) == ["1. a\r", "\n2. b", "\r\n"]
    ensures WrittenWhenLeast("", ["1. a\r", "\n2. b", "\r\n"]) == ["1. a", "2. b", "2. b"]
    ensures Reassemble("", ["1. a\r", "\n2. b", "\r\n"]) == ["1. a", "2. b"]
  {
    ExampleReads();
    ExampleWritten();
    ExampleReassembled();
  }

  /** The line pieces each batch hands over, and the final blank carry. */
  lemma ExampleData()
    ensures Data(["1. a", ""]) == ["1. a"] && Data(["2. b", ""]) == ["2. b"]
    ensures TrimmedNonblank(["2. b"]) == ["2. b"] && TrimmedNonblank([""]) == []
  {
    TrimClean("1. a");
    TrimClean("2. b");
    BlankBatch();
    assert ["1. a", ""][..1] == ["1. a"];
    assert ["2. b", ""][..1] == ["2. b"];
    TrimmedNonblankSingle("1. a");
    TrimmedNonblankSingle("2. b");
  }

  lemma ExampleWritten()
    ensures WrittenWhenLeast("", ["1. a\r", "\n2. b", "\r\n"]) == ["1. a", "2. b", "2. b"]
  {
    ExampleLines();
    var blocks := ["1. a\r", "\n2. b", "\r\n"];
    assert blocks[1..] == ["\n2. b", "\r\n"];
    assert "1. a" + "\r" == "1. a\r";
    assert blocks == ["1. a" + "\r"] + blocks[1..];
    WrittenAfterCr("1. a", blocks[1..]);
    WrittenSecond();
  }

  lemma WrittenSecond()
    ensures WrittenWhenLeast("", ["\n2. b", "\r\n"]) == ["2. b", "2. b"]
  {
    var blocks := ["\n2. b", "\r\n"];
    assert blocks[1..] == ["\r\n"];
    SecondBatch();
    ExampleData();
    WrittenThird();
  }

  lemma WrittenThird()
    ensures WrittenWhenLeast("2. b", ["\r\n"]) == ["2. b"]
  {
    ExampleLines();
    var blocks := ["\r\n"];
    assert blocks[1..] == [];
    ThirdBatch();
    CrData("2. b");
  }

  lemma ExampleReassembled()
    ensures Reassemble("", ["1. a\r", "\n2. b", "\r\n"]) == ["1. a", "2. b"]
  {
    ExampleLines();
    var blocks := ["1. a\r", "\n2. b", "\r\n"];
    assert blocks[1..] == ["\n2. b", "\r\n"];
    CrBatch("1. a");
    assert "1. a" + "\r" == "1. a\r";
    ExampleData();
    ReassembledSecond();
  }

  lemma ReassembledSecond()
    ensures Reassemble("", ["\n2. b", "\r\n"]) == ["2. b"]
  {
    var blocks := ["\n2. b", "\r\n"];
    assert blocks[1..] == ["\r\n"];
    SecondBatch();
    assert Data(["2. b"]) == [];
    ReassembledThird();
  }

  lemma ReassembledThird()
    ensures Reassemble("2. b", ["\r\n"]) == ["2. b"]
  {
    var blocks := ["\r\n"];
    assert blocks[1..] == [];
    ThirdBatch();
    ExampleData();
  }

  lemma ExampleReads()
    ensures FixedReads(LinesText(["1. a", "2. b"]), 5, 0) == ["1. a\r", "\n2. b", "\r\n"]
  {
    var lines := ["1. a", "2. b"];
    assert lines[1..] == ["2. b"] && lines[1..][1..] == [];
    var text := LinesText(lines);
    assert text == "1. a\r\n2. b\r\n";
    assert text[0..5] == "1. a\r" && text[5..10] == "\n2. b" && text[10..12] == "\r\n";
    assert FixedReads(text, 5, 15) == [];
  }

  /** A line and its CR: the split is padded with an empty carry. */
  lemma CrBatch(line: string)
    requires NoLineBreak(line)
    ensures NextBatch("", line + "\r") == [line, ""]
  {
    var s := line + "\r";
    assert NoLineFeed(s) by {
      forall i | 0 <= i < |s| ensures s[i] != '\n' {
        if i < |line| {
          assert s[i] == line[i];
        }
      }
    }
    SplitWithoutLineFeed(s);
    TrimLineBreaksKeeps([], line, "\r");
    assert [] + line + "\r" == s;
    TrimLineBreaksNone("");
    var padded := Padded(SplitCrLf(s));
    assert padded == [s, ""];
    assert TrimLineBreaks("") + TrimLineBreaks(padded[0]) == line;
    assert padded[0 := line] == [line, ""];
  }

  /** "\n2. b": no CR, so the batch is a single element, the carry grown by the line. */
  lemma SecondBatch()
    ensures NextBatch("", "\n2. b") == ["2. b"]
  {
    SecondSplit();
    SecondTrim();
    TrimLineBreaksNone("");
    var padded := Padded(SplitCrLf("\n2. b"));
    assert TrimLineBreaks("") + TrimLineBreaks(padded[0]) == "2. b";
    assert padded[0 := "2. b"] == ["2. b"];
  }

  lemma SecondSplit()
    ensures Padded(SplitCrLf("\n2. b")) == ["\n2. b"]
  {
    SplitWithoutLineFeed("2. b");
    SplitLeadingLf("2. b");
    assert "\n" + "2. b" == "\n2. b";
    assert SplitCrLf("\n2. b") == ["\n2. b"];
  }

  lemma SecondTrim()
    ensures TrimLineBreaks("\n2. b") == "2. b"
  {
    TrimLineBreaksLeadingLf("2. b");
    TrimLineBreaksNone("2. b");
    assert "\n" + "2. b" == "\n2. b";
  }


  /** "\r\n": the carry "2. b" is completed by the separator and handed over again. */
  lemma ThirdBatch()
    ensures NextBatch("2. b", "\r\n") == ["2. b", ""]
  {
    assert "\r\n"[2..] == [];
    assert SplitCrLf("\r\n") == ["", ""];
    var padded := Padded(SplitCrLf("\r\n"));
    assert padded == ["", ""];
    TrimLineBreaksNone("2. b");
    TrimLineBreaksNone("");
    assert TrimLineBreaks("2. b") + TrimLineBreaks(padded[0]) == "2. b";
    assert padded[0 := "2. b"] == ["2. b", ""];
  }
}
