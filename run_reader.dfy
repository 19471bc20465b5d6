/**
 * The line reassembly of `ReadChunk` (LargeTextSort/LargeFileSorter.cs): a chunk file is read
 * in raw blocks; each block is split on "\r\n", the previous batch's last element (the carry)
 * is glued, trimmed of CR/LF, to the first piece, and an empty piece is appended when the
 * block ends on a bare CR or LF. `Reassemble` collects, batch by batch, the trimmed, non-blank
 * elements before the last one, and the carry left at end of file: the lines the reader hands
 * over. The merge takes exactly these only when every read holds a CR (`ShortReads.Aligned`,
 * see `ShortReads.AlignedWritesOwed`); otherwise it may write a batch's only element as well as
 * keep it as the carry, and a blank element is never moved past: the run shows no line from
 * then on, and what follows the blank is never written (the reads "1. a\r", "\n", "2. b\r\n"
 * give the batch ["", ""], `BareLineFeed`, and "2. b" is lost: `ShortReads.BlankStalls`).
 *
 * A read is modelled as the block of characters `Stream.Read` returned; end of file is the
 * end of the block sequence (a read of zero bytes).
 */
module RunReader {
  import opened NetText

  /** The file content, as the concatenation of its reads. */
  function Concat(blocks: seq<string>): string
    decreases |blocks|
  {
    if blocks == [] then [] else blocks[0] + Concat(blocks[1..])
  }

  /** Reads are never empty: a read of zero bytes is end of file. */
  predicate NonEmptyBlocks(blocks: seq<string>) {
    forall k :: 0 <= k < |blocks| ==> blocks[k] != []
  }

  predicate EndsWithLineBreak(s: string) {
    s != [] && IsLineBreak(s[|s| - 1])
  }

  /** The batch `ReadChunk` builds from the carry `lastLine` and a non-empty block. */
  function NextBatch(lastLine: string, block: string): (batch: seq<string>)
    ensures |batch| >= 1
  {
    var padded := Padded(SplitCrLf(block));
    padded[0 := TrimLineBreaks(lastLine) + TrimLineBreaks(padded[0])]
  }

  /** The pieces with an empty one appended when the last ends on a bare CR or LF. */
  function Padded(parts: seq<string>): (padded: seq<string>)
    requires |parts| >= 1
    ensures |padded| >= 1
  {
    if EndsWithLineBreak(parts[|parts| - 1]) then parts + [""] else parts
  }

  /** The elements, each trimmed, with the blank ones dropped. */
  function TrimmedNonblank(elements: seq<string>): (lines: seq<string>)
    ensures |lines| <= |elements|
    decreases |elements|
  {
    if elements == [] then []
    else if Trim(elements[0]) == [] then TrimmedNonblank(elements[1..])
    else [Trim(elements[0])] + TrimmedNonblank(elements[1..])
  }

  /** The lines a batch holds: its elements before the last one, trimmed, blank ones dropped. */
  function Data(batch: seq<string>): seq<string>
    requires |batch| >= 1
  {
    TrimmedNonblank(batch[..|batch| - 1])
  }

  function Last(batch: seq<string>): string
    requires |batch| >= 1
  {
    batch[|batch| - 1]
  }

  /**
   * The lines a run still yields from carry `carry` and the reads `blocks` not done yet:
   * the data of every further batch, then the carry left at end of file.
   */
  function Reassemble(carry: string, blocks: seq<string>): seq<string>
    requires NonEmptyBlocks(blocks)
    decreases |blocks|
  {
    if blocks == [] then TrimmedNonblank([carry])
    else
      var batch := NextBatch(carry, blocks[0]);
      Data(batch) + Reassemble(Last(batch), blocks[1..])
  }

  // ---------------------------------------------------------------------------
  // Splitting text made of lines
  // ---------------------------------------------------------------------------

  predicate NoLineFeed(s: string) {
    forall i :: 0 <= i < |s| ==> s[i] != '\n'
  }

  predicate AllNoLineBreak(ls: seq<string>) {
    forall k :: 0 <= k < |ls| ==> NoLineBreak(ls[k])
  }

  /** Text without LF holds no separator, so it splits into itself. */
  lemma {:induction false} SplitWithoutLineFeed(s: string)
    requires NoLineFeed(s)
    ensures SplitCrLf(s) == [s]
    decreases |s|
  {
    if s != [] {
      SplitWithoutLineFeed(s[1..]);
      assert [s[0]] + s[1..] == s;
    }
  }

  /** A piece without CR or LF followed by the separator is split off whole. */
  lemma {:induction false} SplitFirstLine(x: string, t: string)
    requires NoLineBreak(x)
    ensures SplitCrLf(x + "\r\n" + t) == [x] + SplitCrLf(t)
    decreases |x|
  {
    var s := x + "\r\n" + t;
    if x == [] {
      assert s == "\r\n" + t;
      assert s[2..] == t;
    } else {
      assert s[1..] == x[1..] + "\r\n" + t;
      SplitFirstLine(x[1..], t);
      assert [x[0]] + x[1..] == x;
    }
  }

  /** `LinesText(ls) + frag` splits into the lines followed by the fragment. */
  lemma {:induction false} SplitLines(ls: seq<string>, frag: string)
    requires AllNoLineBreak(ls) && NoLineFeed(frag)
    ensures SplitCrLf(LinesText(ls) + frag) == ls + [frag]
    decreases |ls|
  {
    if ls == [] {
      SplitWithoutLineFeed(frag);
      assert LinesText(ls) + frag == frag;
    } else {
      assert LinesText(ls) + frag == ls[0] + "\r\n" + (LinesText(ls[1..]) + frag);
      SplitFirstLine(ls[0], LinesText(ls[1..]) + frag);
      SplitLines(ls[1..], frag);
      assert ls == [ls[0]] + ls[1..];
    }
  }

  /**
   * A prefix of the text of `ls` is some whole lines followed by a fragment of the next line,
   * possibly with its CR.
   */
  lemma {:induction false} PrefixOfLines(ls: seq<string>, b: string) returns (k: nat, frag: string)
    requires b <= LinesText(ls)
    ensures k <= |ls| && b == LinesText(ls[..k]) + frag
    ensures k == |ls| ==> frag == []
    ensures k < |ls| ==> frag <= ls[k] + "\r"
    decreases |ls|
  {
    if ls == [] {
      k, frag := 0, [];
      assert ls[..0] == [];
    } else {
      var text := LinesText(ls);
      assert text == ls[0] + "\r\n" + LinesText(ls[1..]);
      if |b| <= |ls[0]| + 1 {
        k, frag := 0, b;
        assert ls[..0] == [];
        assert b == text[..|b|];
        assert (ls[0] + "\r")[..|b|] == text[..|b|];
      } else {
        var first := ls[0] + "\r\n";
        assert text[..|first|] == first;
        assert b[..|first|] == first;
        var b' := b[|first|..];
        assert b' <= LinesText(ls[1..]) by {
          assert text[|first|..] == LinesText(ls[1..]);
        }
        var k', frag' := PrefixOfLines(ls[1..], b');
        k, frag := k' + 1, frag';
        assert ls[..k] == [ls[0]] + ls[1..][..k'];
        assert LinesText(ls[..k]) == first + LinesText(ls[1..][..k']);
        assert b == first + b';
      }
    }
  }

  // ---------------------------------------------------------------------------
  // Trimmed, non-blank elements
  // ---------------------------------------------------------------------------

  /** Every element but the last trims to a line that needs no further trimming. */
  predicate CleanPieces(batch: seq<string>) {
    forall j :: 0 <= j < |batch| - 1 ==> CleanLine(Trim(batch[j]))
  }

  lemma {:induction false} TrimmedNonblankAppend(a: seq<string>, b: seq<string>)
    ensures TrimmedNonblank(a + b) == TrimmedNonblank(a) + TrimmedNonblank(b)
    decreases |a|
  {
    if a == [] {
      assert a + b == b;
    } else {
      assert (a + b)[0] == a[0];
      assert (a + b)[1..] == a[1..] + b;
      TrimmedNonblankAppend(a[1..], b);
    }
  }

  /** Clean lines pass through unchanged. */
  lemma {:induction false} TrimmedNonblankClean(lines: seq<string>)
    requires AllClean(lines)
    ensures TrimmedNonblank(lines) == lines
    decreases |lines|
  {
    if lines != [] {
      TrimmedNonblankCons(lines[0], lines[1..]);
      TrimmedNonblankClean(lines[1..]);
      assert lines == [lines[0]] + lines[1..];
    }
  }

  lemma TrimmedNonblankCons(line: string, lines: seq<string>)
    requires CleanLine(line)
    ensures TrimmedNonblank([line] + lines) == [line] + TrimmedNonblank(lines)
  {
    TrimClean(line);
    assert ([line] + lines)[1..] == lines;
  }

  /** Clean lines, the last still carrying its CR, trim back to the lines. */
  lemma TrimmedNonblankWithCr(lines: seq<string>, line: string)
    requires AllClean(lines) && CleanLine(line)
    ensures TrimmedNonblank(lines + [line + "\r"]) == lines + [line]
  {
    TrimmedNonblankAppend(lines, [line + "\r"]);
    TrimmedNonblankClean(lines);
    TrimmedNonblankCr(line);
  }

  lemma TrimmedNonblankCr(line: string)
    requires CleanLine(line)
    ensures TrimmedNonblank([line + "\r"]) == [line]
  {
    TrimClean(line);
    TrimmedNonblankSingle(line + "\r");
  }

  lemma TrimmedNonblankHead(element: string, elements: seq<string>)
    requires Trim(element) != []
    ensures TrimmedNonblank([element] + elements) == [Trim(element)] + TrimmedNonblank(elements)
  {
    assert ([element] + elements)[1..] == elements;
  }

  lemma TrimmedNonblankSingle(element: string)
    requires Trim(element) != []
    ensures TrimmedNonblank([element]) == [Trim(element)]
  {
    assert [element][1..] == [];
  }

  // ---------------------------------------------------------------------------
  // One read
  // ---------------------------------------------------------------------------

  /**
   * Where the reader stands with respect to the lines `rest` the run still owes, given the
   * carry (last element of the current batch) and the text not read yet: at the end; inside
   * the first owed line (the carry is its start); or just after a CR whose LF is unread.
   */
  predicate Pending(carry: string, unread: string, rest: seq<string>) {
    (rest == [] && carry == [] && unread == [])
    || (rest != [] && carry <= rest[0] && carry + unread == LinesText(rest))
    || (carry == [] && unread == "\n" + LinesText(rest))
  }

  /** The pieces `Split("\r\n")` gives for whole lines and a fragment, padded when it ends on CR. */
  function Pieces(ls: seq<string>, k: nat, frag: string): seq<string>
    requires k <= |ls|
  {
    ls[..k] + [frag] + (if EndsWithLineBreak(frag) then [""] else [])
  }

  /** The padded split of a read that ends after `k` whole lines and the fragment `frag`. */
  lemma PaddedOfLines(ls: seq<string>, k: nat, frag: string)
    requires AllNoLineBreak(ls) && NoLineFeed(frag) && k <= |ls|
    ensures Padded(SplitCrLf(LinesText(ls[..k]) + frag)) == Pieces(ls, k, frag)
  {
    assert AllNoLineBreak(ls[..k]) by {
      forall j | 0 <= j < k ensures NoLineBreak(ls[..k][j]) {
        assert ls[..k][j] == ls[j];
      }
    }
    SplitLines(ls[..k], frag);
    var parts := SplitCrLf(LinesText(ls[..k]) + frag);
    assert parts[|parts| - 1] == frag;
  }

  lemma TrimLineBreaksNone(s: string)
    requires NoLineBreak(s)
    ensures TrimLineBreaks(s) == s
  {
    TrimLineBreaksKeeps([], s, []);
    assert [] + s + [] == s;
  }

  lemma NextBatchOfLines(carry: string, ls: seq<string>, k: nat, frag: string)
    requires NoLineBreak(carry) && AllNoLineBreak(ls) && NoLineFeed(frag) && k <= |ls|
    ensures NextBatch(carry, LinesText(ls[..k]) + frag)
         == Pieces(ls, k, frag)[0 := carry + TrimLineBreaks(Pieces(ls, k, frag)[0])]
  {
    PaddedOfLines(ls, k, frag);
    TrimLineBreaksNone(carry);
  }

  /** A read taken from `unread` hands the merge `rest[..m]` and leaves the reader pending on `rest[m..]`. */
  predicate Consumes(carry: string, block: string, unread: string, rest: seq<string>, m: nat) {
    |block| <= |unread| && m <= |rest|
    && Data(NextBatch(carry, block)) == rest[..m]
    && Pending(Last(NextBatch(carry, block)), unread[|block|..], rest[m..])
  }

  /**
   * The text still owed seen from inside its first line: the rest of that line, then the
   * other lines.
   */
  lemma RestOfFirstLine(carry: string, unread: string, rest: seq<string>) returns (ls: seq<string>)
    requires AllClean(rest) && rest != [] && carry <= rest[0] && carry + unread == LinesText(rest)
    ensures |ls| == |rest| && carry + ls[0] == rest[0] && ls[1..] == rest[1..]
    ensures LinesText(ls) == unread && AllNoLineBreak(ls) && NoLineBreak(carry)
  {
    var s0 := rest[0][|carry|..];
    ls := [s0] + rest[1..];
    assert rest[0] == carry + s0;
    assert LinesText(rest) == rest[0] + "\r\n" + LinesText(rest[1..]);
    assert carry + unread == carry + (s0 + "\r\n" + LinesText(rest[1..]));
    assert unread == s0 + "\r\n" + LinesText(rest[1..]) by {
      assert (carry + unread)[|carry|..] == unread;
      assert (carry + (s0 + "\r\n" + LinesText(rest[1..])))[|carry|..] == s0 + "\r\n" + LinesText(rest[1..]);
    }
    assert ls[1..] == rest[1..];
    assert LinesText(ls) == s0 + "\r\n" + LinesText(ls[1..]);
    assert CleanLine(rest[0]);
    forall j | 0 <= j < |ls| ensures NoLineBreak(ls[j]) {
      if j == 0 {
        forall i | 0 <= i < |s0| ensures !IsLineBreak(s0[i]) {
          assert s0[i] == rest[0][|carry| + i];
        }
      } else {
        assert ls[j] == rest[j] && CleanLine(rest[j]);
      }
    }
    forall i | 0 <= i < |carry| ensures !IsLineBreak(carry[i]) {
      assert carry[i] == rest[0][i];
    }
  }

  lemma CleanPrefix(rest: seq<string>, k: nat)
    requires AllClean(rest) && k <= |rest|
    ensures AllClean(rest[..k])
  {
    forall j | 0 <= j < k ensures CleanLine(rest[..k][j]) {
      assert rest[..k][j] == rest[j];
    }
  }

  lemma CleanPiecesOf(rest: seq<string>, k: nat, tail: seq<string>)
    requires AllClean(rest) && k <= |rest|
    requires |tail| >= 1 && forall j :: 0 <= j < |tail| - 1 ==> CleanLine(Trim(tail[j]))
    ensures CleanPieces(rest[..k] + tail)
  {
    var batch := rest[..k] + tail;
    forall j | 0 <= j < |batch| - 1 ensures CleanLine(Trim(batch[j])) {
      if j < k {
        assert batch[j] == rest[j] && CleanLine(rest[j]);
        TrimClean(rest[j]);
      } else {
        assert batch[j] == tail[j - k];
      }
    }
  }

  /** A read ending after whole lines and part (possibly none) of the next line. */
  lemma StepWhole(carry: string, unread: string, rest: seq<string>, ls: seq<string>, k: nat, frag: string)
    requires AllClean(rest) && rest != [] && carry + unread == LinesText(rest)
    requires |ls| == |rest| && carry + ls[0] == rest[0] && ls[1..] == rest[1..]
    requires LinesText(ls) == unread && AllNoLineBreak(ls) && NoLineBreak(carry)
    requires 1 <= k <= |ls| && NoLineBreak(frag)
    requires k == |ls| ==> frag == []
    requires k < |ls| ==> frag <= ls[k]
    ensures var block := LinesText(ls[..k]) + frag;
      block <= unread && Consumes(carry, block, unread, rest, k)
      && CleanPieces(NextBatch(carry, block)) && |NextBatch(carry, block)| >= 2
  {
    var block := LinesText(ls[..k]) + frag;
    var batch := rest[..k] + [frag];
    forall j | 1 <= j < |rest| ensures ls[j] == rest[j] {
      assert ls[j] == ls[1..][j - 1];
    }
    WholeBatch(carry, rest, ls, k, frag);
    WholeData(rest, k, frag);
    WholeText(carry, unread, rest, ls, k, frag);
    assert NextBatch(carry, block) == batch;
    assert Last(batch) == frag;
  }

  lemma WholeBatch(carry: string, rest: seq<string>, ls: seq<string>, k: nat, frag: string)
    requires rest != [] && |ls| == |rest| && carry + ls[0] == rest[0]
    requires forall j :: 1 <= j < |rest| ==> ls[j] == rest[j]
    requires AllNoLineBreak(ls) && NoLineBreak(carry) && 1 <= k <= |ls| && NoLineBreak(frag)
    ensures NextBatch(carry, LinesText(ls[..k]) + frag) == rest[..k] + [frag]
  {
    NextBatchOfLines(carry, ls, k, frag);
    assert !EndsWithLineBreak(frag);
    var pieces := Pieces(ls, k, frag);
    assert pieces == ls[..k] + [frag];
    assert pieces[0] == ls[0];
    TrimLineBreaksNone(ls[0]);
    assert carry + TrimLineBreaks(pieces[0]) == rest[0];
    FirstReplaced(rest, ls, k, frag);
    assert pieces[0 := rest[0]] == rest[..k] + [frag];
  }

  /** Whole lines read after the carry: only the first piece differs from the owed lines. */
  lemma FirstReplaced(rest: seq<string>, ls: seq<string>, k: nat, frag: string)
    requires 1 <= k <= |ls| == |rest|
    requires forall j :: 1 <= j < |rest| ==> ls[j] == rest[j]
    ensures (ls[..k] + [frag])[0 := rest[0]] == rest[..k] + [frag]
  {
    var fixed := (ls[..k] + [frag])[0 := rest[0]];
    var batch := rest[..k] + [frag];
    forall j | 0 <= j < |batch| ensures batch[j] == fixed[j] {
      if 0 < j < k {
        assert fixed[j] == ls[j];
      }
    }
  }

  lemma WholeData(rest: seq<string>, k: nat, frag: string)
    requires AllClean(rest) && k <= |rest|
    ensures Data(rest[..k] + [frag]) == rest[..k]
    ensures CleanPieces(rest[..k] + [frag])
  {
    var batch := rest[..k] + [frag];
    assert batch[..|batch| - 1] == rest[..k];
    CleanPrefix(rest, k);
    TrimmedNonblankClean(rest[..k]);
    CleanPiecesOf(rest, k, [frag]);
  }

  lemma WholeText(carry: string, unread: string, rest: seq<string>, ls: seq<string>, k: nat, frag: string)
    requires rest != [] && |ls| == |rest| && ls[1..] == rest[1..] && LinesText(ls) == unread
    requires 1 <= k <= |ls|
    requires k == |ls| ==> frag == []
    requires k < |ls| ==> frag <= ls[k]
    ensures var block := LinesText(ls[..k]) + frag;
      block <= unread && Pending(frag, unread[|block|..], rest[k..])
  {
    var block := LinesText(ls[..k]) + frag;
    LinesTextAppend(ls[..k], ls[k..]);
    assert ls == ls[..k] + ls[k..];
    assert unread == LinesText(ls[..k]) + LinesText(ls[k..]);
    assert ls[k..] == rest[k..];
    if k < |ls| {
      assert ls[k] == rest[k];
      assert LinesText(ls[k..]) == ls[k] + "\r\n" + LinesText(ls[k + 1..]);
      assert frag + unread[|block|..] == LinesText(ls[k..]);
    } else {
      assert unread == block;
    }
  }

  /** A read ending inside the first owed line: the batch is the carry grown by the read. */
  lemma StepFragment(carry: string, unread: string, rest: seq<string>, ls: seq<string>, frag: string)
    requires AllClean(rest) && rest != [] && carry + unread == LinesText(rest)
    requires |ls| == |rest| && carry + ls[0] == rest[0]
    requires LinesText(ls) == unread && AllNoLineBreak(ls) && NoLineBreak(carry)
    requires frag != [] && NoLineBreak(frag) && frag <= ls[0]
    ensures frag <= unread && Consumes(carry, frag, unread, rest, 0)
    ensures CleanPieces(NextBatch(carry, frag)) && '\r' !in frag
  {
    NextBatchOfLines(carry, ls, 0, frag);
    assert LinesText(ls[..0]) + frag == frag;
    assert !EndsWithLineBreak(frag);
    var pieces := Pieces(ls, 0, frag);
    assert pieces == [frag];
    TrimLineBreaksNone(frag);
    assert carry + TrimLineBreaks(pieces[0]) == carry + frag;
    var batch := [carry + frag];
    assert NextBatch(carry, frag) == batch;
    assert batch[..0] == [] && rest[..0] == [] && rest[0..] == rest;
    assert Data(batch) == [];
    assert LinesText(ls) == ls[0] + "\r\n" + LinesText(ls[1..]);
    assert frag <= unread;
    assert carry + frag <= rest[0];
    GrowCarry(carry, frag, unread);
    assert Pending(carry + frag, unread[|frag|..], rest);
  }

  /** A read ending on the CR of line `k`: lines up to `k` complete, the LF still unread. */
  lemma StepCr(carry: string, unread: string, rest: seq<string>, ls: seq<string>, k: nat)
    requires AllClean(rest) && rest != [] && carry + unread == LinesText(rest)
    requires |ls| == |rest| && carry + ls[0] == rest[0]
    requires forall j :: 1 <= j < |rest| ==> ls[j] == rest[j]
    requires LinesText(ls) == unread && AllNoLineBreak(ls) && NoLineBreak(carry)
    requires k < |ls|
    ensures var block := LinesText(ls[..k]) + (ls[k] + "\r");
      block <= unread && Consumes(carry, block, unread, rest, k + 1)
      && CleanPieces(NextBatch(carry, block)) && |NextBatch(carry, block)| >= 2
  {
    var frag := ls[k] + "\r";
    var block := LinesText(ls[..k]) + frag;
    var batch := CrBatch(carry, rest, ls, k);
    CrData(rest, k);
    CrText(unread, rest, ls, k);
    assert NextBatch(carry, block) == batch;
  }

  /** The batch of a read ending on a CR, and what it hands the merge. */
  lemma CrBatch(carry: string, rest: seq<string>, ls: seq<string>, k: nat) returns (batch: seq<string>)
    requires rest != [] && |ls| == |rest| && carry + ls[0] == rest[0]
    requires forall j :: 1 <= j < |rest| ==> ls[j] == rest[j]
    requires AllNoLineBreak(ls) && NoLineBreak(carry) && k < |ls|
    ensures batch == rest[..k] + [if k == 0 then rest[0] else rest[k] + "\r", ""]
    ensures NextBatch(carry, LinesText(ls[..k]) + (ls[k] + "\r")) == batch
  {
    var frag := ls[k] + "\r";
    assert NoLineFeed(frag);
    NextBatchOfLines(carry, ls, k, frag);
    assert EndsWithLineBreak(frag);
    batch := rest[..k] + [if k == 0 then rest[0] else rest[k] + "\r", ""];
    if k == 0 {
      CrBatchFirst(carry, rest, ls);
    } else {
      CrBatchLater(carry, rest, ls, k);
    }
  }

  /** A read that ends on the CR of the first owed line. */
  lemma CrBatchFirst(carry: string, rest: seq<string>, ls: seq<string>)
    requires rest != [] && |ls| == |rest| && carry + ls[0] == rest[0] && AllNoLineBreak(ls)
    ensures var pieces := Pieces(ls, 0, ls[0] + "\r");
      pieces[0 := carry + TrimLineBreaks(pieces[0])] == [rest[0], ""]
  {
    var frag := ls[0] + "\r";
    var pieces := Pieces(ls, 0, frag);
    assert EndsWithLineBreak(frag);
    assert pieces == [frag, ""];
    assert NoLineBreak(ls[0]);
    TrimLineBreaksKeeps([], ls[0], "\r");
    assert [] + ls[0] + "\r" == frag;
    assert carry + TrimLineBreaks(pieces[0]) == rest[0];
  }

  /** A read that ends on the CR of a later owed line. */
  lemma CrBatchLater(carry: string, rest: seq<string>, ls: seq<string>, k: nat)
    requires rest != [] && |ls| == |rest| && carry + ls[0] == rest[0]
    requires forall j :: 1 <= j < |rest| ==> ls[j] == rest[j]
    requires AllNoLineBreak(ls) && 0 < k < |ls|
    ensures var pieces := Pieces(ls, k, ls[k] + "\r");
      pieces[0 := carry + TrimLineBreaks(pieces[0])] == rest[..k] + [rest[k] + "\r", ""]
  {
    var frag := ls[k] + "\r";
    var pieces := Pieces(ls, k, frag);
    assert EndsWithLineBreak(frag);
    assert pieces == ls[..k] + [frag, ""];
    assert pieces[0] == ls[0];
    TrimLineBreaksNone(ls[0]);
    assert carry + TrimLineBreaks(pieces[0]) == rest[0];
    FirstReplaced(rest, ls, k, frag);
    assert pieces[0 := rest[0]] == (ls[..k] + [frag])[0 := rest[0]] + [""];
    assert ls[k] == rest[k];
  }


  lemma CrData(rest: seq<string>, k: nat)
    requires AllClean(rest) && k < |rest|
    ensures var batch := rest[..k] + [if k == 0 then rest[0] else rest[k] + "\r", ""];
      Data(batch) == rest[..k + 1] && CleanPieces(batch)
  {
    var batch := rest[..k] + [if k == 0 then rest[0] else rest[k] + "\r", ""];
    var data := rest[..k] + [if k == 0 then rest[0] else rest[k] + "\r"];
    assert batch[..|batch| - 1] == data;
    CleanPrefix(rest, k);
    assert CleanLine(rest[k]);
    TrimClean(rest[k]);
    assert rest[..k + 1] == rest[..k] + [rest[k]];
    if k == 0 {
      TrimmedNonblankClean([rest[0]]);
      assert data == [rest[0]];
    } else {
      TrimmedNonblankWithCr(rest[..k], rest[k]);
    }
    CleanPiecesOf(rest, k, [if k == 0 then rest[0] else rest[k] + "\r", ""]);
  }

  lemma CrText(unread: string, rest: seq<string>, ls: seq<string>, k: nat)
    requires rest != [] && |ls| == |rest| && LinesText(ls) == unread
    requires forall j :: 1 <= j < |rest| ==> ls[j] == rest[j]
    requires k < |ls|
    ensures var block := LinesText(ls[..k]) + (ls[k] + "\r");
      block <= unread && unread[|block|..] == "\n" + LinesText(rest[k + 1..])
  {
    var block := LinesText(ls[..k]) + (ls[k] + "\r");
    LinesTextAtCr(ls, k);
    assert ls[k + 1..] == rest[k + 1..];
    PrefixAndRest(block, "\n" + LinesText(rest[k + 1..]));
  }

  /** The text of lines, cut just after the CR that ends line `k`. */
  lemma LinesTextAtCr(ls: seq<string>, k: nat)
    requires k < |ls|
    ensures LinesText(ls) == (LinesText(ls[..k]) + (ls[k] + "\r")) + ("\n" + LinesText(ls[k + 1..]))
  {
    LinesTextAppend(ls[..k], ls[k..]);
    assert ls == ls[..k] + ls[k..];
    assert ls[k..][1..] == ls[k + 1..];
    assert LinesText(ls[k..]) == ls[k] + "\r\n" + LinesText(ls[k + 1..]);
    CrLfCut(LinesText(ls[..k]), ls[k], LinesText(ls[k + 1..]));
  }

  lemma CrLfCut(before: string, line: string, after: string)
    ensures before + (line + "\r\n" + after) == (before + (line + "\r")) + ("\n" + after)
  {
    var x := before + (line + "\r\n" + after);
    var y := (before + (line + "\r")) + ("\n" + after);
    assert |x| == |y|;
    forall i | 0 <= i < |x| ensures x[i] == y[i] {
      if i < |before| + |line| {
      } else if i == |before| + |line| {
      } else if i == |before| + |line| + 1 {
      }
    }
  }

  lemma PrefixAndRest(a: string, b: string)
    ensures a <= a + b && (a + b)[|a|..] == b
  {
  }


  lemma GrowCarry(carry: string, frag: string, unread: string)
    requires frag <= unread
    ensures (carry + frag) + unread[|frag|..] == carry + unread
  {
    assert unread == frag + unread[|frag|..];
  }

  /** One read taken while inside the owed lines. */
  lemma StepWithinLines(carry: string, unread: string, rest: seq<string>, block: string) returns (m: nat)
    requires AllClean(rest) && rest != [] && carry <= rest[0] && carry + unread == LinesText(rest)
    requires block != [] && block <= unread
    ensures Consumes(carry, block, unread, rest, m)
    ensures CleanPieces(NextBatch(carry, block))
    ensures '\r' in block ==> |NextBatch(carry, block)| >= 2
  {
    var ls := RestOfFirstLine(carry, unread, rest);
    forall j | 1 <= j < |rest| ensures ls[j] == rest[j] {
      assert ls[j] == ls[1..][j - 1];
    }
    var k, frag := PrefixOfLines(ls, block);
    if k == |ls| {
      assert frag == [];
      StepWhole(carry, unread, rest, ls, k, frag);
      m := k;
    } else if |frag| <= |ls[k]| {
      assert frag <= ls[k] by {
        assert frag == (ls[k] + "\r")[..|frag|] == ls[k][..|frag|];
      }
      assert NoLineBreak(frag) by {
        forall i | 0 <= i < |frag| ensures !IsLineBreak(frag[i]) {
          assert frag[i] == ls[k][i];
        }
      }
      if k == 0 {
        assert block == frag by {
          assert LinesText(ls[..0]) == [];
        }
        StepFragment(carry, unread, rest, ls, frag);
        m := 0;
      } else {
        StepWhole(carry, unread, rest, ls, k, frag);
        m := k;
      }
    } else {
      assert frag == ls[k] + "\r";
      StepCr(carry, unread, rest, ls, k);
      m := k + 1;
    }
  }

  /** Removing a leading LF does not change how `Trim('\r', '\n')` ends. */
  lemma TrimLineBreaksLeadingLf(p: string)
    ensures TrimLineBreaks("\n" + p) == TrimLineBreaks(p)
  {
    assert ("\n" + p)[1..] == p;
    assert TrimStartWhere("\n" + p, IsLineBreak) == TrimStartWhere(p, IsLineBreak);
  }

  /** A leading LF joins the first piece of the split. */
  lemma SplitLeadingLf(b: string)
    requires b != [] && b[0] != '\r'
    ensures SplitCrLf(b)[0] != []
    ensures SplitCrLf("\n" + b) == SplitCrLf(b)[0 := "\n" + SplitCrLf(b)[0]]
  {
    assert ("\n" + b)[1..] == b;
    var tail := SplitCrLf(b[1..]);
    assert SplitCrLf(b) == [[b[0]] + tail[0]] + tail[1..];
  }

  lemma PaddedLeadingLf(parts: seq<string>)
    requires |parts| >= 1 && parts[0] != []
    ensures Padded(parts[0 := "\n" + parts[0]]) == Padded(parts)[0 := "\n" + parts[0]]
    ensures Padded(parts)[0] == parts[0]
  {
    var moved := parts[0 := "\n" + parts[0]];
    if |parts| == 1 {
      var x := "\n" + parts[0];
      assert x[|x| - 1] == parts[0][|parts[0]| - 1];
      assert EndsWithLineBreak(moved[|moved| - 1]) == EndsWithLineBreak(parts[|parts| - 1]);
    } else {
      assert moved[|moved| - 1] == parts[|parts| - 1];
    }
  }

  /** After a CR whose LF is unread, the LF only changes the first element, and trimming removes it. */
  lemma LeadingLineFeed(b: string)
    requires b != [] && !IsLineBreak(b[0])
    ensures NextBatch("", "\n" + b) == NextBatch("", b)
  {
    SplitLeadingLf(b);
    var parts := SplitCrLf(b);
    PaddedLeadingLf(parts);
    TrimLineBreaksLeadingLf(parts[0]);
    var padded := Padded(parts);
    var moved := Padded(SplitCrLf("\n" + b));
    assert moved == padded[0 := "\n" + parts[0]];
    assert moved[0] == "\n" + parts[0] && padded[0] == parts[0];
    assert TrimLineBreaks(moved[0]) == TrimLineBreaks(padded[0]);
  }

  lemma FirstCharOfLines(rest: seq<string>, b: string)
    requires AllClean(rest) && b != [] && b <= LinesText(rest)
    ensures rest != [] && !IsLineBreak(b[0])
  {
    assert LinesText(rest) != [];
    assert LinesText(rest) == rest[0] + "\r\n" + LinesText(rest[1..]);
    assert CleanLine(rest[0]);
    assert b[0] == rest[0][0];
  }

  /** A read consisting of the LF alone gives a batch of two elements. */
  lemma LineFeedBatch(carry: string)
    ensures |NextBatch(carry, "\n")| == 2
  {
    var lf := "\n";
    assert lf[1..] == [] && SplitCrLf([]) == [""];
    assert SplitCrLf(lf) == [[lf[0]] + SplitCrLf(lf[1..])[0]] + SplitCrLf(lf[1..])[1..];
    assert [lf[0]] + [] == lf;
    assert SplitCrLf(lf) == [lf];
    assert |Padded([lf])| == 2;
  }

  /** The batch of a read consisting of the LF alone. */
  lemma BareLineFeed()
    ensures NextBatch("", "\n") == ["", ""]
    ensures Data(["", ""]) == []
  {
    var lf := "\n";
    assert lf[1..] == [] && SplitCrLf([]) == [""];
    assert SplitCrLf(lf) == [[lf[0]] + SplitCrLf(lf[1..])[0]] + SplitCrLf(lf[1..])[1..];
    assert [lf[0]] + [] == lf;
    assert SplitCrLf(lf) == [lf];
    assert Padded(["\n"]) == ["\n", ""];
    TrimAllBreaks(lf);
    TrimAllBreaks("");
    assert TrimLineBreaks("") + TrimLineBreaks(lf) == [];
    var padded: seq<string> := ["\n", ""];
    assert Padded(SplitCrLf(lf)) == padded;
    assert NextBatch("", lf) == padded[0 := []];
    var blanks: seq<string> := ["", ""];
    assert blanks[..1] == [""];
    assert Trim("") == [];
    var one: seq<string> := [""];
    assert one[1..] == [];
    assert TrimmedNonblank(one) == TrimmedNonblank([]) == [];
    assert Data(blanks) == TrimmedNonblank(one);
  }

  /** One read taken just after a CR whose LF is unread. */
  lemma StepAfterCr(unread: string, rest: seq<string>, block: string) returns (m: nat)
    requires AllClean(rest) && unread == "\n" + LinesText(rest)
    requires block != [] && block <= unread
    ensures Consumes("", block, unread, rest, m)
    ensures CleanPieces(NextBatch("", block)) || (block == "\n" && NextBatch("", block) == ["", ""])
    ensures '\r' in block ==> |NextBatch("", block)| >= 2
  {
    if block == "\n" {
      BareLineFeed();
      m := 0;
      assert unread[|block|..] == LinesText(rest);
      assert rest[..0] == [] && rest[0..] == rest;
      if rest != [] {
        assert [] <= rest[0];
      }
    } else {
      var b := block[1..];
      assert block == "\n" + b;
      assert b <= LinesText(rest) by {
        assert unread[1..] == LinesText(rest);
      }
      FirstCharOfLines(rest, b);
      LeadingLineFeed(b);
      m := StepWithinLines("", LinesText(rest), rest, b);
      assert unread[|block|..] == LinesText(rest)[|b|..];
      if '\r' in block {
        assert '\r' in b;
      }
    }
  }

  /**
   * One read from any reader position: the batch hands the merge the next owed lines, and
   * every element before its last trims to a clean line, except for the batch of a read that
   * is the LF alone.
   */
  lemma Step(carry: string, unread: string, rest: seq<string>, block: string) returns (m: nat)
    requires AllClean(rest) && Pending(carry, unread, rest)
    requires block != [] && block <= unread
    ensures Consumes(carry, block, unread, rest, m)
    ensures CleanPieces(NextBatch(carry, block)) || (block == "\n" && NextBatch(carry, block) == ["", ""])
    ensures '\r' in block ==> |NextBatch(carry, block)| >= 2
  {
    if carry == [] && unread == "\n" + LinesText(rest) {
      m := StepAfterCr(unread, rest, block);
    } else {
      m := StepWithinLines(carry, unread, rest, block);
    }
  }

  /** At end of file the reader owes nothing and its carry is empty. */
  lemma EndOfRun(carry: string, rest: seq<string>)
    requires Pending(carry, [], rest)
    ensures carry == [] && rest == []
  {
  }

  lemma ConcatFirst(blocks: seq<string>)
    requires blocks != []
    ensures blocks[0] <= Concat(blocks)
    ensures Concat(blocks)[|blocks[0]|..] == Concat(blocks[1..])
  {
  }

  /** Whatever the reads, the reader hands over exactly the lines it owes. */
  lemma {:induction false} Reassembly(carry: string, blocks: seq<string>, rest: seq<string>)
    requires AllClean(rest) && NonEmptyBlocks(blocks) && Pending(carry, Concat(blocks), rest)
    ensures Reassemble(carry, blocks) == rest
    decreases |blocks|
  {
    if blocks == [] {
      EndOfRun(carry, rest);
      assert Trim("") == [];
      var one: seq<string> := [""];
      assert one[1..] == [];
    } else {
      ConcatFirst(blocks);
      var m := Step(carry, Concat(blocks), rest, blocks[0]);
      var batch := NextBatch(carry, blocks[0]);
      assert NonEmptyBlocks(blocks[1..]) by {
        forall k | 0 <= k < |blocks| - 1 ensures blocks[1..][k] != [] {
          assert blocks[1..][k] == blocks[k + 1];
        }
      }
      forall j | 0 <= j < |rest[m..]| ensures CleanLine(rest[m..][j]) {
        assert rest[m..][j] == rest[m + j];
      }
      Reassembly(Last(batch), blocks[1..], rest[m..]);
      assert rest == rest[..m] + rest[m..];
    }
  }

  /**
   * Round trip: a chunk file written as `LinesText(lines)`, read back in any non-empty
   * reads, yields its lines again.
   */
  lemma RoundTrip(lines: seq<string>, blocks: seq<string>)
    requires AllClean(lines) && NonEmptyBlocks(blocks) && Concat(blocks) == LinesText(lines)
    ensures Reassemble("", blocks) == lines
  {
    if lines != [] {
      assert [] <= lines[0];
    }
    Reassembly("", blocks, lines);
  }

  // ---------------------------------------------------------------------------
  // Reads the merge can consume
  // ---------------------------------------------------------------------------

  /**
   * Every read holds a CR, except that the last may be a lone LF. A read without CR would
   * give a batch of one element, which the merge takes for a line although it is the carry.
   */
  predicate Aligned(blocks: seq<string>) {
    NonEmptyBlocks(blocks)
    && forall k :: 0 <= k < |blocks| ==> '\r' in blocks[k] || (k == |blocks| - 1 && blocks[k] == "\n")
  }

  lemma AlignedTail(blocks: seq<string>)
    requires blocks != [] && Aligned(blocks)
    ensures Aligned(blocks[1..]) && Concat(blocks[1..]) == Concat(blocks)[|blocks[0]|..]
    ensures blocks[0] == "\n" ==> blocks[1..] == []
  {
    var tail := blocks[1..];
    forall k | 0 <= k < |tail|
      ensures tail[k] != [] && ('\r' in tail[k] || (k == |tail| - 1 && tail[k] == "\n"))
    {
      assert tail[k] == blocks[k + 1];
    }
  }
}
