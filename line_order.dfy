/**
 * Line ordering (Infrastructure/LineComparer.cs): a line "<int>. <text>" is split at the
 * first ". ", and lines are ordered by their text first and their number second.
 *
 * The source compares texts with the culture-sensitive `string.Compare`; this model uses
 * ordinal (code-unit) lexicographic order, a total order that does not depend on the machine.
 */
module LineOrder {
  import opened Outcomes
  import opened NetText
  import opened Sorting

  datatype ParseError = MissingSeparator | BadNumber(reason: NumberError)

  /** The two parts of a line: the number before the first ". " and the text after it. */
  datatype ParsedLine = ParsedLine(number: int, text: string)

  const Separator: string := ". "

  // ---------------------------------------------------------------------------
  // ParseLine
  // ---------------------------------------------------------------------------

  /**
   * `ParseLine`: `IndexOf(". ")`, then `int.Parse` of the prefix and the text after the
   * two-character separator. `Substring(0, -1)` throws when the separator is missing.
   */
  function ParseLine(line: string): Result<ParsedLine, ParseError> {
    var cut := IndexOf(line, Separator);
    if cut < 0 then Err(MissingSeparator)
    else
      match ParseInt32(line[..cut])
      case Err(e) => Err(BadNumber(e))
      case Ok(n) => Ok(ParsedLine(n, line[cut + 2..]))
  }

  /**
   * What `ParseLine` computes: it fails for want of a separator exactly when the line has
   * no ". "; otherwise it cuts at the FIRST ". ", the number is the integer value of the
   * prefix (or the parse fails with `int.Parse`'s error) and the text is the whole rest.
   */
  lemma ParseLineSplitsAtFirstSeparator(line: string)
    ensures ParseLine(line) == Err(MissingSeparator) <==> forall i :: !OccursAt(line, Separator, i)
    ensures ParseLine(line) != Err(MissingSeparator) ==>
      exists cut ::
        && OccursAt(line, Separator, cut)
        && (forall i :: 0 <= i < cut ==> !OccursAt(line, Separator, i))
        && (ParseLine(line) ==
              match ParseInt32(line[..cut])
              case Ok(n) => Ok(ParsedLine(n, line[cut + 2..]))
              case Err(e) => Err(BadNumber(e)))
  {
    var cut := IndexOf(line, Separator);
    if cut >= 0 {
      assert OccursAt(line, Separator, cut);
    }
  }

  predicate WellFormed(line: string) {
    ParseLine(line).Ok?
  }

  predicate AllWellFormed(lines: seq<string>) {
    forall i :: 0 <= i < |lines| ==> WellFormed(lines[i])
  }

  /** The line format the generator writes: `$"{number}. {text}"`. */
  function FormatLine(number: nat, text: string): string {
    Decimal(number) + Separator + text
  }

  /** Round trip: parsing a formatted line gives back its number and its text. */
  lemma ParseFormatted(number: nat, text: string)
    requires number <= Int32Max
    ensures ParseLine(FormatLine(number, text)) == Ok(ParsedLine(number, text))
  {
    var ds := Decimal(number);
    var line := FormatLine(number, text);
    assert OccursAt(line, Separator, |ds|);
    forall i | 0 <= i < |ds| ensures !OccursAt(line, Separator, i) {
      assert line[i] == ds[i];
    }
    assert IndexOf(line, Separator) == |ds|;
    assert line[..|ds|] == ds;
    assert line[|ds| + 2..] == text;
    ParseDecimal(number);
  }

  // ---------------------------------------------------------------------------
  // Compare
  // ---------------------------------------------------------------------------

  /** Ordinal lexicographic comparison: -1, 0 or 1. */
  function CompareText(a: string, b: string): (r: int)
    ensures -1 <= r <= 1
    decreases |a|
  {
    if a == [] then (if b == [] then 0 else -1)
    else if b == [] then 1
    else if a[0] < b[0] then -1
    else if a[0] > b[0] then 1
    else CompareText(a[1..], b[1..])
  }

  /** `int.CompareTo`. */
  function CompareNumber(m: int, n: int): int {
    if m < n then -1 else if m > n then 1 else 0
  }

  function CompareParsed(p: ParsedLine, q: ParsedLine): int {
    var byText := CompareText(p.text, q.text);
    if byText == 0 then CompareNumber(p.number, q.number) else byText
  }

  /** `Compare(line1, line2)`; a malformed line makes it throw, so it has no value. */
  function Compare(line1: string, line2: string): (r: Result<int, ParseError>)
    ensures r.Ok? <==> WellFormed(line1) && WellFormed(line2)
    ensures r.Ok? ==> -1 <= r.value <= 1
  {
    match ParseLine(line1)
    case Err(e) => Err(e)
    case Ok(p) =>
      match ParseLine(line2)
      case Err(e) => Err(e)
      case Ok(q) => Ok(CompareParsed(p, q))
  }

  /** `line1` sorts no later than `line2`: the comparison succeeds and is at most 0. */
  predicate LineLeq(line1: string, line2: string) {
    Compare(line1, line2).Ok? && Compare(line1, line2).value <= 0
  }

  predicate LineLess(line1: string, line2: string) {
    Compare(line1, line2).Ok? && Compare(line1, line2).value < 0
  }

  // --- the text order ---

  lemma {:induction false} CompareTextZero(a: string, b: string)
    ensures CompareText(a, b) == 0 <==> a == b
    decreases |a|
  {
    if a != [] && b != [] && a[0] == b[0] {
      CompareTextZero(a[1..], b[1..]);
      assert a == [a[0]] + a[1..] && b == [b[0]] + b[1..];
    }
  }

  lemma {:induction false} CompareTextFlip(a: string, b: string)
    ensures CompareText(a, b) == -CompareText(b, a)
    decreases |a|
  {
    if a != [] && b != [] && a[0] == b[0] {
      CompareTextFlip(a[1..], b[1..]);
    }
  }

  lemma {:induction false} CompareTextTransitive(a: string, b: string, c: string)
    requires CompareText(a, b) <= 0 && CompareText(b, c) <= 0
    ensures CompareText(a, c) <= 0
    ensures CompareText(a, c) == 0 ==> CompareText(a, b) == 0
    decreases |a|
  {
    if a != [] && b != [] && c != [] && a[0] == b[0] && b[0] == c[0] {
      CompareTextTransitive(a[1..], b[1..], c[1..]);
    }
  }

  // --- the (text, number) order ---

  lemma ParsedFlip(p: ParsedLine, q: ParsedLine)
    ensures CompareParsed(p, q) == -CompareParsed(q, p)
  {
    CompareTextFlip(p.text, q.text);
  }

  lemma ParsedTransitive(p: ParsedLine, q: ParsedLine, s: ParsedLine)
    requires CompareParsed(p, q) <= 0 && CompareParsed(q, s) <= 0
    ensures CompareParsed(p, s) <= 0
    ensures CompareParsed(p, s) == 0 ==> CompareParsed(p, q) == 0 && CompareParsed(q, s) == 0
  {
    CompareTextZero(p.text, q.text);
    CompareTextZero(q.text, s.text);
    CompareTextZero(p.text, s.text);
    if CompareText(p.text, q.text) <= 0 && CompareText(q.text, s.text) <= 0 {
      CompareTextTransitive(p.text, q.text, s.text);
      CompareTextFlip(q.text, s.text);
      if CompareText(p.text, s.text) == 0 {
        CompareTextTransitive(q.text, s.text, p.text);
      }
    }
  }

  /** Comparing a line with itself gives 0. */
  lemma CompareReflexive(a: string)
    requires WellFormed(a)
    ensures Compare(a, a) == Ok(0)
  {
    CompareTextZero(ParseLine(a).value.text, ParseLine(a).value.text);
  }

  /** Swapping the arguments negates the result. */
  lemma CompareAntisymmetric(a: string, b: string)
    requires WellFormed(a) && WellFormed(b)
    ensures Compare(a, b).value == -Compare(b, a).value
  {
    ParsedFlip(ParseLine(a).value, ParseLine(b).value);
  }

  /** The order is total: of two well-formed lines one sorts no later than the other. */
  lemma CompareTotal(a: string, b: string)
    requires WellFormed(a) && WellFormed(b)
    ensures LineLeq(a, b) || LineLeq(b, a)
    ensures !LineLeq(a, b) ==> LineLess(b, a)
  {
    CompareAntisymmetric(a, b);
  }

  lemma CompareTransitive(a: string, b: string, c: string)
    requires LineLeq(a, b) && LineLeq(b, c)
    ensures LineLeq(a, c)
    ensures LineLess(a, b) || LineLess(b, c) ==> LineLess(a, c)
  {
    ParsedTransitive(ParseLine(a).value, ParseLine(b).value, ParseLine(c).value);
  }

  /** When the texts differ the numbers play no part: the result is the text comparison. */
  lemma CompareTextFirst(a: string, b: string)
    requires WellFormed(a) && WellFormed(b)
    requires ParseLine(a).value.text != ParseLine(b).value.text
    ensures Compare(a, b) == Ok(CompareText(ParseLine(a).value.text, ParseLine(b).value.text))
    ensures Compare(a, b).value != 0
  {
    CompareTextZero(ParseLine(a).value.text, ParseLine(b).value.text);
  }

  /** When the texts are equal, the numbers decide, in numeric (not textual) order. */
  lemma CompareNumberTieBreak(a: string, b: string)
    requires WellFormed(a) && WellFormed(b)
    requires ParseLine(a).value.text == ParseLine(b).value.text
    ensures LineLess(a, b) <==> ParseLine(a).value.number < ParseLine(b).value.number
    ensures Compare(a, b) == Ok(0) <==> ParseLine(a).value.number == ParseLine(b).value.number
  {
    CompareTextZero(ParseLine(a).value.text, ParseLine(b).value.text);
  }

  /** "7. Apple" sorts before "12. Banana": the text decides although 7 < 12 too. */
  lemma AppleBeforeBanana()
    ensures Compare(FormatLine(7, "Apple"), FormatLine(12, "Banana")) == Ok(-1)
    ensures Compare(FormatLine(12, "Apple"), FormatLine(7, "Banana")) == Ok(-1)
  {
    ParseFormatted(7, "Apple");
    ParseFormatted(12, "Banana");
    ParseFormatted(12, "Apple");
    ParseFormatted(7, "Banana");
  }

  /** "7. Apple" sorts before "12. Apple": equal texts fall back to numeric order. */
  lemma NumericTieBreakExample()
    ensures Compare(FormatLine(7, "Apple"), FormatLine(12, "Apple")) == Ok(-1)
    ensures Compare(FormatLine(12, "Apple"), FormatLine(7, "Apple")) == Ok(1)
  {
    ParseFormatted(7, "Apple");
    ParseFormatted(12, "Apple");
  }

  // ---------------------------------------------------------------------------
  // Sort
  // ---------------------------------------------------------------------------

  /** Sorted in the comparer's sense: every earlier line sorts no later than every later one. */
  predicate SortedLines(lines: seq<string>) {
    AllWellFormed(lines) && forall i, j :: 0 <= i < j < |lines| ==> LineLeq(lines[i], lines[j])
  }

  /** The shape the integration test checks: each adjacent pair compares at most 0. */
  predicate AdjacentInOrder(lines: seq<string>) {
    AllWellFormed(lines) && forall i :: 0 <= i < |lines| - 1 ==> LineLeq(lines[i], lines[i + 1])
  }

  lemma {:induction false} AdjacentIsSorted(lines: seq<string>)
    ensures SortedLines(lines) <==> AdjacentInOrder(lines)
    decreases |lines|
  {
    if |lines| >= 2 && AdjacentInOrder(lines) {
      var tail := lines[1..];
      assert AdjacentInOrder(tail) by {
        forall i | 0 <= i < |tail| - 1 ensures LineLeq(tail[i], tail[i + 1]) {
          assert tail[i] == lines[i + 1] && tail[i + 1] == lines[i + 2];
        }
      }
      AdjacentIsSorted(tail);
      forall i, j | 0 <= i < j < |lines| ensures LineLeq(lines[i], lines[j]) {
        if i > 0 {
          assert lines[i] == tail[i - 1] && lines[j] == tail[j - 1];
        } else if j > 1 {
          assert lines[1] == tail[0] && lines[j] == tail[j - 1];
          CompareTransitive(lines[0], lines[1], lines[j]);
        }
      }
    }
  }

  /**
   * The order `OrderBy(text).ThenBy(number)` sorts by, extended to every string so that it
   * is total (a malformed line never reaches it: `Sort` fails first).
   */
  predicate KeyLeq(a: string, b: string) {
    match (ParseLine(a), ParseLine(b))
    case (Ok(p), Ok(q)) => CompareParsed(p, q) <= 0
    case (Err(_), _) => true
    case (Ok(_), Err(_)) => false
  }

  lemma KeyOrderIsTotalPreorder()
    ensures TotalPreorder(KeyLeq)
  {
    forall a, b ensures KeyLeq(a, b) || KeyLeq(b, a) {
      if WellFormed(a) && WellFormed(b) {
        ParsedFlip(ParseLine(a).value, ParseLine(b).value);
      }
    }
    forall a, b, c | KeyLeq(a, b) && KeyLeq(b, c) ensures KeyLeq(a, c) {
      if WellFormed(a) && WellFormed(b) && WellFormed(c) {
        ParsedTransitive(ParseLine(a).value, ParseLine(b).value, ParseLine(c).value);
      }
    }
  }

  lemma KeySortedIsSorted(lines: seq<string>)
    requires AllWellFormed(lines) && SortedBy(lines, KeyLeq)
    ensures SortedLines(lines)
  {
    forall i, j | 0 <= i < j < |lines| ensures LineLeq(lines[i], lines[j]) {
      assert KeyLeq(lines[i], lines[j]);
    }
  }

  /** The sequential stand-in for the parallel `OrderBy(text).ThenBy(number)`. */
  function SortWellFormed(lines: seq<string>): (r: seq<string>)
    requires AllWellFormed(lines)
    ensures multiset(r) == multiset(lines)
    ensures SortedLines(r)
  {
    KeyOrderIsTotalPreorder();
    var r := SortBy(lines, KeyLeq);
    assert AllWellFormed(r) by {
      forall i | 0 <= i < |r| ensures WellFormed(r[i]) {
        assert r[i] in multiset(lines);
      }
    }
    KeySortedIsSorted(r);
    r
  }

  /** The parse error of the first malformed line, the one a sequential sort would hit. */
  function FirstError(lines: seq<string>): (e: ParseError)
    requires !AllWellFormed(lines)
    ensures exists i :: 0 <= i < |lines| && ParseLine(lines[i]) == Err(e)
    decreases |lines|
  {
    if !WellFormed(lines[0]) then ParseLine(lines[0]).error
    else
      assert !AllWellFormed(lines[1..]) by {
        var i :| 0 <= i < |lines| && !WellFormed(lines[i]);
        assert lines[1..][i - 1] == lines[i];
      }
      var e := FirstError(lines[1..]);
      ghost var i :| 0 <= i < |lines[1..]| && ParseLine(lines[1..][i]) == Err(e);
      assert lines[i + 1] == lines[1..][i];
      e
  }

  /**
   * `Sort(lines)`: `OrderBy(text).ThenBy(number)`. Every line's key is computed, so one
   * malformed line makes the whole sort throw.
   */
  function Sort(lines: seq<string>): (r: Result<seq<string>, ParseError>)
    ensures r.Ok? <==> AllWellFormed(lines)
    ensures r.Ok? ==> |r.value| == |lines| && multiset(r.value) == multiset(lines)
    ensures r.Ok? ==> SortedLines(r.value) && AdjacentInOrder(r.value)
  {
    if AllWellFormed(lines) then
      var sorted := SortWellFormed(lines);
      AdjacentIsSorted(sorted);
      assert |sorted| == |multiset(sorted)| == |multiset(lines)| == |lines|;
      Ok(sorted)
    else Err(FirstError(lines))
  }
}
