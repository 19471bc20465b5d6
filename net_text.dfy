/**
 * The .NET string operations the sorter relies on, stated over `string` (= `seq<char>`):
 * `char.IsWhiteSpace`, `string.Trim()`, `string.Trim('\r', '\n')`, `string.Split("\r\n")`,
 * `string.IndexOf(string)`, `int.Parse(string)` and the text that `File.WriteAllLines` /
 * `StreamWriter.WriteLine` produce with the Windows line terminator "\r\n".
 */
module NetText {
  import opened Outcomes

  // ---------------------------------------------------------------------------
  // Characters
  // ---------------------------------------------------------------------------

  /** `char.IsWhiteSpace`: U+0009..U+000D, U+0020, U+0085, U+00A0 and the Unicode separators. */
  predicate IsWhiteSpace(c: char) {
    c == ' ' || ('\t' <= c <= '\r') || c == '\U{85}' || c == '\U{A0}' || c == '\U{1680}'
    || ('\U{2000}' <= c <= '\U{200A}') || c == '\U{2028}' || c == '\U{2029}'
    || c == '\U{202F}' || c == '\U{205F}' || c == '\U{3000}'
  }

  /** The two characters `Trim('\r', '\n')` removes. */
  predicate IsLineBreak(c: char) {
    c == '\r' || c == '\n'
  }

  lemma LineBreakIsWhiteSpace(c: char)
    requires IsLineBreak(c)
    ensures IsWhiteSpace(c)
  {
  }

  /** A line as `StreamReader.ReadLine` returns it holds neither CR nor LF. */
  predicate NoLineBreak(s: string) {
    forall i :: 0 <= i < |s| ==> !IsLineBreak(s[i])
  }

  /**
   * A line that survives the merge unchanged: not blank, no surrounding white space
   * (the merge applies `Trim()`), and no CR or LF inside.
   */
  predicate CleanLine(s: string) {
    s != [] && !IsWhiteSpace(s[0]) && !IsWhiteSpace(s[|s| - 1]) && NoLineBreak(s)
  }

  predicate AllClean(ls: seq<string>) {
    forall i :: 0 <= i < |ls| ==> CleanLine(ls[i])
  }

  // ---------------------------------------------------------------------------
  // Trimming
  // ---------------------------------------------------------------------------

  /** Drops the leading characters satisfying `drop`. */
  function TrimStartWhere(s: string, drop: char -> bool): (r: string)
    ensures |r| <= |s|
    decreases |s|
  {
    if s != [] && drop(s[0]) then TrimStartWhere(s[1..], drop) else s
  }

  /** Drops the trailing characters satisfying `drop`. */
  function TrimEndWhere(s: string, drop: char -> bool): (r: string)
    ensures |r| <= |s|
    decreases |s|
  {
    if s != [] && drop(s[|s| - 1]) then TrimEndWhere(s[..|s| - 1], drop) else s
  }

  function TrimWhere(s: string, drop: char -> bool): string {
    TrimEndWhere(TrimStartWhere(s, drop), drop)
  }

  /** `string.Trim()`. */
  function Trim(s: string): string {
    TrimWhere(s, IsWhiteSpace)
  }

  /** `string.Trim('\r', '\n')`. */
  function TrimLineBreaks(s: string): string {
    TrimWhere(s, IsLineBreak)
  }

  /** Trimming removes exactly a dropped prefix and a dropped suffix around a kept core. */
  lemma {:induction false} TrimAround(p: string, s: string, q: string, drop: char -> bool)
    requires forall i :: 0 <= i < |p| ==> drop(p[i])
    requires forall i :: 0 <= i < |q| ==> drop(q[i])
    requires s != [] && !drop(s[0]) && !drop(s[|s| - 1])
    ensures TrimWhere(p + s + q, drop) == s
  {
    assert p + s + q == p + (s + q);
    assert (s + q)[0] == s[0];
    TrimStartAround(p, s + q, drop);
    TrimEndAround(s, q, drop);
  }

  lemma {:induction false} TrimStartAround(p: string, s: string, drop: char -> bool)
    requires forall i :: 0 <= i < |p| ==> drop(p[i])
    requires s != [] && !drop(s[0])
    ensures TrimStartWhere(p + s, drop) == s
    decreases |p|
  {
    var t := p + s;
    if p != [] {
      assert t[0] == p[0] && drop(t[0]);
      assert t[1..] == p[1..] + s;
      TrimStartAround(p[1..], s, drop);
      assert TrimStartWhere(t, drop) == TrimStartWhere(t[1..], drop);
    } else {
      assert t == s;
      assert !drop(t[0]);
    }
  }

  lemma {:induction false} TrimEndAround(s: string, q: string, drop: char -> bool)
    requires forall i :: 0 <= i < |q| ==> drop(q[i])
    requires s != [] && !drop(s[|s| - 1])
    ensures TrimEndWhere(s + q, drop) == s
    decreases |q|
  {
    if q != [] {
      assert (s + q)[..|s + q| - 1] == s + q[..|q| - 1];
      TrimEndAround(s, q[..|q| - 1], drop);
    } else {
      assert s + q == s;
    }
  }

  /** `Trim()` leaves a clean line alone, and also strips a CR appended to it. */
  lemma TrimClean(s: string)
    requires CleanLine(s)
    ensures Trim(s) == s && Trim(s + "\r") == s
  {
    TrimAround([], s, [], IsWhiteSpace);
    assert [] + s + [] == s;
    TrimAround([], s, "\r", IsWhiteSpace);
    assert [] + s + "\r" == s + "\r";
  }

  /** `Trim('\r', '\n')` leaves text without line breaks at its ends alone. */
  lemma TrimLineBreaksKeeps(p: string, s: string, q: string)
    requires forall i :: 0 <= i < |p| ==> IsLineBreak(p[i])
    requires forall i :: 0 <= i < |q| ==> IsLineBreak(q[i])
    requires s == [] || (!IsLineBreak(s[0]) && !IsLineBreak(s[|s| - 1]))
    ensures TrimLineBreaks(p + s + q) == s
  {
    if s == [] {
      TrimAllBreaks(p + q);
      assert p + s + q == p + q;
    } else {
      TrimAround(p, s, q, IsLineBreak);
    }
  }

  lemma TrimAllBreaks(s: string)
    requires forall i :: 0 <= i < |s| ==> IsLineBreak(s[i])
    ensures TrimLineBreaks(s) == []
  {
    TrimStartAll(s, IsLineBreak);
  }

  lemma {:induction false} TrimStartAll(s: string, drop: char -> bool)
    requires forall i :: 0 <= i < |s| ==> drop(s[i])
    ensures TrimStartWhere(s, drop) == []
    decreases |s|
  {
    if s != [] {
      TrimStartAll(s[1..], drop);
    }
  }

  // ---------------------------------------------------------------------------
  // Line terminators: Split("\r\n") and the text of WriteAllLines
  // ---------------------------------------------------------------------------

  predicate CrLfAt(s: string, i: int) {
    0 <= i && i + 1 < |s| && s[i] == '\r' && s[i + 1] == '\n'
  }

  predicate HasCrLf(s: string) {
    exists i :: 0 <= i < |s| && CrLfAt(s, i)
  }

  /** `s.Split("\r\n")`: the pieces between non-overlapping separators, scanned left to right. */
  function SplitCrLf(s: string): (parts: seq<string>)
    ensures |parts| >= 1
    decreases |s|
  {
    if s == [] then [""]
    else if |s| >= 2 && s[0] == '\r' && s[1] == '\n' then [""] + SplitCrLf(s[2..])
    else
      var tail := SplitCrLf(s[1..]);
      [[s[0]] + tail[0]] + tail[1..]
  }

  /** `string.Join("\r\n", parts)`. */
  function JoinCrLf(parts: seq<string>): string
    requires |parts| >= 1
    decreases |parts|
  {
    if |parts| == 1 then parts[0] else parts[0] + "\r\n" + JoinCrLf(parts[1..])
  }

  /** Splitting is undone by joining. */
  lemma {:induction false} SplitJoin(s: string)
    ensures JoinCrLf(SplitCrLf(s)) == s
    decreases |s|
  {
    if s == [] {
    } else if |s| >= 2 && s[0] == '\r' && s[1] == '\n' {
      SplitJoin(s[2..]);
      JoinAfterSeparator(SplitCrLf(s[2..]));
      assert s == "\r\n" + s[2..];
    } else {
      SplitJoin(s[1..]);
      JoinCons(s[0], SplitCrLf(s[1..]));
      assert s == [s[0]] + s[1..];
    }
  }

  lemma JoinAfterSeparator(parts: seq<string>)
    requires |parts| >= 1
    ensures JoinCrLf([""] + parts) == "\r\n" + JoinCrLf(parts)
  {
    assert ([""] + parts)[1..] == parts;
  }

  /** A character put in front of the first piece is put in front of the joined text. */
  lemma JoinCons(c: char, parts: seq<string>)
    requires |parts| >= 1
    ensures JoinCrLf([[c] + parts[0]] + parts[1..]) == [c] + JoinCrLf(parts)
  {
    var joined := [[c] + parts[0]] + parts[1..];
    if |parts| == 1 {
      assert joined == [[c] + parts[0]];
    } else {
      assert joined[1..] == parts[1..];
      ConsConcat(c, parts[0], "\r\n", JoinCrLf(parts[1..]));
    }
  }

  lemma ConsConcat(c: char, a: string, b: string, d: string)
    ensures ([c] + a) + b + d == [c] + (a + b + d)
  {
    var n := |a| + |b| + |d| + 1;
    forall i | 0 <= i < n ensures (([c] + a) + b + d)[i] == ([c] + (a + b + d))[i] {
    }
  }

  /** No piece of a split holds the separator. */
  lemma {:induction false} SplitPiecesHaveNoCrLf(s: string)
    ensures forall k :: 0 <= k < |SplitCrLf(s)| ==> !HasCrLf(SplitCrLf(s)[k])
    decreases |s|
  {
    var parts := SplitCrLf(s);
    if s == [] {
    } else if |s| >= 2 && s[0] == '\r' && s[1] == '\n' {
      SplitPiecesHaveNoCrLf(s[2..]);
      assert parts[1..] == SplitCrLf(s[2..]);
      assert !HasCrLf(parts[0]);
    } else {
      var tail := SplitCrLf(s[1..]);
      SplitPiecesHaveNoCrLf(s[1..]);
      var first := [s[0]] + tail[0];
      assert parts[0] == first;
      assert !HasCrLf(first) by {
        if tail[0] != [] {
          SplitJoin(s[1..]);
          JoinCrLfHead(tail);
          assert s[1] == tail[0][0];
        }
        assert !CrLfAt(first, 0);
        forall i | 1 <= i ensures !CrLfAt(first, i) {
          if CrLfAt(first, i) { assert CrLfAt(tail[0], i - 1); }
        }
      }
      forall k | 1 <= k < |parts| ensures !HasCrLf(parts[k]) {
        assert parts[k] == tail[k];
      }
    }
  }

  lemma JoinCrLfHead(parts: seq<string>)
    requires |parts| >= 1 && parts[0] != []
    ensures JoinCrLf(parts) != [] && JoinCrLf(parts)[0] == parts[0][0]
  {
  }

  /**
   * `File.WriteAllLines(path, lines)` and a sequence of `WriteLine` calls: every line
   * followed by the terminator "\r\n".
   */
  function LinesText(lines: seq<string>): (text: string)
    ensures lines == [] <==> text == []
    decreases |lines|
  {
    if lines == [] then [] else lines[0] + "\r\n" + LinesText(lines[1..])
  }

  lemma {:induction false} LinesTextAppend(a: seq<string>, b: seq<string>)
    ensures LinesText(a + b) == LinesText(a) + LinesText(b)
    decreases |a|
  {
    if a == [] {
      assert a + b == b;
    } else {
      assert (a + b)[1..] == a[1..] + b;
      LinesTextAppend(a[1..], b);
    }
  }

  /** A text ending in the terminator of its last line. */
  lemma LinesTextEnd(lines: seq<string>)
    requires lines != []
    ensures |LinesText(lines)| >= 2
    ensures LinesText(lines)[|LinesText(lines)| - 1] == '\n'
    ensures LinesText(lines)[|LinesText(lines)| - 2] == '\r'
  {
    var last := |lines| - 1;
    assert lines == lines[..last] + [lines[last]];
    LinesTextAppend(lines[..last], [lines[last]]);
    assert LinesText([lines[last]]) == lines[last] + "\r\n" + [];
  }

  // ---------------------------------------------------------------------------
  // IndexOf
  // ---------------------------------------------------------------------------

  predicate OccursAt(s: string, pattern: string, i: int) {
    0 <= i && i + |pattern| <= |s| && s[i..i + |pattern|] == pattern
  }

  /** `s.IndexOf(pattern)` searched from `from`: the first occurrence, or -1. */
  function IndexOfFrom(s: string, pattern: string, from: nat): (r: int)
    requires from <= |s|
    ensures r == -1 || (from <= r && OccursAt(s, pattern, r))
    ensures forall i :: from <= i && (r == -1 || i < r) ==> !OccursAt(s, pattern, i)
    decreases |s| - from
  {
    if from + |pattern| > |s| then -1
    else if s[from..from + |pattern|] == pattern then from
    else IndexOfFrom(s, pattern, from + 1)
  }

  function IndexOf(s: string, pattern: string): int {
    IndexOfFrom(s, pattern, 0)
  }

  // ---------------------------------------------------------------------------
  // int.Parse
  // ---------------------------------------------------------------------------

  const Int32Min: int := -0x8000_0000
  const Int32Max: int := 0x7FFF_FFFF

  datatype NumberError = InvalidFormat | Overflow

  predicate IsDigit(c: char) {
    '0' <= c <= '9'
  }

  predicate AllDigits(s: string) {
    forall i :: 0 <= i < |s| ==> IsDigit(s[i])
  }

  /** The white space `NumberStyles.Integer` admits around the number: U+0009..U+000D and U+0020. */
  predicate IsNumberWhite(c: char) {
    c == ' ' || ('\t' <= c <= '\r')
  }

  /** The value of a run of decimal digits. */
  function DigitsValue(ds: string): (n: nat)
    requires AllDigits(ds)
    decreases |ds|
  {
    if ds == [] then 0
    else DigitsValue(ds[..|ds| - 1]) * 10 + (ds[|ds| - 1] as int - '0' as int)
  }

  /**
   * `int.Parse(s)` with `NumberStyles.Integer`: optional white space, an optional sign,
   * one or more ASCII digits, optional white space; the value must fit in 32 bits.
   */
  function ParseInt32(s: string): (r: Result<int, NumberError>)
    ensures r.Ok? ==> Int32Min <= r.value <= Int32Max
  {
    var body := TrimWhere(s, IsNumberWhite);
    var negative := body != [] && body[0] == '-';
    var digits := if body != [] && (body[0] == '-' || body[0] == '+') then body[1..] else body;
    if digits == [] || !AllDigits(digits) then Err(InvalidFormat)
    else
      var magnitude: int := DigitsValue(digits);
      var value := if negative then -magnitude else magnitude;
      if value < Int32Min || value > Int32Max then Err(Overflow) else Ok(value)
  }

  /** The decimal digits of a natural number, as `int.ToString()` writes them. */
  function Decimal(n: nat): (ds: string)
    ensures ds != [] && AllDigits(ds)
    decreases n
  {
    if n < 10 then [('0' as int + n) as char]
    else Decimal(n / 10) + [('0' as int + n % 10) as char]
  }

  lemma {:induction false} DecimalValue(n: nat)
    ensures DigitsValue(Decimal(n)) == n
    decreases n
  {
    var ds := Decimal(n);
    if n < 10 {
      assert ds[..0] == [];
    } else {
      assert ds[..|ds| - 1] == Decimal(n / 10);
      DecimalValue(n / 10);
    }
  }

  /** Round trip: `int.Parse` reads back what `ToString` wrote, for every non-negative `int`. */
  lemma ParseDecimal(n: nat)
    requires n <= Int32Max
    ensures ParseInt32(Decimal(n)) == Ok(n)
  {
    var ds := Decimal(n);
    assert !IsNumberWhite(ds[0]) && !IsNumberWhite(ds[|ds| - 1]);
    TrimAround([], ds, [], IsNumberWhite);
    assert [] + ds + [] == ds;
    assert TrimWhere(ds, IsNumberWhite) == ds;
    assert IsDigit(ds[0]);
    DecimalValue(n);
  }
}
