/**
 * The options of the test-file generator (LargeTextGenerator/GeneratorOptions.cs) and the
 * guard `Validator.ValidateOptions` runs before any file is written.
 *
 * The generator writes `LinesNumber` lines, each with a text part drawn from a set of sample
 * strings; the guard makes sure the sample lengths form a non-empty range and that there are
 * fewer samples (`SampleStringsNumber`) than lines, so that texts repeat. As written, the
 * generator builds `SampleStringMaxLength` sample strings instead, which the guard does not
 * bound, so an accepted configuration need not give a repeated text.
 */
module Generator {
  import opened Outcomes

  datatype GeneratorOptions = GeneratorOptions(
    basePath: string,
    sampleStringsNumber: int,
    sampleStringMinLength: int,
    sampleStringMaxLength: int,
    linesNumber: int,
    maxNumberPart: int)

  /** The two `ArgumentException`s the guard throws, in the order it checks for them. */
  datatype OptionError = MinNotBelowMax | TooFewLinesForRepetitions

  /** The values a `new GeneratorOptions()` starts with (Infrastructure/Constants.cs). */
  function DefaultOptions(): GeneratorOptions {
    GeneratorOptions(
      "D:\\Repos\\LargeTextSort\\Files",
      100000,
      100,
      2000,
      1000000000,
      100000)
  }

  /** Options the guard lets through. */
  predicate Acceptable(options: GeneratorOptions) {
    options.sampleStringMinLength < options.sampleStringMaxLength
    && options.sampleStringsNumber < options.linesNumber
  }

  /**
   * `ValidateOptions`: returns normally exactly for acceptable options; otherwise it throws,
   * and when both checks fail it is the length check that is reported.
   */
  function ValidateOptions(options: GeneratorOptions): (r: Result<(), OptionError>)
    ensures r.Ok? <==> Acceptable(options)
    ensures r == Err(MinNotBelowMax) <==> options.sampleStringMaxLength <= options.sampleStringMinLength
    ensures r == Err(TooFewLinesForRepetitions) <==>
      options.sampleStringMinLength < options.sampleStringMaxLength
      && options.linesNumber <= options.sampleStringsNumber
  {
    if options.sampleStringMaxLength <= options.sampleStringMinLength then Err(MinNotBelowMax)
    else if options.sampleStringsNumber >= options.linesNumber then Err(TooFewLinesForRepetitions)
    else Ok(())
  }

  /**
   * The `LargeTextFileGenerator` constructor: the given options, or the defaults when none are
   * given, once the guard has accepted them.
   */
  function NewGenerator(options: Option<GeneratorOptions>): (r: Result<GeneratorOptions, OptionError>)
    ensures options.None? ==> r == Ok(DefaultOptions())
    ensures options.Some? ==> (r.Ok? <==> Acceptable(options.value))
    ensures r.Ok? ==> Acceptable(r.value)
  {
    var chosen := match options case None => DefaultOptions() case Some(given) => given;
    match ValidateOptions(chosen)
    case Ok(_) => Ok(chosen)
    case Err(e) => Err(e)
  }

  /** A generator built without options passes its own guard. */
  lemma DefaultsAreAcceptable()
    ensures ValidateOptions(DefaultOptions()) == Ok(())
    ensures Acceptable(DefaultOptions())
  {
  }

  // ---------------------------------------------------------------------------
  // Why the guard asks for fewer samples than lines
  // ---------------------------------------------------------------------------

  /** Every line picked one of `count` sample strings, by index. */
  predicate PicksAmong(picks: seq<int>, count: int) {
    forall i :: 0 <= i < |picks| ==> 0 <= picks[i] < count
  }

  /** Two lines got the same sample string. */
  predicate HasRepeat(picks: seq<int>) {
    exists i, j :: 0 <= i < j < |picks| && picks[i] == picks[j]
  }

  /** More picks than choices: some choice is picked twice. */
  lemma {:induction false} Pigeonhole(picks: seq<int>, count: int)
    requires 0 <= count < |picks| && PicksAmong(picks, count)
    ensures HasRepeat(picks)
    decreases |picks|
  {
    var n := |picks|;
    var last := picks[n - 1];
    if i :| 0 <= i < n - 1 && picks[i] == last {
      assert picks[i] == picks[n - 1];
    } else {
      // Close the gap `last` leaves: the earlier picks fit among `count - 1` choices.
      var lower := seq(n - 1, k requires 0 <= k < n - 1 => if picks[k] < last then picks[k] else picks[k] - 1);
      assert PicksAmong(lower, count - 1) by {
        forall k | 0 <= k < n - 1 ensures 0 <= lower[k] < count - 1 {
          assert picks[k] != last;
        }
      }
      Pigeonhole(lower, count - 1);
      var i, j :| 0 <= i < j < |lower| && lower[i] == lower[j];
      assert picks[i] != last && picks[j] != last;
      assert picks[i] == picks[j];
    }
  }

  /** How many sample strings `GenerateSampleStrings` builds as written: one per unit of the maximum length. */
  function SamplesBuilt(options: GeneratorOptions): int {
    options.sampleStringMaxLength
  }

  /** Ten lines that each draw a different sample string. */
  function DistinctPicks(): seq<int> {
    seq(10, k requires 0 <= k < 10 => k)
  }

  /**
   * As written, the guard does not bring about what it checks for: five samples for ten lines
   * is accepted, but the generator draws among 2000 built samples, and ten lines can all
   * differ.
   */
  lemma AcceptedWithoutRepeat()
    ensures var options := GeneratorOptions("", 5, 1, 2000, 10, 100);
      Acceptable(options)
      && |DistinctPicks()| == options.linesNumber
      && PicksAmong(DistinctPicks(), SamplesBuilt(options))
      && !HasRepeat(DistinctPicks())
  {
    var picks := DistinctPicks();
    assert forall i :: 0 <= i < |picks| ==> picks[i] == i;
  }

  /**
   * The promise behind the second check, for a generator that draws among
   * `SampleStringsNumber` samples: with acceptable options, however the lines draw their
   * sample strings, at least two lines share one.
   */
  lemma AcceptedOptionsRepeat(options: GeneratorOptions, picks: seq<int>)
    requires Acceptable(options)
    requires |picks| == options.linesNumber && PicksAmong(picks, options.sampleStringsNumber)
    requires options.sampleStringsNumber >= 0
    ensures HasRepeat(picks)
  {
    Pigeonhole(picks, options.sampleStringsNumber);
  }
}
