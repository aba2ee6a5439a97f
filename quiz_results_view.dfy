/**
 * The classifiers of the results scorecard (components/QuizResultsView.tsx):
 * the elapsed-time text, the score and speed bands, the heading message, and
 * the wrong-answer count and review list.
 */
module QuizResultsView {
  import opened Wrappers
  import opened JsText
  import opened Types

  // ------------------------------------------------------------ formatTime

  /** `formatTime`: "0s" for NaN or negative input, "{m}m {s}s" from a minute on, "{s}s" below. */
  function FormatTime(t: Seconds): (r: string)
    ensures t.NaN? || t.value < 0 ==> r == "0s"
    ensures t.Int? && 0 <= t.value < 60 ==> r == NatToDecimal(t.value) + "s"
    ensures |r| >= 2 && r[|r| - 1] == 's'
  {
    if t.NaN? || t.value < 0 then "0s"
    else
      var minutes := t.value / 60;
      var remaining := t.value % 60;
      if minutes > 0 then NatToDecimal(minutes) + "m " + NatToDecimal(remaining) + "s"
      else NatToDecimal(remaining) + "s"
  }

  function IndexOf(s: string, c: char): (r: Option<nat>)
    ensures r.None? <==> c !in s
    ensures r.Some? ==> r.value < |s| && s[r.value] == c && c !in s[..r.value]
  {
    if s == [] then None
    else if s[0] == c then Some(0)
    else match IndexOf(s[1..], c)
      case None => None
      case Some(k) =>
        assert s[..k + 1] == [s[0]] + s[1..][..k];
        Some(k + 1)
  }

  /** Reads a duration written as "{s}s" or "{m}m {s}s" back as seconds. */
  function ParseTime(text: string): Option<nat> {
    if |text| == 0 || text[|text| - 1] != 's' then None else ParseMinutes(text[..|text| - 1])
  }

  /** "{s}" or "{m}m {s}" as seconds. */
  function ParseMinutes(body: string): Option<nat> {
    var m := IndexOf(body, 'm');
    if m.None? then ParseDecimal(body)
    else if m.value + 1 < |body| && body[m.value + 1] == ' ' then
      var minutes := ParseDecimal(body[..m.value]);
      var seconds := ParseDecimal(body[m.value + 2..]);
      if minutes.Some? && seconds.Some? then Some(60 * minutes.value + seconds.value) else None
    else None
  }

  lemma {:induction false} IndexOfAfter(a: string, rest: string, c: char)
    requires c !in a && |rest| > 0 && rest[0] == c
    ensures IndexOf(a + rest, c) == Some(|a|)
  {
    if a == [] {
      assert a + rest == rest;
    } else {
      assert (a + rest)[1..] == a[1..] + rest;
      IndexOfAfter(a[1..], rest, c);
    }
  }

  lemma DigitsHaveNoM(s: string)
    requires AllDigits(s)
    ensures 'm' !in s
  {
  }

  lemma ParseMinutesOfParts(body: string, k: nat, minutes: nat, seconds: nat)
    requires IndexOf(body, 'm') == Some(k)
    requires k + 1 < |body| && body[k + 1] == ' '
    requires ParseDecimal(body[..k]) == Some(minutes)
    requires ParseDecimal(body[k + 2..]) == Some(seconds)
    ensures ParseMinutes(body) == Some(60 * minutes + seconds)
  {
  }

  lemma ParseTimeOfBody(body: string)
    ensures ParseTime(body + "s") == ParseMinutes(body)
  {
    assert (body + "s")[..|body|] == body;
  }

  /** Where the pieces of "{m}m {s}" sit. */
  lemma MinutesBodyLayout(mm: string, ss: string)
    requires AllDigits(mm)
    ensures var body := mm + ("m " + ss);
            && IndexOf(body, 'm') == Some(|mm|)
            && |mm| + 1 < |body| && body[|mm| + 1] == ' '
            && body[..|mm|] == mm && body[|mm| + 2..] == ss
  {
    DigitsHaveNoM(mm);
    IndexOfAfter(mm, "m " + ss, 'm');
    var body := mm + ("m " + ss);
    assert body[..|mm|] == mm && body[|mm| + 2..] == ss;
  }

  /** "{m}m {s}" reads back as 60 m + s. */
  lemma ParseMinutesAndSeconds(mm: string, ss: string, body: string)
    requires |mm| > 0 && AllDigits(mm) && |ss| > 0 && AllDigits(ss)
    requires body == mm + ("m " + ss)
    ensures ParseMinutes(body) == Some(60 * DecimalValue(mm) + DecimalValue(ss))
  {
    MinutesBodyLayout(mm, ss);
    ParseMinutesOfParts(body, |mm|, DecimalValue(mm), DecimalValue(ss));
  }

  /** "{s}s" reads back as s. */
  lemma ParseSecondsOnly(ss: string)
    requires |ss| > 0 && AllDigits(ss)
    ensures ParseTime(ss + "s") == Some(DecimalValue(ss))
  {
    DigitsHaveNoM(ss);
    ParseTimeOfBody(ss);
  }

  /** From a minute on, the text is the minutes, "m ", the remaining seconds and 's'. */
  lemma FormatMinutesText(n: nat)
    requires n >= 60
    ensures FormatTime(Int(n)) == NatToDecimal(n / 60) + ("m " + NatToDecimal(n % 60)) + "s"
  {
  }

  /** From a minute on, "{m}m {s}s" is 60 m + s seconds. */
  lemma FormatMinutesRoundTrip(n: nat, text: string)
    requires n >= 60 && text == FormatTime(Int(n))
    ensures ParseTime(text) == Some(n)
  {
    var mm, ss := NatToDecimal(n / 60), NatToDecimal(n % 60);
    var body := mm + ("m " + ss);
    FormatMinutesText(n);
    DecimalValueOfNatToDecimal(n / 60);
    DecimalValueOfNatToDecimal(n % 60);
    ParseMinutesAndSeconds(mm, ss, body);
    ParseTimeOfBody(body);
  }

  /** Every whole, non-negative duration is written so that it reads back as the same number of seconds. */
  lemma FormatTimeRoundTrip(n: nat)
    ensures ParseTime(FormatTime(Int(n))) == Some(n)
  {
    if n >= 60 {
      FormatMinutesRoundTrip(n, FormatTime(Int(n)));
    } else {
      var ss := NatToDecimal(n);
      DecimalValueOfNatToDecimal(n);
      ParseSecondsOnly(ss);
      assert FormatTime(Int(n)) == ss + "s";
    }
  }

  // ---------------------------------------------------- score and speed

  datatype ScoreBand = Low | Mid | High {
    function ClassName(): string {
      match this
      case High => "text-green-500"
      case Mid => "text-yellow-500"
      case Low => "text-red-500"
    }

    function Rank(): nat {
      match this
      case Low => 0
      case Mid => 1
      case High => 2
    }
  }

  /**
   * `getScoreColor`: green from 80, yellow from 50, red below. A NaN score
   * (a quiz over no questions) fails both comparisons and is red.
   */
  function ScoreColor(score: IntOrNaN): (b: ScoreBand)
    ensures b == High <==> score.Int? && score.value >= 80
    ensures b == Mid <==> score.Int? && 50 <= score.value < 80
    ensures b == Low <==> score.NaN? || score.value < 50
  {
    if score.NaN? then Low
    else if score.value >= 80 then High
    else if score.value >= 50 then Mid
    else Low
  }

  /** A higher score never gets a lower band. */
  lemma ScoreColorMonotone(a: int, b: int)
    requires a <= b
    ensures ScoreColor(Int(a)).Rank() <= ScoreColor(Int(b)).Rank()
  {
  }

  /** The message under the score ring. */
  function Verdict(score: IntOrNaN): (r: string)
    ensures r == "Good Job!" <==> score.Int? && score.value >= 50
    ensures r != "Good Job!" ==> r == "Keep Practicing"
  {
    if score.Int? && score.value >= 50 then "Good Job!" else "Keep Practicing"
  }

  /** "Good Job!" appears exactly when the score is not in the red band. */
  lemma VerdictMatchesBand(score: IntOrNaN)
    ensures Verdict(score) == "Good Job!" <==> score.Int? && score.value >= 50
    ensures Verdict(score) == "Good Job!" <==> ScoreColor(score) != Low
  {
  }

  datatype Speed = VeryFast | Fast | Moderate | Slow {
    function Label(): string {
      match this
      case VeryFast => "Very Fast"
      case Fast => "Fast"
      case Moderate => "Moderate"
      case Slow => "Slow"
    }

    function Color(): string {
      match this
      case VeryFast => "text-green-500"
      case Fast => "text-sky-500"
      case Moderate => "text-yellow-500"
      case Slow => "text-orange-500"
    }

    /** Higher is slower. */
    function Rank(): nat {
      match this
      case VeryFast => 0
      case Fast => 1
      case Moderate => 2
      case Slow => 3
    }
  }

  /** `getSpeedLabel`: inclusive bounds at 10, 20 and 30 seconds; NaN fails every test and is "Slow". */
  function SpeedOf(avg: AverageSeconds): (sp: Speed)
    ensures avg.NaNAverage? ==> sp == Slow
    ensures avg.Average? ==> (sp == VeryFast <==> avg.value <= 10.0)
    ensures avg.Average? ==> (sp == Fast <==> 10.0 < avg.value <= 20.0)
    ensures avg.Average? ==> (sp == Moderate <==> 20.0 < avg.value <= 30.0)
    ensures avg.Average? ==> (sp == Slow <==> avg.value > 30.0)
  {
    if avg.NaNAverage? then Slow
    else if avg.value <= 10.0 then VeryFast
    else if avg.value <= 20.0 then Fast
    else if avg.value <= 30.0 then Moderate
    else Slow
  }

  /** A larger average never gets a faster label. */
  lemma SpeedMonotone(a: real, b: real)
    requires a <= b
    ensures SpeedOf(Average(a)).Rank() <= SpeedOf(Average(b)).Rank()
  {
  }

  // ------------------------------------------------------ wrong answers

  function IncorrectCount(r: QuizResult): int {
    r.totalQuestions - r.correctCount
  }

  function CountCorrect(answers: seq<UserAnswer>): (n: nat)
    ensures n <= |answers|
  {
    if answers == [] then 0 else (if answers[0].isCorrect then 1 else 0) + CountCorrect(answers[1..])
  }

  /** `userAnswers.filter(a => !a.isCorrect)` */
  function IncorrectAnswers(answers: seq<UserAnswer>): (r: seq<UserAnswer>)
    ensures |r| <= |answers|
    ensures forall i :: 0 <= i < |r| ==> !r[i].isCorrect && r[i] in answers
    ensures forall i :: 0 <= i < |answers| && !answers[i].isCorrect ==> answers[i] in r
  {
    if answers == [] then []
    else if answers[0].isCorrect then IncorrectAnswers(answers[1..])
    else [answers[0]] + IncorrectAnswers(answers[1..])
  }

  /** The review list keeps the answers' order: the filter distributes over concatenation. */
  lemma {:induction false} IncorrectAnswersAppend(a: seq<UserAnswer>, b: seq<UserAnswer>)
    ensures IncorrectAnswers(a + b) == IncorrectAnswers(a) + IncorrectAnswers(b)
  {
    if a == [] {
      assert a + b == b;
    } else {
      assert (a + b)[0] == a[0] && (a + b)[1..] == a[1..] + b;
      IncorrectAnswersAppend(a[1..], b);
    }
  }

  /** Every answer is either counted correct or listed for review. */
  lemma {:induction false} CorrectPlusIncorrect(answers: seq<UserAnswer>)
    ensures CountCorrect(answers) + |IncorrectAnswers(answers)| == |answers|
  {
    if answers != [] {
      CorrectPlusIncorrect(answers[1..]);
    }
  }

  /** For a result whose counts agree with its answers, the "Wrong" figure is the length of the review list. */
  lemma IncorrectCountMatchesReview(r: QuizResult)
    requires r.totalQuestions == |r.userAnswers| && r.correctCount == CountCorrect(r.userAnswers)
    ensures IncorrectCount(r) == |IncorrectAnswers(r.userAnswers)|
  {
    CorrectPlusIncorrect(r.userAnswers);
  }

  /** The review section is shown exactly when some answer was wrong. */
  lemma ReviewShownIffSomeWrong(answers: seq<UserAnswer>)
    ensures |IncorrectAnswers(answers)| > 0 <==> exists i :: 0 <= i < |answers| && !answers[i].isCorrect
  {
    if |IncorrectAnswers(answers)| > 0 {
      assert IncorrectAnswers(answers)[0] in answers;
    }
  }
}
