/**
 * The records the components exchange: a question as the editor and the quiz
 * see it, one answered question of a finished quiz, and a finished quiz's
 * result.  A question enters the stored bank as its JSON object.
 */
module Types {
  import opened Wrappers
  import opened JsonValue
  import JsText

  datatype Question = Question(
    id: string,
    question: string,
    options: seq<string>,
    correctAnswer: string,
    explanation: Option<string>)

  datatype UserAnswer = UserAnswer(
    questionText: string,
    selectedAnswer: string,
    correctAnswer: string,
    isCorrect: bool,
    explanation: Option<string>)

  /** A JavaScript number that is either NaN or a whole number of seconds. */
  type Seconds = JsText.IntOrNaN

  /**
   * A JavaScript number that is either NaN (an average over no questions) or
   * a real: unlike `Seconds`, an average is a quotient and need not be whole.
   */
  datatype AverageSeconds = NaNAverage | Average(value: real)

  datatype QuizResult = QuizResult(
    score: JsText.IntOrNaN,
    correctCount: int,
    totalQuestions: int,
    avgTimePerQuestion: AverageSeconds,
    totalTime: Seconds,
    userAnswers: seq<UserAnswer>)

  function EncodeStrings(ss: seq<string>): (r: seq<Json>)
    ensures |r| == |ss| && forall i :: 0 <= i < |ss| ==> r[i] == JStr(ss[i])
  {
    if ss == [] then [] else [JStr(ss[0])] + EncodeStrings(ss[1..])
  }

  /** The JSON object a question is stored as; `explanation` is omitted when absent. */
  function EncodeQuestion(q: Question): (j: Json)
    ensures j.JObj?
    ensures Property(j, "id") == Some(JStr(q.id)) && Property(j, "question") == Some(JStr(q.question))
    ensures Property(j, "options") == Some(JArr(EncodeStrings(q.options)))
    ensures Property(j, "correctAnswer") == Some(JStr(q.correctAnswer))
    ensures q.explanation.Some? ==> Property(j, "explanation") == Some(JStr(q.explanation.value))
    ensures j.fields.Keys == {"id", "question", "options", "correctAnswer"} + (if q.explanation.Some? then {"explanation"} else {})
  {
    var required := map["id" := JStr(q.id), "question" := JStr(q.question),
                        "options" := JArr(EncodeStrings(q.options)), "correctAnswer" := JStr(q.correctAnswer)];
    match q.explanation
    case Some(e) => JObj(required["explanation" := JStr(e)])
    case None => JObj(required)
  }

  function EncodeQuestions(qs: seq<Question>): (j: Json)
    ensures j.JArr? && |j.elems| == |qs|
    ensures forall i :: 0 <= i < |qs| ==> j.elems[i] == EncodeQuestion(qs[i])
  {
    JArr(seq(|qs|, i requires 0 <= i < |qs| => EncodeQuestion(qs[i])))
  }
}
