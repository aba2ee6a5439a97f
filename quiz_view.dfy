/**
 * One run through a fixed question list (components/QuizView.tsx): the
 * current index, the selected option, whether it has been checked and the
 * explanation on show; the check and next transitions; and the colour each
 * option button gets.
 */
module QuizView {
  import opened Wrappers
  import opened JsText
  import opened Types

  /** `!!selectedAnswer`: a selection that is neither null nor the empty string. */
  predicate HasSelection(selected: Option<string>) {
    selected.Some? && selected.value != ""
  }

  /** `q.explanation && q.explanation.trim() !== ''` */
  predicate HasExplanation(q: Question) {
    q.explanation.Some? && !IsBlank(q.explanation.value)
  }

  /** How an option button is coloured. */
  datatype Highlight = Chosen | Unchosen | Right | Wrong | Dimmed {
    function ClassName(): string {
      match this
      case Chosen => "bg-indigo-100 border-indigo-500 shadow-md"
      case Unchosen => "bg-white border-gray-200 hover:border-indigo-300 hover:bg-indigo-50"
      case Right => "bg-green-100 border-green-500"
      case Wrong => "bg-red-100 border-red-500"
      case Dimmed => "bg-gray-100 border-gray-200 text-gray-500"
    }
  }

  /**
   * Before checking only the selected option stands out; after checking the
   * correct answer is green whether or not it was chosen, a wrong choice is
   * red and every other option is grey.
   */
  function OptionHighlight(option: string, selected: Option<string>, checked: bool, correctAnswer: string): (h: Highlight)
    ensures !checked ==> (h == Chosen <==> selected == Some(option)) && (h == Chosen || h == Unchosen)
    ensures checked ==> (h == Right <==> option == correctAnswer)
    ensures checked ==> (h == Wrong <==> option != correctAnswer && selected == Some(option))
    ensures checked ==> (h == Dimmed <==> option != correctAnswer && selected != Some(option))
  {
    if !checked then (if selected == Some(option) then Chosen else Unchosen)
    else if option == correctAnswer then Right
    else if selected == Some(option) then Wrong
    else Dimmed
  }

  /** After checking, every red option carries the selected text, and that text is not the correct answer. */
  lemma WrongIsTheSelection(options: seq<string>, selected: Option<string>, correctAnswer: string, i: nat, j: nat)
    requires i < |options| && j < |options|
    requires OptionHighlight(options[i], selected, true, correctAnswer) == Wrong
    requires OptionHighlight(options[j], selected, true, correctAnswer) == Wrong
    ensures options[i] == options[j] == selected.value && selected.value != correctAnswer
  {
  }

  class Session {
    const moduleId: int
    const questions: seq<Question>
    var index: nat
    var selected: Option<string>
    var checked: bool
    var explanation: Option<string>

    /** Index in bounds; a checked answer is a real selection; an explanation is shown only once checked, and is the current question's. */
    ghost predicate Valid()
      reads this
    {
      && (|questions| == 0 ==> index == 0 && !checked && explanation.None?)
      && (|questions| > 0 ==> index < |questions|)
      && (checked ==> HasSelection(selected))
      && (explanation.Some? ==> checked && questions[index].explanation == explanation && HasExplanation(questions[index]))
    }

    constructor (moduleId: int, questions: seq<Question>)
      ensures Valid()
      ensures this.moduleId == moduleId && this.questions == questions
      ensures index == 0 && selected.None? && !checked && explanation.None?
    {
      this.moduleId := moduleId;
      this.questions := questions;
      index := 0;
      selected := None;
      checked := false;
      explanation := None;
    }

    /** The colour of an option of the current question. */
    function OptionClass(option: string): (h: Highlight)
      reads this
      requires Valid() && |questions| > 0
      ensures h == Right <==> checked && option == questions[index].correctAnswer
      ensures h == Wrong ==> checked && selected == Some(option) && HasSelection(selected) && option != questions[index].correctAnswer
      ensures h == Chosen ==> !checked && selected == Some(option)
    {
      OptionHighlight(option, selected, checked, questions[index].correctAnswer)
    }

    /** Clicking an option: the buttons are disabled once the answer is checked. */
    method SelectAnswer(option: string)
      requires Valid() && |questions| > 0 && option in questions[index].options
      modifies this
      ensures Valid()
      ensures index == old(index) && checked == old(checked) && explanation == old(explanation)
      ensures selected == if old(checked) then old(selected) else Some(option)
    {
      if !checked {
        selected := Some(option);
      }
    }

    /** Without a selection nothing happens; otherwise the answer is checked and a non-blank explanation is shown. */
    method CheckAnswer()
      requires Valid() && |questions| > 0
      modifies this
      ensures Valid()
      ensures index == old(index) && selected == old(selected)
      ensures !HasSelection(old(selected)) ==> checked == old(checked) && explanation == old(explanation)
      ensures HasSelection(old(selected)) ==> checked
      ensures HasSelection(old(selected)) ==>
                explanation == if HasExplanation(questions[index]) then questions[index].explanation else old(explanation)
    {
      if !HasSelection(selected) {
        return;
      }
      checked := true;
      var q := questions[index];
      if HasExplanation(q) {
        explanation := q.explanation;
      }
    }

    /** Moves to the next question with a clean slate, or, on the last one, reports completion and changes nothing. */
    method NextQuestion() returns (completion: Option<int>)
      requires Valid() && |questions| > 0
      modifies this
      ensures Valid()
      ensures old(index) < |questions| - 1 ==>
                && index == old(index) + 1 && selected.None? && !checked && explanation.None?
                && completion.None?
      ensures old(index) == |questions| - 1 ==>
                && index == old(index) && selected == old(selected) && checked == old(checked)
                && explanation == old(explanation) && completion == Some(moduleId)
    {
      if index < |questions| - 1 {
        index := index + 1;
        selected := None;
        checked := false;
        explanation := None;
        completion := None;
      } else {
        completion := Some(moduleId);
      }
    }

    /** With no questions the only control is the one that reports completion of the module. */
    method LeaveEmptyQuiz() returns (completion: int)
      requires |questions| == 0
      ensures completion == moduleId
    {
      completion := moduleId;
    }
  }
}
