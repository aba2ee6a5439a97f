/**
 * The dialog that asks how many questions a sub-topic quiz should have
 * (components/QuizCustomizationModal.tsx): the number field, its error
 * message, the reset when the dialog opens, and the submit guard.
 */
module QuizCustomizationModal {
  import opened Wrappers
  import opened JsText

  const EmptyMessage := "Please enter a number."

  /** The message shown for a number outside 1..maxQuestions. */
  function RangeMessage(maxQuestions: nat): (r: string)
    ensures r != "" && r != EmptyMessage
  {
    "Please enter a number between 1 and " + NatToDecimal(maxQuestions) + "."
  }

  /** Whether a parsed entry lies in the accepted range 1..maxQuestions. */
  predicate InRange(n: IntOrNaN, maxQuestions: nat) {
    n.Int? && 1 <= n.value <= maxQuestions
  }

  class CustomizationModal {
    /** Props handed down by the dashboard. */
    var isOpen: bool
    var maxQuestions: nat
    /** State of the dialog: the current entry and the message under it. */
    var numQuestions: IntOrNaN
    var error: string

    /**
     * While the dialog is open, an empty message means the entry is a
     * number that is either in range or the untouched default (the size of
     * the sub-topic, which is 0 for an empty one).
     */
    ghost predicate Valid()
      reads this
    {
      isOpen && error == "" ==>
        numQuestions.Int? && (numQuestions.value == maxQuestions || InRange(numQuestions, maxQuestions))
    }

    /** `useState(maxQuestions)` and `useState('')` on mount. */
    constructor(isOpen: bool, maxQuestions: nat)
      ensures this.isOpen == isOpen && this.maxQuestions == maxQuestions
      ensures numQuestions == Int(maxQuestions) && error == ""
      ensures Valid()
    {
      this.isOpen := isOpen;
      this.maxQuestions := maxQuestions;
      numQuestions := Int(maxQuestions);
      error := "";
    }

    /**
     * New props from the parent. The effect keyed on `isOpen` and
     * `maxQuestions` resets the entry to the full count and clears the
     * message when either changed and the dialog is (now) open.
     */
    method SetProps(open: bool, max: nat)
      modifies this
      requires Valid()
      ensures isOpen == open && maxQuestions == max
      ensures open && (open != old(isOpen) || max != old(maxQuestions)) ==>
        numQuestions == Int(max) && error == ""
      ensures !(open && (open != old(isOpen) || max != old(maxQuestions))) ==>
        numQuestions == old(numQuestions) && error == old(error)
      ensures Valid()
    {
      var changed := open != isOpen || max != maxQuestions;
      isOpen, maxQuestions := open, max;
      if open && changed {
        numQuestions, error := Int(max), "";
      }
    }

    /**
     * `handleNumChange`: an emptied field becomes 0 with a request for a
     * number; otherwise the text is read with `parseInt` and kept whatever
     * it is, with the range message when it is NaN or outside 1..max.
     */
    method NumChange(text: string)
      modifies this
      requires isOpen && Valid()
      ensures isOpen == old(isOpen) && maxQuestions == old(maxQuestions)
      ensures text == "" ==> numQuestions == Int(0) && error == EmptyMessage
      ensures text != "" ==> numQuestions == ParseInt(text)
      ensures text != "" && InRange(ParseInt(text), maxQuestions) ==> error == ""
      ensures text != "" && !InRange(ParseInt(text), maxQuestions) ==> error == RangeMessage(maxQuestions)
      ensures Valid()
    {
      if text == "" {
        numQuestions := Int(0);
        error := EmptyMessage;
        return;
      }
      var num := ParseInt(text);
      if num.NaN? || num.value < 1 || num.value > maxQuestions {
        error := RangeMessage(maxQuestions);
      } else {
        error := "";
      }
      numQuestions := num;
    }

    /** The "Start Quiz" button is disabled on a message, a zero or NaN. */
    predicate StartDisabled()
      reads this
      ensures isOpen && Valid() && !StartDisabled() ==>
        numQuestions.Int? && 1 <= numQuestions.value <= maxQuestions
    {
      error != "" || numQuestions == Int(0) || numQuestions.NaN?
    }

    /**
     * `handleSubmit`: the quiz starts with the entered count exactly when
     * there is no message and the count is positive; a started count is
     * always within 1..maxQuestions.
     */
    method Submit() returns (started: Option<int>)
      requires isOpen && Valid()
      ensures started.Some? <==> error == "" && numQuestions.Int? && numQuestions.value > 0
      ensures started.Some? ==> started.value == numQuestions.value
      ensures started.Some? ==> 1 <= started.value <= maxQuestions
      ensures started.Some? <==> !StartDisabled()
    {
      if error == "" && numQuestions.Int? && numQuestions.value > 0 {
        started := Some(numQuestions.value);
      } else {
        started := None;
      }
    }
  }

  /** Typing the count back in its own decimal text gives a clean entry of that count. */
  lemma TypedCountIsAccepted(maxQuestions: nat, n: nat)
    requires 1 <= n <= maxQuestions
    ensures ParseInt(NatToDecimal(n)) == Int(n) && InRange(ParseInt(NatToDecimal(n)), maxQuestions)
  {
    ParseIntOfIntToDecimal(n);
  }

  /** Every number outside 1..maxQuestions, typed in, leaves the range message. */
  lemma OutOfRangeIsRefused(maxQuestions: nat, i: int)
    requires i < 1 || i > maxQuestions
    ensures !InRange(ParseInt(IntToDecimal(i)), maxQuestions)
  {
    ParseIntOfIntToDecimal(i);
  }
}
