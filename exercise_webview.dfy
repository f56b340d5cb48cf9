/** The event handlers of the code-exercise webview around the generated
    inputs: the answer check, Tab navigation between inputs and the width
    an input grows to while typing. */
module ExerciseWebview {
  import opened JsStrings
  import FillInBlank

  /** One `editable-input` element: its `data-expected` attribute and the
      value the user typed. */
  datatype AnswerInput = AnswerInput(expected: string, value: string)

  /** The border colour the check gives an input: `#98c379` or `#e06c75`. */
  datatype Border = Green | Red

  /** An input passes when its trimmed value equals its trimmed expected
      answer, or when the trimmed expected answer is the blank `___`. */
  predicate Accepted(input: AnswerInput) {
    Trim(input.value) == Trim(input.expected) || Trim(input.expected) == FillInBlank.Blank
  }

  function BorderOf(input: AnswerInput): Border {
    if Accepted(input) then Green else Red
  }

  /** `f` applied to each element of `s`, in order. */
  function Map<T, U>(f: T -> U, s: seq<T>): seq<U>
    decreases |s|
  {
    if |s| == 0 then [] else Map(f, s[..|s| - 1]) + [f(s[|s| - 1])]
  }

  lemma {:induction false} MapAt<T, U>(f: T -> U, s: seq<T>)
    ensures |Map(f, s)| == |s|
    ensures forall j :: 0 <= j < |s| ==> Map(f, s)[j] == f(s[j])
    decreases |s|
  {
    if |s| > 0 {
      var n := |s| - 1;
      MapAt(f, s[..n]);
      assert forall j :: 0 <= j < n ==> s[..n][j] == s[j];
    }
  }

  /** The borders the check gives `inputs`, one per input, in order. */
  function Marks(inputs: seq<AnswerInput>): seq<Border> {
    Map(BorderOf, inputs)
  }

  /** All inputs pass exactly when no border is red. */
  lemma NoRedIffAllAccepted(inputs: seq<AnswerInput>)
    ensures Red !in Marks(inputs) <==> forall j :: 0 <= j < |inputs| ==> Accepted(inputs[j])
  {
    MapAt(BorderOf, inputs);
    var m := Marks(inputs);
    if Red in m {
      var j :| 0 <= j < |m| && m[j] == Red;
      assert !Accepted(inputs[j]);
    } else {
      forall j | 0 <= j < |inputs| ensures Accepted(inputs[j]) {
        assert m[j] != Red;
      }
    }
  }

  /** `checkAnswers`: marks every input and reports whether all passed,
      together with the honk the extension is asked to play. */
  method CheckAnswers(inputs: seq<AnswerInput>) returns (allCorrect: bool, borders: seq<Border>, honkFile: string)
    ensures allCorrect <==> forall i :: 0 <= i < |inputs| ==> Accepted(inputs[i])
    ensures |borders| == |inputs|
    ensures forall i :: 0 <= i < |inputs| ==> borders[i] == (if Accepted(inputs[i]) then Green else Red)
    ensures honkFile == if allCorrect then "honk1.mp3" else "honk3.mp3"
  {
    allCorrect := true;
    borders := [];
    var i := 0;
    while i < |inputs|
      invariant 0 <= i <= |inputs|
      invariant borders == Marks(inputs[..i]) && (allCorrect <==> Red !in borders)
    {
      var expectedAnswer := Trim(inputs[i].expected);
      var userAnswer := Trim(inputs[i].value);
      if userAnswer != expectedAnswer && expectedAnswer != FillInBlank.Blank {
        allCorrect := false;
        borders := borders + [Red];
      } else {
        borders := borders + [Green];
      }
      assert inputs[..i + 1][..i] == inputs[..i];
      assert Marks(inputs[..i + 1]) == Marks(inputs[..i]) + [BorderOf(inputs[i])];
      i := i + 1;
    }
    assert inputs[..i] == inputs;
    MapAt(BorderOf, inputs);
    NoRedIffAllAccepted(inputs);
    honkFile := if allCorrect then "honk1.mp3" else "honk3.mp3";
  }

  /** `"___".trim()` is `"___"`. */
  lemma TrimBlank()
    ensures Trim(FillInBlank.Blank) == FillInBlank.Blank
  {
    var b := FillInBlank.Blank;
    assert !IsJsWhitespace(b[0]) && !IsJsWhitespace(b[2]);
    assert LeadingWhitespace(b) == 0;
    assert TrailingWhitespace(b) == 0;
    assert b[0..][..3] == b;
  }

  /** Every generated input expects `___`, so whatever the user types, every
      generated input passes the check. */
  lemma GeneratedInputsPass(inputs: seq<AnswerInput>)
    requires forall i :: 0 <= i < |inputs| ==> inputs[i].expected == FillInBlank.Blank
    ensures forall i :: 0 <= i < |inputs| ==> Accepted(inputs[i])
  {
    TrimBlank();
  }

  /** The input Tab (forwards) or Shift-Tab moves to from input `current`
      of `count`, wrapping around at both ends. */
  function NextInputIndex(current: nat, count: nat, shiftKey: bool): (next: nat)
    requires current < count
    ensures next < count
    ensures !shiftKey ==> next == (current + 1) % count
    ensures shiftKey ==> next == (current - 1 + count) % count
  {
    if shiftKey then (if current > 0 then current - 1 else count - 1)
    else (if current < count - 1 then current + 1 else 0)
  }

  /** Shift-Tab undoes Tab, and Tab undoes Shift-Tab. */
  lemma TabRoundTrip(current: nat, count: nat)
    requires current < count
    ensures NextInputIndex(NextInputIndex(current, count, false), count, true) == current
    ensures NextInputIndex(NextInputIndex(current, count, true), count, false) == current
  {
  }

  /** The CSS width in pixels of an input holding `length` characters. */
  function InputWidth(length: nat): (w: nat)
    ensures w >= 30 && w >= 8 * length
    ensures w == 30 || w == 8 * length
  {
    if 8 * length > 30 then 8 * length else 30
  }
}
