/**
 * The task text field: its `task` state and the submit guard of
 * `handleSubmit` and `handleKeyDown`.
 */
module TaskInput {
  import opened Wrappers
  import opened JsString

  /** An `onTypingChange(isTyping, intensity)` call. */
  datatype TypingSignal = TypingSignal(typing: bool, intensity: real)

  /** `Math.min(length / 50, 1) + 1`: the typing intensity for a text of `length` characters. */
  function Intensity(length: nat): (r: real)
    ensures 1.0 <= r <= 2.0
    ensures length >= 50 ==> r == 2.0
  {
    var ratio := length as real / 50.0;
    (if ratio < 1.0 then ratio else 1.0) + 1.0
  }

  /** Longer text never types less intensely. */
  lemma IntensityMonotone(a: nat, b: nat)
    requires a <= b
    ensures Intensity(a) <= Intensity(b)
  {
  }

  class TaskInputState {
    /** the text typed so far */
    var task: string

    constructor ()
      ensures task == ""
    {
      task := "";
    }

    /**
     * `handleChange`: the field's value becomes the state, and the typing
     * signal `(true, intensity)` is sent. The timer that later sends
     * `(false, 1)` is not modelled.
     */
    method HandleChange(value: string) returns (typing: TypingSignal)
      modifies this
      ensures task == value
      ensures typing == TypingSignal(true, Intensity(|value|))
    {
      task := value;
      typing := TypingSignal(true, Intensity(|value|));
    }

    /**
     * `handleSubmit`: text that trims to nothing is ignored; otherwise the
     * trimmed text goes to `onSubmit` and the typing state is reset to
     * `(false, 1)`. The typed text itself is left as it was.
     */
    method HandleSubmit() returns (submitted: Option<string>, typing: Option<TypingSignal>)
      ensures Trim(task) == "" <==> submitted.None?
      ensures submitted.None? ==> typing.None?
      ensures submitted.Some? ==> submitted.value == Trim(task) && typing == Some(TypingSignal(false, 1.0))
      ensures submitted.Some? ==> submitted.value != "" && Trim(submitted.value) == submitted.value
    {
      var trimmed := Trim(task);
      if trimmed == "" {
        return None, None;
      }
      TrimIdempotent(task);
      submitted := Some(trimmed);
      typing := Some(TypingSignal(false, 1.0));
    }

    /** `handleKeyDown`: Enter submits, and only when the trimmed text is not empty. */
    method HandleKeyDown(key: string) returns (submitted: Option<string>, typing: Option<TypingSignal>)
      ensures submitted.Some? <==> key == "Enter" && Trim(task) != ""
      ensures submitted.Some? ==> submitted.value == Trim(task) && typing == Some(TypingSignal(false, 1.0))
      ensures submitted.None? ==> typing.None?
    {
      submitted, typing := None, None;
      if key == "Enter" && Trim(task) != "" {
        submitted, typing := HandleSubmit();
      }
    }
  }
}
