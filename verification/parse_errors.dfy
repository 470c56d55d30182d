/**
 * The error text both parsers return: `format!("{} <reason>", input)`, that is
 * the offending input followed by a fixed reason. The message is a plain
 * string; it does not say which check failed.
 */
module ParseErrors {
  import opened Wrappers

  /** The error message for `input` rejected with the fixed text `reason`. */
  function Rejection(input: string, reason: string): string {
    input + reason
  }

  /** Reads the offending input back out of a message, if the message ends with `reason`. */
  function OffendingInput(msg: string, reason: string): (r: Option<string>)
    ensures r.Some? ==> Rejection(r.value, reason) == msg
    ensures r.None? ==> forall input :: Rejection(input, reason) != msg
  {
    if |reason| <= |msg| && msg[|msg| - |reason|..] == reason then
      var input := msg[..|msg| - |reason|];
      assert input + reason == msg;
      Some(input)
    else
      assert forall input :: (input + reason)[|input|..] == reason;
      None
  }

  /** The message carries the whole offending input: it can be read back exactly. */
  lemma OffendingInputRoundTrip(input: string, reason: string)
    ensures OffendingInput(Rejection(input, reason), reason) == Some(input)
  {
    var msg := Rejection(input, reason);
    assert msg[|msg| - |reason|..] == reason;
    assert msg[..|msg| - |reason|] == input;
  }

  /** Distinct inputs get distinct messages. */
  lemma RejectionInjective(a: string, b: string, reason: string)
    requires Rejection(a, reason) == Rejection(b, reason)
    ensures a == b
  {
    OffendingInputRoundTrip(a, reason);
    OffendingInputRoundTrip(b, reason);
  }
}
