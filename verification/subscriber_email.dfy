/**
 * `SubscriberEmail`: a subscriber's address. Whether an address is valid is
 * decided entirely by `validator::validate_email`, whose grammar is not part
 * of this model: every operation takes that decision procedure as the
 * parameter `validate`, so each property below holds for any validator.
 */
module SubscriberEmails {
  import opened Wrappers
  import ParseErrors

  /** The syntactic email check the parser delegates to. */
  type EmailValidator = string -> bool

  /** What the error message appends to the rejected input. */
  const InvalidEmailReason := " is not a valid email"

  /**
   * The wrapped address. The Rust type keeps its tuple field private and
   * `Parse` is the only constructor, so every value in use satisfies
   * `Valid(validate)`; `AsRef` is the address exactly as given.
   */
  datatype SubscriberEmail = SubscriberEmail(address: string) {
    predicate Valid(validate: EmailValidator) {
      validate(address)
    }

    function AsRef(): string {
      address
    }
  }

  /**
   * `SubscriberEmail::parse`: accepts exactly what the validator accepts and
   * keeps it unchanged; otherwise the error names the input.
   */
  function Parse(email: string, validate: EmailValidator): (r: Result<SubscriberEmail, string>)
    ensures r.Ok? <==> validate(email)
    ensures r.Ok? ==> r.value.Valid(validate) && r.value.AsRef() == email
    ensures r.Err? ==> ParseErrors.OffendingInput(r.error, InvalidEmailReason) == Some(email)
  {
    if validate(email) then
      Ok(SubscriberEmail(email))
    else
      ParseErrors.OffendingInputRoundTrip(email, InvalidEmailReason);
      Err(ParseErrors.Rejection(email, InvalidEmailReason))
  }

  /** Parsing the text of a valid value gives that value back. */
  lemma ParseAsRefRoundTrip(e: SubscriberEmail, validate: EmailValidator)
    requires e.Valid(validate)
    ensures Parse(e.AsRef(), validate) == Ok(e)
  {
  }

  /**
   * Any input the validator accepts, such as a generated safe address,
   * parses; nothing else is checked on top of the validator.
   */
  lemma AcceptsWhatValidatorAccepts(email: string, validate: EmailValidator)
    requires validate(email)
    ensures Parse(email, validate) == Ok(SubscriberEmail(email))
  {
  }

  /** The outcome depends on the validator's verdict on this one input only. */
  lemma OnlyTheVerdictMatters(email: string, v1: EmailValidator, v2: EmailValidator)
    requires v1(email) == v2(email)
    ensures Parse(email, v1) == Parse(email, v2)
  {
  }

  /** Two inputs that parse to the same value are the same input. */
  lemma ParseInjective(a: string, b: string, validate: EmailValidator)
    requires Parse(a, validate).Ok? && Parse(b, validate).Ok?
    requires Parse(a, validate) == Parse(b, validate)
    ensures a == b
  {
  }
}
