# Subscriber value objects of zero2prod, in Dafny

This project models the two validated value objects of the newsletter
service's domain layer: `SubscriberName` and `SubscriberEmail`. Each one is a
newtype around a `String` with a private field, and its only constructor is
`parse`. So every value of the type satisfies the check `parse` made. The
model states those checks exactly and proves what callers may rely on.

- `wrappers.dfy`: `Result` and `Option`, the Rust return types.
- `unicode_text.dfy`: strings as sequences of extended grapheme clusters
  (section 3 of Unicode Standard Annex #29). It also defines `str::trim`,
  built from `TrimStart` and `TrimEnd` over the Unicode White_Space property.
- `parse_errors.dfy`: the error text `format!("{} <reason>", input)` and how
  the offending input is read back out of it.
- `subscriber_name.dfy`: `SubscriberName`, its `parse`, the three rejection
  flags, and the boundary cases the unit tests pin.
- `subscriber_email.dfy`: `SubscriberEmail` and its `parse`. The email
  validator is a parameter.

How the model represents things:

- A name is given as its grapheme clusters (`Text`, a sequence of non-empty
  `seq<char>`). The string is their concatenation `Chars`. The grapheme count
  is the number of clusters.
- `IsWhitespace` is spelled out as the White_Space property, which is what
  `char::is_whitespace` and `str::trim` use. The general lemmas do not depend
  on which characters are in that table. `WhitespaceOnlyRejected`,
  `RepeatedDiaeresisBoundary`, `PlainNameValid`, `PlainNamesAccepted` and
  `ExampleNameAccepted` do: they rely on ' ' being whitespace and on ASCII
  letters and 'ë' not being whitespace.
- `validator::validate_email` becomes the parameter `validate: string -> bool`
  of every email operation. The email properties therefore hold for any
  validator.
- A value's validity is the predicate `Valid`. Two facts stand in for the
  private field: `Parse` returns only `Valid` values, and every `Valid` value
  is what `Parse` returns for its own text (`ParseAsRefRoundTrip`).

Notes on the code:

- The 256-grapheme limit counts the untrimmed input, not the trimmed one
  (`UntrimmedLengthCounts`).
- Both parsers return a plain `String` message. The message is the input
  followed by the reason text.
- The subscription handler in `src/routes/subscriptions.rs` never calls either
  `parse`. It stores the raw form fields.

## Model

| member | source | states |
|---|---|---|
| UnicodeText.Chars | src/domain/subscriber_name.rs:10 | the joined string has at least as many characters as there are clusters, and it is empty exactly when there are no clusters |
| UnicodeText.TrimStart | src/domain/subscriber_name.rs:8 | the result is a suffix of the input; everything dropped is whitespace; the result is empty or starts with a non-whitespace character |
| UnicodeText.TrimEnd | src/domain/subscriber_name.rs:8 | the result is a prefix of the input; everything dropped is whitespace; the result is empty or ends with a non-whitespace character |
| UnicodeText.Trim | src/domain/subscriber_name.rs:8 | the trimmed string is no longer than the input, and it neither starts nor ends with whitespace |
| UnicodeText.TrimIsInfix | src/domain/subscriber_name.rs:8 | the trim is one contiguous piece of the input |
| UnicodeText.TrimCutsOnlyWhitespace | src/domain/subscriber_name.rs:8 | what the trim removes on either side is all whitespace |
| UnicodeText.TrimEmptyIffBlank | src/domain/subscriber_name.rs:8 | `trim().is_empty()` holds exactly when every character is whitespace, the empty string included |
| UnicodeText.TrimIdempotent | src/domain/subscriber_name.rs:8 | trimming twice gives the same result as trimming once |
| UnicodeText.TrimIgnoresLeadingWhitespace | src/domain/subscriber_name.rs:8 | a whitespace character in front does not change the trim |
| UnicodeText.CharsMembership | src/domain/subscriber_name.rs:10-12 | a character occurs in the string exactly when it occurs in one of its clusters, so per-character and per-cluster views agree |
| SubscriberNames.AnyForbidden | src/domain/subscriber_name.rs:11-12 | the left-to-right `any` scan is true exactly when some character is in the forbidden list |
| SubscriberNames.FlagsDecideValidity | src/domain/subscriber_name.rs:8-14 | the three flags computed as `SubscriberName::parse` computes them (trim empty, more than 256 clusters, any forbidden character) reject exactly the names that are not valid: blank, too long, or holding a forbidden character |
| SubscriberNames.Parse | src/domain/subscriber_name.rs:7-19 | parse succeeds exactly for valid names; on success the value is valid and its text is the input unchanged; on failure the input can be read back out of the message, which ends with " is not a valid subscriber name" |
| SubscriberNames.RejectsBlank | src/domain/subscriber_name.rs:8-15 | an empty or all-whitespace input is rejected with the input-naming message |
| SubscriberNames.RejectsTooLong | src/domain/subscriber_name.rs:10-15 | more than 256 clusters is rejected, whatever they are |
| SubscriberNames.RejectsForbiddenCharacter | src/domain/subscriber_name.rs:11-15 | one forbidden character anywhere is rejected, whatever the length |
| SubscriberNames.ParseInOrder | src/domain/subscriber_name.rs:8-18 | running the three checks in any order with an early return gives the same result as parse, so the order of the checks does not matter |
| SubscriberNames.UntrimmedLengthCounts | src/domain/subscriber_name.rs:8-10 | adding a leading whitespace cluster to a valid 256-cluster name leaves its trim unchanged, yet the result is rejected, because the count is taken before trimming |
| SubscriberNames.KeepsLeadingWhitespace | src/domain/subscriber_name.rs:14-17 | a valid name with leading whitespace is accepted, and the whitespace stays in the stored value (no trimming) |
| SubscriberNames.ParseAsRefRoundTrip | src/domain/subscriber_name.rs:17-25 | parsing the text of any valid value returns that same value |
| SubscriberNames.ValueInvariant | src/domain/subscriber_name.rs:4-19 | every valid value has a non-empty trim, at most 256 clusters, and no forbidden character, each stated with the checks `SubscriberName::parse` makes |
| SubscriberNames.RepeatBoundary | src/domain/subscriber_name.rs:10-17 | a text of n clusters, each equal to one cluster that is not all whitespace and has no forbidden character, is accepted exactly when 1 <= n <= 256 |
| SubscriberNames.RepeatedDiaeresisBoundary | src/domain/subscriber_name.rs:34-43 | "ë" repeated 256 times is accepted, and 257 times is rejected |
| SubscriberNames.WhitespaceOnlyRejected | src/domain/subscriber_name.rs:46-49 | two spaces are rejected |
| SubscriberNames.ForbiddenOnlyRejected | src/domain/subscriber_name.rs:52-55 | a string of only forbidden characters is rejected |
| SubscriberNames.PlainNamesAccepted | src/domain/subscriber_name.rs:14-17 | any name of ASCII letters and spaces that starts with a letter and has 1 to 256 characters is accepted and kept as given |
| SubscriberNames.ExampleNameAccepted | src/domain/subscriber_name.rs:58-61 | "Ursula Le Guin" is accepted |
| ParseErrors.OffendingInput | src/domain/subscriber_name.rs:15 | reading back succeeds exactly when the message has the input-plus-reason shape, and what it reads back rebuilds the message |
| ParseErrors.OffendingInputRoundTrip | src/domain/subscriber_email.rs:11 | the message built for any input gives back exactly that input |
| ParseErrors.RejectionInjective | src/domain/subscriber_name.rs:15 | different inputs give different error messages |
| SubscriberEmails.Parse | src/domain/subscriber_email.rs:7-13 | parse succeeds exactly when the validator accepts the input; on success the value is valid and its text is the input unchanged; on failure the input can be read back out of the message, which ends with " is not a valid email" |
| SubscriberEmails.ParseAsRefRoundTrip | src/domain/subscriber_email.rs:7-19 | parsing the text of any valid value returns that same value |
| SubscriberEmails.AcceptsWhatValidatorAccepts | src/domain/subscriber_email.rs:41-44 | every input the validator accepts parses to `Ok`, including any generated safe address |
| SubscriberEmails.OnlyTheVerdictMatters | src/domain/subscriber_email.rs:8-12 | two validators that agree on an input give the same parse result for it, so nothing besides the validator is checked |
| SubscriberEmails.ParseInjective | src/domain/subscriber_email.rs:9 | two inputs that parse to the same value are the same input |

## Left out

- Grapheme segmentation (Unicode Standard Annex #29) is not computed. `Parse` takes the input already split into clusters. `AsciiClusters` splits ASCII text without a CR LF pair one character per cluster; the fixed examples and the all-inputs lemma `PlainNamesAccepted` use it.
- SubscriberNames.UntrimmedLengthCounts: assumes the seam between the added whitespace and the name is a cluster boundary. Under UAX #29 a space followed by a combining mark (rule GB9), or CR followed by LF (rule GB3), forms one cluster, and then the string with the added whitespace has no more clusters than the name.
- SubscriberNames.RepeatBoundary: assumes every seam between the copies is a cluster boundary. For `c.repeat(n)` that fails when UAX #29 joins the copies, as with Hangul leading jamo (rule GB6) or regional indicators (rules GB12 and GB13), so the lemma speaks about n clusters rather than about the repeated string.
- The grammar of `validator::validate_email` is not modelled, because that library code is outside this model. As a result, no particular string can be shown to be rejected by `SubscriberEmails.Parse`; every email property holds for any validator.
- `src/email_client.rs` is not modelled. It is an asynchronous HTTP client: the transport enforces the timeout, the url crate resolves the path, and a serde derive produces the JSON body. Its only pure step copies five fields into a request struct.
- `src/routes/subscriptions.rs` is not modelled. It is a database insert with a random UUID and the wall clock, and it does not call either `parse`.
- `src/startup.rs`, `src/main.rs` and `src/routes/health_check.rs` are not modelled. They contain server bootstrap, listener and pool setup, and a constant response.
- The test helpers in `tests/` are not modelled. They create databases, run migrations and set up tracing.
- The `Debug` derives are not modelled. They produce formatting only.
