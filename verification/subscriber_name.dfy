/**
 * `SubscriberName`: a subscriber's display name. A value exists only when
 * its text passed `Parse`, so every value carries the three guarantees Parse
 * checks: it is not blank, it has at most 256 grapheme clusters, and it has
 * none of the characters `/ ( ) " < > \ { }`.
 */
module SubscriberNames {
  import opened Wrappers
  import opened UnicodeText
  import ParseErrors

  /** The most grapheme clusters a name may have. */
  const MaxGraphemes := 256

  /** Characters a name may not contain, in the order `SubscriberName::parse` lists them. */
  const ForbiddenCharacters: seq<char> := ['/', '(', ')', '"', '<', '>', '\\', '{', '}']

  /** What the error message appends to the rejected input. */
  const InvalidNameReason := " is not a valid subscriber name"

  /**
   * A valid name, stated directly: some character is not whitespace, there
   * are at most 256 clusters (counted before any trimming), and no character
   * is forbidden.
   */
  predicate IsValidName(name: Text) {
    var s := Chars(name);
    && !IsBlank(s)
    && |name| <= MaxGraphemes
    && HasNoForbiddenCharacter(s)
  }

  /** No character of `s` is one of the forbidden ones. */
  predicate HasNoForbiddenCharacter(s: string) {
    forall i :: 0 <= i < |s| ==> s[i] !in ForbiddenCharacters
  }

  /**
   * The wrapped text. The Rust type keeps its tuple field private and `Parse`
   * is the only constructor, so every value in use satisfies `Valid`;
   * `AsRef` is the string itself, untrimmed.
   */
  datatype SubscriberName = SubscriberName(graphemes: Text) {
    predicate Valid() {
      IsValidName(graphemes)
    }

    function AsRef(): string {
      Chars(graphemes)
    }
  }

  /** `chars().any(|g| forbidden_characters.contains(&g))`: a left-to-right scan. */
  function AnyForbidden(s: string): (b: bool)
    ensures b <==> exists i :: 0 <= i < |s| && s[i] in ForbiddenCharacters
  {
    if s == [] then false
    else if s[0] in ForbiddenCharacters then
      true
    else
      var b := AnyForbidden(s[1..]);
      assert forall i :: 1 <= i < |s| ==> s[i] == s[1..][i - 1];
      b
  }

  /** The first flag: `name.trim().is_empty()`. */
  predicate IsEmptyOrWhitespace(name: Text) {
    Trim(Chars(name)) == []
  }

  /** The second flag: `name.graphemes(true).count() > 256`, on the untrimmed input. */
  predicate IsTooLong(name: Text) {
    |name| > MaxGraphemes
  }

  /** The third flag. */
  predicate ContainsForbiddenCharacters(name: Text) {
    AnyForbidden(Chars(name))
  }

  /** The three flags, as `SubscriberName::parse` computes them, reject exactly the invalid names. */
  lemma FlagsDecideValidity(name: Text)
    ensures IsValidName(name)
        <==> !(IsEmptyOrWhitespace(name) || IsTooLong(name) || ContainsForbiddenCharacters(name))
  {
    TrimEmptyIffBlank(Chars(name));
  }

  /**
   * `SubscriberName::parse`. `name` is the input as its extended grapheme
   * clusters; `Chars(name)` is the input string. All three flags are
   * computed first; the input is accepted when none is raised, and then kept
   * as given, without trimming.
   */
  function Parse(name: Text): (r: Result<SubscriberName, string>)
    ensures r.Ok? <==> IsValidName(name)
    ensures r.Ok? ==> r.value.Valid() && r.value.AsRef() == Chars(name)
    ensures r.Err? ==> ParseErrors.OffendingInput(r.error, InvalidNameReason) == Some(Chars(name))
  {
    var isEmptyOrWhitespace := IsEmptyOrWhitespace(name);
    var isTooLong := IsTooLong(name);
    var containsForbiddenCharacters := ContainsForbiddenCharacters(name);
    FlagsDecideValidity(name);
    if isEmptyOrWhitespace || isTooLong || containsForbiddenCharacters then
      ParseErrors.OffendingInputRoundTrip(Chars(name), InvalidNameReason);
      Err(ParseErrors.Rejection(Chars(name), InvalidNameReason))
    else
      Ok(SubscriberName(name))
  }

  /** A blank input, the empty string included, is rejected. */
  lemma RejectsBlank(name: Text)
    requires IsBlank(Chars(name))
    ensures Parse(name) == Err(ParseErrors.Rejection(Chars(name), InvalidNameReason))
  {
  }

  /** More than 256 clusters is rejected, whatever the clusters are. */
  lemma RejectsTooLong(name: Text)
    requires |name| > MaxGraphemes
    ensures Parse(name) == Err(ParseErrors.Rejection(Chars(name), InvalidNameReason))
  {
  }

  /** One forbidden character anywhere is enough to reject, whatever the length. */
  lemma RejectsForbiddenCharacter(name: Text, i: nat)
    requires i < |Chars(name)| && Chars(name)[i] in ForbiddenCharacters
    ensures Parse(name) == Err(ParseErrors.Rejection(Chars(name), InvalidNameReason))
  {
  }

  /** Parsing the text of a valid value gives that value back. */
  lemma ParseAsRefRoundTrip(n: SubscriberName)
    requires n.Valid()
    ensures Parse(n.graphemes) == Ok(n)
  {
  }

  /** What every value guarantees, stated with the checks `SubscriberName::parse` makes. */
  lemma ValueInvariant(n: SubscriberName)
    requires n.Valid()
    ensures Trim(n.AsRef()) != []
    ensures |n.graphemes| <= MaxGraphemes
    ensures !AnyForbidden(n.AsRef())
  {
    TrimEmptyIffBlank(n.AsRef());
  }

  /**
   * A check that evaluates one rejection condition. `SubscriberName::parse` raises all
   * three flags before deciding; `ParseInOrder` is the early-return
   * alternative, used to show that the order does not matter.
   */
  datatype Check = EmptyOrWhitespace | TooLong | ForbiddenCharacter

  predicate Fails(c: Check, name: Text) {
    match c
    case EmptyOrWhitespace => IsEmptyOrWhitespace(name)
    case TooLong => IsTooLong(name)
    case ForbiddenCharacter => ContainsForbiddenCharacters(name)
  }

  /** The first check of `order` that fails, if any. */
  function FirstFailure(name: Text, order: seq<Check>): (f: Option<Check>)
    ensures f.None? <==> forall c :: c in order ==> !Fails(c, name)
    ensures f.Some? ==> f.value in order && Fails(f.value, name)
  {
    if order == [] then None
    else if Fails(order[0], name) then Some(order[0])
    else
      var f := FirstFailure(name, order[1..]);
      assert forall c :: c in order ==> c == order[0] || c in order[1..];
      f
  }

  /** Runs the checks one by one in `order`, stopping at the first that fails. */
  function ParseInOrder(name: Text, order: seq<Check>): (r: Result<SubscriberName, string>)
    requires forall c: Check :: c in order
    ensures r == Parse(name)
  {
    FlagsDecideValidity(name);
    match FirstFailure(name, order)
    case Some(_) =>
      Err(ParseErrors.Rejection(Chars(name), InvalidNameReason))
    case None =>
      assert EmptyOrWhitespace in order && TooLong in order && ForbiddenCharacter in order;
      Ok(SubscriberName(name))
  }

  /**
   * The length bound counts the untrimmed input: a 256-cluster valid name
   * with one more leading whitespace cluster is rejected although its trim
   * is the same.
   */
  lemma UntrimmedLengthCounts(name: Text, space: char)
    requires IsValidName(name) && |name| == MaxGraphemes && IsWhitespace(space)
    ensures Trim(Chars([[space]] + name)) == Trim(Chars(name))
    ensures Parse([[space]] + name).Err?
  {
    CharsAppend([[space]], name);
    TrimIgnoresLeadingWhitespace(space, Chars(name));
  }

  /** Leading whitespace is accepted and kept: the value is not trimmed. */
  lemma KeepsLeadingWhitespace(name: Text, space: char)
    requires IsValidName(name) && |name| < MaxGraphemes && IsWhitespace(space)
    ensures Parse([[space]] + name).Ok?
    ensures Parse([[space]] + name).value.AsRef() == [space] + Chars(name)
  {
    CharsAppend([[space]], name);
    assert Chars([[space]]) == [space];
    PaddingKeepsCharactersValid(Chars(name), space);
  }

  /** A whitespace character in front keeps a string non-blank and free of forbidden characters. */
  lemma PaddingKeepsCharactersValid(s: string, space: char)
    requires !IsBlank(s) && HasNoForbiddenCharacter(s) && IsWhitespace(space)
    ensures !IsBlank([space] + s) && HasNoForbiddenCharacter([space] + s)
  {
    var i :| 0 <= i < |s| && !IsWhitespace(s[i]);
    assert ([space] + s)[i + 1] == s[i];
  }

  /**
   * `n` clusters, each equal to one cluster that has a non-whitespace
   * character and no forbidden one: accepted exactly when 1 <= n <= 256.
   */
  lemma RepeatBoundary(c: Cluster, n: nat)
    requires exists k :: 0 <= k < |c| && !IsWhitespace(c[k])
    requires forall k :: 0 <= k < |c| ==> c[k] !in ForbiddenCharacters
    ensures Parse(Repeat(c, n)).Ok? <==> 1 <= n <= MaxGraphemes
  {
    var t := Repeat(c, n);
    var s := Chars(t);
    if n >= 1 {
      var k :| 0 <= k < |c| && !IsWhitespace(c[k]);
      assert s == c + Chars(t[1..]);
      assert s[k] == c[k];
    }
    forall i | 0 <= i < |s|
      ensures s[i] !in ForbiddenCharacters
    {
      CharsMembership(t, s[i]);
      var j :| 0 <= j < |t| && s[i] in t[j];
    }
  }

  /** A 256-cluster name of "ë" is accepted; 257 is rejected. */
  lemma RepeatedDiaeresisBoundary()
    ensures Parse(Repeat(['ë'], 256)).Ok?
    ensures Parse(Repeat(['ë'], 257)).Err?
  {
    assert !IsWhitespace(['ë'][0]);
    RepeatBoundary(['ë'], 256);
    RepeatBoundary(['ë'], 257);
  }

  /** ASCII text with no CR LF pair: by UAX #29 every character is then its own cluster. */
  predicate IsAsciiWithoutCrLf(s: string) {
    && (forall k :: 0 <= k < |s| ==> s[k] as int < 128)
    && (forall k :: 0 <= k < |s| - 1 ==> !(s[k] == '\r' && s[k + 1] == '\n'))
  }

  /** The segmentation of such text: one cluster per character. */
  function AsciiClusters(s: string): (t: Text)
    requires IsAsciiWithoutCrLf(s)
    ensures |t| == |s|
    ensures Chars(t) == s
  {
    if s == [] then []
    else
      assert IsAsciiWithoutCrLf(s[1..]) by {
        assert forall k :: 0 <= k < |s[1..]| ==> s[1..][k] == s[k + 1];
      }
      [[s[0]]] + AsciiClusters(s[1..])
  }

  /** Whitespace only is rejected. */
  lemma WhitespaceOnlyRejected()
    ensures Parse(AsciiClusters("  ")).Err?
  {
    var t := AsciiClusters("  ");
    assert IsBlank(Chars(t));
  }

  /** Nothing but forbidden characters is rejected. */
  lemma ForbiddenOnlyRejected()
    ensures Parse(AsciiClusters("/()\"<>\\/{}")).Err?
  {
    var t := AsciiClusters("/()\"<>\\/{}");
    RejectsForbiddenCharacter(t, 0);
  }

  /** ASCII letters and spaces, starting with a letter, at most 256 of them. */
  predicate IsPlainName(s: string) {
    && 1 <= |s| <= MaxGraphemes
    && s[0] != ' '
    && forall k :: 0 <= k < |s| ==> ('a' <= s[k] <= 'z') || ('A' <= s[k] <= 'Z') || s[k] == ' '
  }

  /** A plain name, each character its own cluster, is valid. */
  lemma PlainNameValid(s: string)
    requires IsPlainName(s)
    ensures IsValidName(AsciiClusters(s))
  {
    assert !IsWhitespace(s[0]);
  }

  /** A plain name is accepted and kept as given. */
  lemma PlainNamesAccepted(s: string)
    requires IsPlainName(s)
    ensures Parse(AsciiClusters(s)).Ok?
    ensures Parse(AsciiClusters(s)).value.AsRef() == s
  {
    PlainNameValid(s);
    ParseAsRefRoundTrip(SubscriberName(AsciiClusters(s)));
  }

  /** An ordinary name is accepted. */
  lemma ExampleNameAccepted()
    ensures Parse(AsciiClusters("Ursula Le Guin")).Ok?
  {
    PlainNamesAccepted("Ursula Le Guin");
  }
}
