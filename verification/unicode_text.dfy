/**
 * Strings as the value objects see them: a sequence of extended grapheme
 * clusters (section 3 of Unicode Standard Annex #29), plus whitespace
 * trimming as done by Rust's `str::trim`. Segmentation itself is not
 * computed here: a string is given together with its clusters.
 */
module UnicodeText {

  /** One extended grapheme cluster: a non-empty run of characters. */
  type Cluster = s: seq<char> | |s| > 0 witness ['a']

  /** A string as its clusters, in order. */
  type Text = seq<Cluster>

  /** The characters of a segmented string: its clusters joined end to end. */
  function Chars(t: Text): (s: string)
    ensures |s| >= |t|
    ensures s == [] <==> t == []
  {
    if t == [] then [] else t[0] + Chars(t[1..])
  }

  /** Joining respects concatenation of cluster sequences. */
  lemma {:induction false} CharsAppend(a: Text, b: Text)
    ensures Chars(a + b) == Chars(a) + Chars(b)
  {
    if a == [] {
      assert a + b == b;
    } else {
      assert (a + b)[1..] == a[1..] + b;
      CharsAppend(a[1..], b);
    }
  }

  /** A character occurs in the string exactly when it occurs in one of its clusters. */
  lemma {:induction false} CharsMembership(t: Text, c: char)
    ensures c in Chars(t) <==> exists i :: 0 <= i < |t| && c in t[i]
  {
    if t != [] {
      CharsMembership(t[1..], c);
      assert forall i :: 1 <= i < |t| ==> t[i] == t[1..][i - 1];
      if c in Chars(t[1..]) {
        var i :| 0 <= i < |t[1..]| && c in t[1..][i];
        assert c in t[i + 1];
      }
    }
  }

  /** `n` clusters, each equal to `c`. */
  function Repeat(c: Cluster, n: nat): (t: Text)
    ensures |t| == n
    ensures forall i :: 0 <= i < n ==> t[i] == c
  {
    seq(n, _ => c)
  }

  /**
   * Rust's `char::is_whitespace`, the characters `str::trim` removes: the
   * Unicode White_Space property.
   */
  predicate IsWhitespace(c: char) {
    var n := c as int;
    || (0x09 <= n <= 0x0D) || n == 0x20 || n == 0x85 || n == 0xA0 || n == 0x1680
    || (0x2000 <= n <= 0x200A) || n == 0x2028 || n == 0x2029 || n == 0x202F
    || n == 0x205F || n == 0x3000
  }

  /** Every character of `s` is whitespace (true of the empty string). */
  predicate IsBlank(s: string) {
    forall i :: 0 <= i < |s| ==> IsWhitespace(s[i])
  }

  /** `str::trim_start`: drops the leading whitespace. */
  function TrimStart(s: string): (r: string)
    ensures |r| <= |s| && r == s[|s| - |r|..]
    ensures IsBlank(s[..|s| - |r|])
    ensures r == [] || !IsWhitespace(r[0])
  {
    if s != [] && IsWhitespace(s[0]) then TrimStart(s[1..]) else s
  }

  /** `str::trim_end`: drops the trailing whitespace. */
  function TrimEnd(s: string): (r: string)
    ensures |r| <= |s| && r == s[..|r|]
    ensures IsBlank(s[|r|..])
    ensures r == [] || !IsWhitespace(r[|r| - 1])
  {
    if s != [] && IsWhitespace(s[|s| - 1]) then TrimEnd(s[..|s| - 1]) else s
  }

  /**
   * `str::trim`: what is left of `s` after removing whitespace from both
   * ends; it neither starts nor ends with whitespace.
   */
  function Trim(s: string): (r: string)
    ensures |r| <= |s|
    ensures r == [] || (!IsWhitespace(r[0]) && !IsWhitespace(r[|r| - 1]))
  {
    TrimEnd(TrimStart(s))
  }

  /** The trim is a contiguous piece of `s`, starting where `TrimStart` starts. */
  lemma TrimIsInfix(s: string)
    ensures |s| - |TrimStart(s)| + |Trim(s)| <= |s|
    ensures Trim(s) == s[|s| - |TrimStart(s)|..|s| - |TrimStart(s)| + |Trim(s)|]
  {
    var t := TrimStart(s);
    var r := TrimEnd(t);
    var i := |s| - |t|;
    assert t == s[i..];
    assert r == t[..|r|];
  }

  /** Everything the trim cuts off, on either side, is whitespace. */
  lemma TrimCutsOnlyWhitespace(s: string)
    ensures IsBlank(s[..|s| - |TrimStart(s)|])
    ensures IsBlank(s[|s| - |TrimStart(s)| + |Trim(s)|..])
  {
    var t := TrimStart(s);
    var r := TrimEnd(t);
    var i := |s| - |t|;
    assert t == s[i..];
    assert s[i + |r|..] == t[|r|..];
  }

  /** Trimming leaves nothing exactly when the string is all whitespace. */
  lemma TrimEmptyIffBlank(s: string)
    ensures Trim(s) == [] <==> IsBlank(s)
  {
    var t := TrimStart(s);
    var i := |s| - |t|;
    if IsBlank(s) {
      assert IsBlank(t) by {
        forall k | 0 <= k < |t|
          ensures IsWhitespace(t[k])
        {
          assert t[k] == s[i + k];
        }
      }
    }
    if Trim(s) == [] {
      assert IsBlank(t);
      assert t == [];
      forall k | 0 <= k < |s|
        ensures IsWhitespace(s[k])
      {
        assert s[k] == s[..i][k];
      }
    }
  }

  /** Trimming a trimmed string changes nothing. */
  lemma TrimIdempotent(s: string)
    ensures Trim(Trim(s)) == Trim(s)
  {
    var r := Trim(s);
    assert TrimStart(r) == r;
    assert TrimEnd(r) == r;
  }

  /** Whitespace in front of a string makes no difference to its trim. */
  lemma TrimIgnoresLeadingWhitespace(c: char, s: string)
    requires IsWhitespace(c)
    ensures Trim([c] + s) == Trim(s)
  {
    assert ([c] + s)[1..] == s;
  }
}
