/**
 * The few Python string operations the knowledge-base endpoints rely on:
 * `str.strip()` with no argument, the truthiness test `text and text.strip()`,
 * `str.lower()` (ASCII part only) and `str.endswith`.
 *
 * Dafny 4 characters are Unicode scalar values, so `|s|` agrees with Python's
 * `len(s)` on code points.
 */
module PyText {

  /** The code points for which Python's `str.isspace()` holds; these are what
      `str.strip()` without an argument removes from both ends. */
  predicate IsWhitespace(c: char) {
    || c == ' '
    || ('\t' <= c <= '\r')             // \t \n \v \f \r
    || ('\U{1C}' <= c <= '\U{1F}')     // file, group, record and unit separators
    || c == '\U{85}' || c == '\U{A0}'
    || c == '\U{1680}'
    || ('\U{2000}' <= c <= '\U{200A}')
    || c == '\U{2028}' || c == '\U{2029}'
    || c == '\U{202F}' || c == '\U{205F}' || c == '\U{3000}'
  }

  predicate AllWhitespace(s: string) {
    forall k :: 0 <= k < |s| ==> IsWhitespace(s[k])
  }

  /** `s.lstrip()`: drops the leading whitespace. */
  function TrimLeft(s: string): (r: string)
    ensures |r| <= |s|
    decreases |s|
  {
    if s == [] || !IsWhitespace(s[0]) then s else TrimLeft(s[1..])
  }

  /** `s.rstrip()`: drops the trailing whitespace. */
  function TrimRight(s: string): (r: string)
    ensures |r| <= |s|
    decreases |s|
  {
    if s == [] || !IsWhitespace(s[|s| - 1]) then s else TrimRight(s[..|s| - 1])
  }

  /** `lstrip` keeps a suffix, removes only whitespace, and stops at the
      first character that is not whitespace. */
  lemma {:induction false} TrimLeftSpec(s: string)
    ensures var r := TrimLeft(s);
      && |r| <= |s| && r == s[|s| - |r|..]
      && AllWhitespace(s[..|s| - |r|])
      && (r != [] ==> !IsWhitespace(r[0]))
    decreases |s|
  {
    if s == [] || !IsWhitespace(s[0]) {
      assert s[..0] == [];
    } else {
      var t := s[1..];
      TrimLeftSpec(t);
      var r := TrimLeft(t);
      assert TrimLeft(s) == r;
      var n := |s| - |r|;
      assert s[n..] == t[n - 1..];
      var dropped := t[..n - 1];
      assert AllWhitespace(dropped);
      forall k | 0 <= k < n
        ensures IsWhitespace(s[..n][k])
      {
        if k == 0 {
          assert s[..n][k] == s[0];
        } else {
          assert s[..n][k] == dropped[k - 1];
          assert IsWhitespace(dropped[k - 1]);
        }
      }
    }
  }

  /** `rstrip` keeps a prefix, removes only whitespace, and stops at the
      last character that is not whitespace. */
  lemma {:induction false} TrimRightSpec(s: string)
    ensures var r := TrimRight(s);
      && |r| <= |s| && r == s[..|r|]
      && AllWhitespace(s[|r|..])
      && (r != [] ==> !IsWhitespace(r[|r| - 1]))
    decreases |s|
  {
    if s == [] || !IsWhitespace(s[|s| - 1]) {
      assert s[|s|..] == [];
    } else {
      var t := s[..|s| - 1];
      TrimRightSpec(t);
      var r := TrimRight(t);
      assert TrimRight(s) == r;
      assert s[..|r|] == t[..|r|];
      forall j | 0 <= j < |s| - |r|
        ensures IsWhitespace(s[|r|..][j])
      {
        if j < |t| - |r| {
          assert s[|r|..][j] == t[|r|..][j];
        } else {
          assert s[|r|..][j] == s[|s| - 1];
        }
      }
    }
  }

  /** `s.strip()`: `s` with the whitespace at both ends removed. */
  function Strip(s: string): (r: string)
    ensures |r| <= |s|
  {
    TrimRight(TrimLeft(s))
  }

  lemma AllWhitespaceAppend(a: string, b: string)
    requires AllWhitespace(a) && AllWhitespace(b)
    ensures AllWhitespace(a + b)
  {
    forall k | 0 <= k < |a + b| ensures IsWhitespace((a + b)[k]) {
      if k < |a| { assert (a + b)[k] == a[k]; } else { assert (a + b)[k] == b[k - |a|]; }
    }
  }

  /** What `s.strip()` keeps: the infix of `s` between its leading and its
      trailing whitespace. It is empty exactly when `s` holds only whitespace,
      and otherwise starts and ends with a character that is not whitespace. */
  lemma StripSpec(s: string)
    ensures var r := Strip(s); var lead := |s| - |TrimLeft(s)|;
      && lead + |r| <= |s|
      && r == s[lead..lead + |r|]
      && AllWhitespace(s[..lead])
      && AllWhitespace(s[lead + |r|..])
    ensures Strip(s) == [] <==> AllWhitespace(s)
    ensures Strip(s) != [] ==> !IsWhitespace(Strip(s)[0]) && !IsWhitespace(Strip(s)[|Strip(s)| - 1])
  {
    StripInfix(s);
    StripEmpty(s);
    TrimLeftSpec(s);
    TrimRightSpec(TrimLeft(s));
    if Strip(s) != [] {
      assert Strip(s)[0] == TrimLeft(s)[0];
    }
  }

  lemma StripInfix(s: string)
    ensures var r := Strip(s); var lead := |s| - |TrimLeft(s)|;
      && lead + |r| <= |s|
      && r == s[lead..lead + |r|]
      && AllWhitespace(s[..lead])
      && AllWhitespace(s[lead + |r|..])
  {
    var t := TrimLeft(s);
    var r := TrimRight(t);
    var lead := |s| - |t|;
    TrimLeftSpec(s);
    assert t == s[lead..];
    TrimRightSpec(t);
    assert r == t[..|r|];
    assert s[lead..lead + |r|] == t[..|r|];
    assert AllWhitespace(t[|r|..]);
    assert s[lead + |r|..] == t[|r|..];
  }

  lemma StripEmpty(s: string)
    ensures Strip(s) == [] <==> AllWhitespace(s)
  {
    TrimLeftSpec(s);
    TrimRightSpec(TrimLeft(s));
    var t := TrimLeft(s);
    var r := TrimRight(t);
    var lead := |s| - |t|;
    if r == [] {
      assert s == s[..lead] + t;
      AllWhitespaceAppend(s[..lead], t);
    } else {
      assert r[0] == s[lead];
    }
  }

  /** Python's truthiness test `text and text.strip()`: some character of
      the text is not whitespace (see `HasContentIsStripTest`). */
  predicate HasContent(text: string) {
    !AllWhitespace(text)
  }

  /** Stripping twice is the same as stripping once. */
  lemma StripIdempotent(s: string)
    ensures Strip(Strip(s)) == Strip(s)
  {
    var t := Strip(s);
    StripSpec(s);
    if t != [] {
      assert TrimLeft(t) == t;
      assert TrimRight(t) == t;
    }
  }

  /** `HasContent` is exactly the source's test: the text is non-empty and
      stripping it leaves something. */
  lemma HasContentIsStripTest(text: string)
    ensures HasContent(text) <==> text != [] && Strip(text) != []
  {
    StripSpec(text);
  }

  function LowerChar(c: char): char {
    if 'A' <= c <= 'Z' then (c as int - 'A' as int + 'a' as int) as char else c
  }

  /** `s.lower()` restricted to ASCII letters. */
  function AsciiLower(s: string): (r: string)
    ensures |r| == |s|
    ensures forall k :: 0 <= k < |s| ==> r[k] == LowerChar(s[k])
  {
    seq(|s|, k requires 0 <= k < |s| => LowerChar(s[k]))
  }

  /** Lower-casing twice is lower-casing once. */
  lemma AsciiLowerIdempotent(s: string)
    ensures AsciiLower(AsciiLower(s)) == AsciiLower(s)
  {
  }

  /** `s.endswith(suffix)`. */
  predicate EndsWith(s: string, suffix: string) {
    |suffix| <= |s| && s[|s| - |suffix|..] == suffix
  }
}
