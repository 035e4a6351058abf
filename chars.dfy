/** Character classes and string predicates that the extractor borrows from
    the Java platform: Character.isWhitespace, String.trim, the ASCII-only
    case folding of case-insensitive regular expressions, and
    String.equalsIgnoreCase against lower-case ASCII literals. */
module Chars {

  const NBSP: char := '\U{A0}'

  /** Character.isWhitespace: the Unicode space, line and paragraph
      separators except the three non-breaking spaces, plus the ASCII
      control characters HT, LF, VT, FF, CR and FS, GS, RS, US. */
  predicate IsWhitespace(c: char)
  {
    || ('\U{9}' <= c <= '\U{D}')
    || ('\U{1C}' <= c <= ' ')
    || c == '\U{1680}'
    || ('\U{2000}' <= c <= '\U{2006}')
    || ('\U{2008}' <= c <= '\U{200A}')
    || c == '\U{2028}' || c == '\U{2029}' || c == '\U{205F}' || c == '\U{3000}'
  }

  /** The test TextAppender and hasVisibleChar apply: whitespace or NBSP. */
  predicate IsBlankChar(c: char)
  {
    IsWhitespace(c) || c == NBSP
  }

  predicate IsVisible(c: char)
  {
    !IsBlankChar(c)
  }

  predicate HasVisible(s: string)
  {
    exists j :: 0 <= j < |s| && IsVisible(s[j])
  }

  lemma NbspIsNotJavaWhitespace()
    ensures !IsWhitespace(NBSP) && IsBlankChar(NBSP)
  {
  }

  /** String.trim() removes every character up to U+0020 from both ends,
      so the trimmed string is empty exactly when no character exceeds it. */
  predicate TrimIsEmpty(s: string)
  {
    forall i :: 0 <= i < |s| ==> s[i] <= ' '
  }

  /** trim() keeps NBSP, so a text made of NBSPs is not blank for it. */
  lemma NbspSurvivesTrim(s: string)
    requires |s| > 0 && forall i :: 0 <= i < |s| ==> s[i] == NBSP
    ensures !TrimIsEmpty(s)
  {
    assert s[0] > ' ';
  }

  function AsciiLowerChar(c: char): (r: char)
    ensures 'A' <= c <= 'Z' ==> 'a' <= r <= 'z'
    ensures !('A' <= c <= 'Z') ==> r == c
  {
    if 'A' <= c <= 'Z' then (c as int + 32) as char else c
  }

  /** Pattern.CASE_INSENSITIVE without UNICODE_CASE folds ASCII letters only. */
  function AsciiLower(s: string): (r: string)
    ensures |r| == |s|
    ensures forall i :: 0 <= i < |s| ==> r[i] == AsciiLowerChar(s[i])
  {
    if s == [] then [] else [AsciiLowerChar(s[0])] + AsciiLower(s[1..])
  }

  predicate StartsWith(s: string, w: string)
  {
    |w| <= |s| && s[..|w|] == w
  }

  /** Substring containment, the meaning of an unanchored regex find(). */
  predicate Contains(s: string, w: string)
    decreases |s|
  {
    StartsWith(s, w) || (|s| > 0 && Contains(s[1..], w))
  }

  lemma {:induction false} ContainsAt(s: string, w: string, i: nat)
    requires i + |w| <= |s| && s[i..i + |w|] == w
    ensures Contains(s, w)
    decreases i
  {
    if i == 0 {
      assert s[..|w|] == w;
    } else {
      assert s[1..][i - 1..i - 1 + |w|] == s[i..i + |w|];
      ContainsAt(s[1..], w, i - 1);
    }
  }

  lemma {:induction false} ContainsWitness(s: string, w: string) returns (i: nat)
    requires Contains(s, w)
    ensures i + |w| <= |s| && s[i..i + |w|] == w
    decreases |s|
  {
    if StartsWith(s, w) {
      i := 0;
    } else {
      var j := ContainsWitness(s[1..], w);
      i := j + 1;
      assert s[1..][j..j + |w|] == s[i..i + |w|];
    }
  }

  /** A word containing no blank is never found in a trailing " " it did not
      already occur without. */
  lemma {:induction false} ContainsTrailingSpace(s: string, w: string)
    requires |w| > 0 && forall k :: 0 <= k < |w| ==> w[k] != ' '
    ensures Contains(s + " ", w) == Contains(s, w)
  {
    if Contains(s, w) {
      var i := ContainsWitness(s, w);
      assert (s + " ")[i..i + |w|] == s[i..i + |w|];
      ContainsAt(s + " ", w, i);
    }
    if Contains(s + " ", w) {
      var i := ContainsWitness(s + " ", w);
      assert w[|w| - 1] == (s + " ")[i + |w| - 1];
      assert s[i..i + |w|] == (s + " ")[i..i + |w|];
      ContainsAt(s, w, i);
    }
  }

  /** Character.toLowerCase(Character.toUpperCase(c)) for every character
      whose result is an ASCII letter; other characters stay as they are. */
  function FoldCase(c: char): char
  {
    if 'A' <= c <= 'Z' then AsciiLowerChar(c)
    else if c == '\U{130}' || c == '\U{131}' then 'i'
    else if c == '\U{17F}' then 's'
    else if c == '\U{212A}' then 'k'
    else c
  }

  /** String.equalsIgnoreCase against a lower-case ASCII literal. */
  predicate EqualsIgnoreCase(s: string, lit: string)
  {
    |s| == |lit| && forall i :: 0 <= i < |s| ==> FoldCase(s[i]) == lit[i]
  }

  lemma DotlessIMatchesDiv()
    ensures EqualsIgnoreCase("d\U{131}v", "div") && EqualsIgnoreCase("DIV", "div")
  {
  }

  /** StringUtils.countMatches(s, ","): occurrences of one character. */
  function CountChar(s: string, c: char): (n: nat)
    ensures n <= |s|
    ensures n == 0 <==> forall i :: 0 <= i < |s| ==> s[i] != c
  {
    if s == [] then 0 else (if s[0] == c then 1 else 0) + CountChar(s[1..], c)
  }

  lemma {:induction false} CountCharAppend(a: string, b: string, c: char)
    ensures CountChar(a + b, c) == CountChar(a, c) + CountChar(b, c)
  {
    if a != [] {
      assert (a + b)[1..] == a[1..] + b;
      CountCharAppend(a[1..], b, c);
    } else {
      assert a + b == b;
    }
  }
}
