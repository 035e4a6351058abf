/** The five regular expressions of the extractor, restated as prefix and
    substring tests over ASCII-lower-cased text (Pattern.CASE_INSENSITIVE
    folds ASCII letters only). All are used with find(), except the image
    size pattern, which is used with matches(). */
module Patterns {
  import opened Chars
  import opened Wrappers

  function ContentWords(): seq<string>
  {
    ["post", "entry", "content", "text", "body", "article", "story"]
  }

  /** The alternatives of the stopword pattern that may occur anywhere;
      "comm?ents?" occurs iff "coment" or "comment" does (the trailing s is
      optional), and likewise for "komm?ents?". */
  function StopWords(): seq<string>
  {
    ["coment", "comment", "koment", "komment", "share", "footer",
     "footnote", "skip", "breadcrumb", "menu", "continue", "pub"]
  }

  predicate ContainsAny(s: string, words: seq<string>)
  {
    exists k :: 0 <= k < |words| && Contains(s, words[k])
  }

  /** post|entry|content|text|body|article|story, found anywhere. */
  predicate ContentMatch(s: string)
  {
    ContainsAny(AsciiLower(s), ContentWords())
  }

  /** The stopword pattern; its "^ad" alternative is anchored at the start
      of the input. */
  predicate StopwordMatch(s: string)
  {
    var l := AsciiLower(s);
    StartsWith(l, "ad") || ContainsAny(l, StopWords())
  }

  /** src|data-src|href|text, found anywhere in an attribute name. */
  predicate AllowedAttrName(name: string)
  {
    ContainsAny(AsciiLower(name), ["src", "data-src", "href", "text"])
  }

  /** matches("(?i:href)"): the whole name is href in any ASCII case. */
  predicate IsHrefName(name: string)
  {
    AsciiLower(name) == "href"
  }

  predicate SphereitMatch(s: string)
  {
    Contains(AsciiLower(s), "sphereit")
  }

  /** One attribute's share of scoreByMatchClassId: a content keyword wins
      over a stopword. */
  function KeywordScore(v: string): (r: int)
    ensures r == 100 <==> ContentMatch(v)
    ensures r == -999 <==> !ContentMatch(v) && StopwordMatch(v)
    ensures r == 0 <==> !ContentMatch(v) && !StopwordMatch(v)
  {
    if ContentMatch(v) then 100 else if StopwordMatch(v) then -999 else 0
  }

  lemma {:induction false} LowerOfLower(s: string)
    requires forall i :: 0 <= i < |s| ==> !('A' <= s[i] <= 'Z')
    ensures AsciiLower(s) == s
  {
  }

  /** No content keyword occurs in a text lacking one letter of each. */
  lemma NoContentWord(s: string)
    requires 'p' !in s && 'n' !in s && 'c' !in s && 'x' !in s && 'b' !in s && 's' !in s
    ensures !ContainsAny(s, ContentWords())
  {
    var missing, missingAt := "pncxbcs", [0, 1, 0, 2, 0, 4, 0];
    forall k | 0 <= k < 7 ensures !Contains(s, ContentWords()[k]) {
      var w := ContentWords()[k];
      assert w[missingAt[k]] == missing[k];
      MissingLetter(s, w, missingAt[k]);
    }
  }

  lemma ContentExample()
    ensures KeywordScore("content") == 100
  {
    LowerOfLower("content");
    assert Contains("content", ContentWords()[2]);
  }

  lemma FooterExample()
    ensures KeywordScore("footer") == -999
  {
    FooterHasNoContentWord();
    LowerOfLower("footer");
    assert Contains("footer", StopWords()[5]);
  }

  lemma FooterHasNoContentWord()
    ensures !ContentMatch("footer")
  {
    NoContentMatch("footer");
  }

  lemma PrefixAdExample()
    ensures KeywordScore("advert") == -999
  {
    AdvertHasNoContentWord();
    LowerOfLower("advert");
    assert StartsWith("advert", "ad");
  }

  lemma AdvertHasNoContentWord()
    ensures !ContentMatch("advert")
  {
    NoContentMatch("advert");
  }

  /** A lower-case text lacking one letter of each keyword has no match. */
  lemma NoContentMatch(s: string)
    requires forall i :: 0 <= i < |s| ==> 'a' <= s[i] <= 'z'
    requires 'p' !in s && 'n' !in s && 'c' !in s && 'x' !in s && 'b' !in s && 's' !in s
    ensures !ContentMatch(s)
  {
    LowerOfLower(s);
    NoContentWord(s);
  }

  /** A word with a letter the text lacks does not occur in it. */
  lemma {:induction false} MissingLetter(s: string, w: string, i: nat)
    requires i < |w| && w[i] !in s
    ensures !Contains(s, w)
    decreases |s|
  {
    if |s| > 0 {
      assert forall c :: c in s[1..] ==> c in s;
      MissingLetter(s[1..], w, i);
    }
  }

  /** Adding a trailing " " to a value never changes whether the stopword
      pattern finds something in it: no alternative contains a blank. */
  lemma StopwordIgnoresTrailingSpace(s: string)
    ensures StopwordMatch(s + " ") == StopwordMatch(s)
  {
    var l, l' := AsciiLower(s), AsciiLower(s + " ");
    assert l' == l + " ";
    forall k | 0 <= k < |StopWords()|
      ensures Contains(l', StopWords()[k]) == Contains(l, StopWords()[k])
    {
      ContainsTrailingSpace(l, StopWords()[k]);
    }
    if |l| < 2 {
      assert !StartsWith(l, "ad");
      assert l' == [] || (|l'| <= 2 && (|l'| < 2 || l'[1] == ' '));
    } else {
      assert l'[..2] == l[..2];
    }
  }

  predicate IsDigit(c: char)
  {
    '0' <= c <= '9'
  }

  /** The characters '.' does not match without DOTALL. */
  predicate IsLineTerminator(c: char)
  {
    c == '\n' || c == '\r' || c == '\U{85}' || c == '\U{2028}' || c == '\U{2029}'
  }

  function LeadingDigits(s: string): (d: string)
    ensures |d| <= |s| && d == s[..|d|]
    ensures forall i :: 0 <= i < |d| ==> IsDigit(d[i])
    ensures |d| < |s| ==> !IsDigit(s[|d|])
  {
    if s == [] || !IsDigit(s[0]) then [] else [s[0]] + LeadingDigits(s[1..])
  }

  function DigitValue(c: char): (n: nat)
    requires IsDigit(c)
    ensures n <= 9
  {
    c as int - '0' as int
  }

  /** The decimal value of a digit string, most significant digit first. */
  function DigitsValue(d: string): nat
    requires forall i :: 0 <= i < |d| ==> IsDigit(d[i])
  {
    if d == [] then 0
    else DigitsValue(d[..|d| - 1]) * 10 + DigitValue(d[|d| - 1])
  }

  /** "(\d+).*" with matches() and Integer.parseInt of the group: a value
      exactly when the text starts with a digit and nothing after the digits
      is a line terminator. Overflow of parseInt is not modelled. */
  function ParseImageSize(s: string): (r: Option<nat>)
    ensures r.Some? <==> |s| > 0 && IsDigit(s[0]) &&
                         forall i :: |LeadingDigits(s)| <= i < |s| ==> !IsLineTerminator(s[i])
    ensures r.Some? ==> r.value == DigitsValue(LeadingDigits(s))
  {
    var d := LeadingDigits(s);
    if |d| > 0 && forall i :: |d| <= i < |s| ==> !IsLineTerminator(s[i])
    then Some(DigitsValue(d)) else None
  }

  lemma ImageSizeExamples()
    ensures ParseImageSize("50") == Some(50)
    ensures ParseImageSize("100px") == Some(100)
    ensures ParseImageSize("auto") == None
    ensures ParseImageSize("") == None
    ensures ParseImageSize("7\n") == None
  {
    assert LeadingDigits("0") == "0";
    assert LeadingDigits("50") == "50";
    assert "50"[..1] == "5";
    assert DigitsValue("50") == 50;
    assert LeadingDigits("px") == "";
    assert LeadingDigits("100px") == "100";
    assert "100"[..2] == "10" && "10"[..1] == "1";
    assert DigitsValue("100") == 100;
    assert LeadingDigits("\n") == "";
    assert LeadingDigits("7\n") == "7";
    assert IsLineTerminator("7\n"[1]);
  }
}
