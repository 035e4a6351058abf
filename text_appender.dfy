/** TextAppender: collapses every run of whitespace (Java whitespace or
    NBSP) into one ' ' placed before the next visible character, and
    records whether a visible character was ever appended. */
module TextAppender {
  import opened Chars

  datatype State = State(buf: string, lastIsWhiteSpace: bool, hasVisibleChar: bool)

  /** The state after construction or reset(). */
  function Init(): State
  {
    State("", false, false)
  }

  /** What append does with one character. */
  function FeedChar(st: State, c: char): State
  {
    if IsBlankChar(c) then st.(lastIsWhiteSpace := true)
    else State(st.buf + (if st.lastIsWhiteSpace then " " else "") + [c], false, true)
  }

  /** append(str), character by character. */
  function Feed(st: State, s: string): State
    decreases |s|
  {
    if s == [] then st else FeedChar(Feed(st, s[..|s| - 1]), s[|s| - 1])
  }

  /** toString(): a pending blank is written to the buffer, and the flag
      stays set. */
  function Flush(st: State): State
  {
    st.(buf := st.buf + if st.lastIsWhiteSpace then " " else "")
  }

  lemma FeedPrefix(st: State, s: string, k: nat)
    requires k < |s|
    ensures Feed(st, s[..k + 1]) == FeedChar(Feed(st, s[..k]), s[k])
  {
    assert s[..k + 1][..k] == s[..k];
  }

  /** Appending a + b is appending a, then b. */
  lemma {:induction false} FeedConcat(st: State, a: string, b: string)
    ensures Feed(st, a + b) == Feed(Feed(st, a), b)
    decreases |b|
  {
    if b == [] {
      assert a + b == a;
    } else {
      var b' := b[..|b| - 1];
      assert (a + b)[..|a + b| - 1] == a + b';
      FeedConcat(st, a, b');
    }
  }

  /** The buffer holds visible characters and single ' ' separators, each
      of them followed by a visible character; hasVisibleChar says whether
      the buffer has a visible character. */
  ghost predicate Inv(st: State)
  {
    && (forall k :: 0 <= k < |st.buf| ==> st.buf[k] == ' ' || IsVisible(st.buf[k]))
    && (forall k :: 0 <= k < |st.buf| && st.buf[k] == ' ' ==> k + 1 < |st.buf| && st.buf[k + 1] != ' ')
    && (st.hasVisibleChar <==> HasVisible(st.buf))
  }

  lemma InitInv()
    ensures Inv(Init())
  {
  }

  lemma FeedCharInv(st: State, c: char)
    requires Inv(st)
    ensures Inv(FeedChar(st, c))
  {
    if !IsBlankChar(c) {
      var b := FeedChar(st, c).buf;
      assert b[|b| - 1] == c;
    }
  }

  /** However many strings are appended, the buffer stays collapsed. */
  lemma {:induction false} FeedInv(st: State, s: string)
    requires Inv(st)
    ensures Inv(Feed(st, s))
    decreases |s|
  {
    if s != [] {
      FeedInv(st, s[..|s| - 1]);
      FeedCharInv(Feed(st, s[..|s| - 1]), s[|s| - 1]);
    }
  }

  /** The visible characters of s, in order. */
  function Visibles(s: string): (r: string)
    ensures |r| <= |s|
    ensures forall k :: 0 <= k < |r| ==> IsVisible(r[k])
    decreases |s|
  {
    if s == [] then "" else Visibles(s[..|s| - 1]) + (if IsVisible(s[|s| - 1]) then [s[|s| - 1]] else "")
  }

  lemma VisiblesSnoc(a: string, c: char)
    ensures Visibles(a + [c]) == Visibles(a) + (if IsVisible(c) then [c] else "")
  {
    assert (a + [c])[..|a|] == a;
  }

  lemma FeedCharVisibles(p: State, c: char)
    ensures Visibles(FeedChar(p, c).buf) == Visibles(p.buf) + Visibles([c])
  {
    VisiblesSnoc([], c);
    assert [] + [c] == [c];
    if !IsBlankChar(c) {
      var sep := if p.lastIsWhiteSpace then " " else "";
      VisiblesSnoc(p.buf + sep, c);
      if p.lastIsWhiteSpace {
        VisiblesSnoc(p.buf, ' ');
      } else {
        assert p.buf + sep == p.buf;
      }
    }
  }

  /** Every visible character appended reaches the buffer, in input order,
      and nothing else visible does. */
  lemma {:induction false} FeedVisibles(st: State, s: string)
    ensures Visibles(Feed(st, s).buf) == Visibles(st.buf) + Visibles(s)
    decreases |s|
  {
    if s != [] {
      var s' := s[..|s| - 1];
      var c := s[|s| - 1];
      FeedVisibles(st, s');
      FeedCharVisibles(Feed(st, s'), c);
      VisiblesSnoc([], c);
      assert [] + [c] == [c];
    }
  }

  /** hasVisibleChar turns true exactly when a visible character comes in. */
  lemma {:induction false} FeedHasVisible(st: State, s: string)
    ensures Feed(st, s).hasVisibleChar == (st.hasVisibleChar || HasVisible(s))
    decreases |s|
  {
    if s != [] {
      var s' := s[..|s| - 1];
      FeedHasVisible(st, s');
      assert forall j :: 0 <= j < |s'| ==> s'[j] == s[j];
    }
  }

  /** After the first toString() a pending blank is the buffer's last
      character, and no two spaces are adjacent. */
  lemma FlushOnce(st: State)
    requires Inv(st)
    ensures var b := Flush(st).buf;
      && (st.lastIsWhiteSpace ==> b == st.buf + " ")
      && (forall k :: 0 <= k && k + 1 < |b| ==> !(b[k] == ' ' && b[k + 1] == ' '))
  {
    if st.lastIsWhiteSpace && |st.buf| > 0 {
      var k := |st.buf| - 1;
      assert !(st.buf[k] == ' ' && k + 1 < |st.buf|);
    }
  }

  /** A second toString() with no reset between leaves two trailing spaces,
      as the last text node of killCodeSpansAndBreaks receives. */
  lemma FlushTwice(st: State)
    requires st.lastIsWhiteSpace
    ensures Flush(Flush(st)).buf == st.buf + "  "
  {
  }

  /** toString() adds at most a space, so the buffer has a visible
      character after it exactly when it had one before. */
  lemma FlushVisible(st: State)
    ensures HasVisible(Flush(st).buf) == HasVisible(st.buf)
    ensures Flush(st).hasVisibleChar == st.hasVisibleChar
  {
    var b := Flush(st).buf;
    assert forall j :: 0 <= j < |st.buf| ==> b[j] == st.buf[j];
    if st.lastIsWhiteSpace {
      assert b[|st.buf|] == ' ' && !IsVisible(' ');
    }
  }

  class Appender {
    var buf: string
    var lastIsWhiteSpace: bool
    var hasVisibleChar: bool

    function Current(): State
      reads this
    {
      State(buf, lastIsWhiteSpace, hasVisibleChar)
    }

    constructor ()
      ensures Current() == Init()
    {
      buf, lastIsWhiteSpace, hasVisibleChar := "", false, false;
    }

    method Reset()
      modifies this
      ensures Current() == Init()
    {
      lastIsWhiteSpace := false;
      hasVisibleChar := false;
      buf := "";
    }

    method ToString() returns (s: string)
      modifies this
      ensures Current() == Flush(old(Current())) && s == buf
    {
      if lastIsWhiteSpace { buf := buf + " "; }
      s := buf;
    }

    function Length(): nat
      reads this
    {
      |buf|
    }

    /** A blank sets the pending flag; a visible character writes the
        pending ' ' and then the whole run of visible characters from it,
        stopping at (and consuming) the next blank. */
    method Append(str: string)
      modifies this
      ensures Current() == Feed(old(Current()), str)
    {
      ghost var st0 := Current();
      var length := |str|;
      var i := 0;
      while i < length
        invariant 0 <= i <= length + 1
        invariant i <= length ==> Current() == Feed(st0, str[..i])
        invariant i == length + 1 ==> Current() == Feed(st0, str)
        decreases length + 1 - i
      {
        var c := str[i];
        if IsBlankChar(c) {
          FeedPrefix(st0, str, i);
          lastIsWhiteSpace := true;
          i := i + 1;
          continue;
        }
        var j := AppendRun(st0, str, i);
        i := j + 1;
      }
      if i == length { assert str[..i] == str; }
    }

    /** The visible run of append starting at str[i]: the pending ' ', then
        the characters up to the next blank at j, which is consumed too, or
        up to the end of str. */
    method AppendRun(ghost st0: State, str: string, i: nat) returns (j: nat)
      requires i < |str| && !IsBlankChar(str[i]) && Current() == Feed(st0, str[..i])
      modifies this
      ensures i < j <= |str|
      ensures j < |str| ==> Current() == Feed(st0, str[..j + 1])
      ensures j == |str| ==> Current() == Feed(st0, str)
    {
      var length := |str|;
      StartRun(st0, str, i);
      if lastIsWhiteSpace {
        buf := buf + " ";
        lastIsWhiteSpace := false;
      }
      ghost var b0 := buf;
      assert Feed(st0, str[..i + 1]) == State(b0 + str[i..i + 1], false, true);
      j := ScanRun(st0, str, i, b0);
      if j < length {
        lastIsWhiteSpace := true;
      }
      buf := buf + str[i..j];
      hasVisibleChar := true;
    }

    /** The inner loop of append: the end j of the run of visible
        characters starting at str[i]. */
    static method ScanRun(ghost st0: State, str: string, i: nat, ghost b0: string) returns (j: nat)
      requires i < |str| && Feed(st0, str[..i + 1]) == State(b0 + str[i..i + 1], false, true)
      ensures i < j <= |str| && Feed(st0, str[..j]) == State(b0 + str[i..j], false, true)
      ensures j < |str| ==> IsBlankChar(str[j]) && Feed(st0, str[..j + 1]) == State(b0 + str[i..j], true, true)
      ensures j == |str| ==> Feed(st0, str) == State(b0 + str[i..j], false, true)
    {
      var length := |str|;
      j := i + 1;
      while j < length
        invariant i < j <= length
        invariant Feed(st0, str[..j]) == State(b0 + str[i..j], false, true)
      {
        var c := str[j];
        if IsBlankChar(c) {
          break;
        }
        ExtendRun(st0, str, i, j, b0);
        j := j + 1;
      }
      RunDone(st0, str, j, b0 + str[i..j]);
    }
  }

  /** The end of a run: at the blank s[j], which is consumed, or at the end
      of s. */
  lemma RunDone(st0: State, s: string, j: nat, b: string)
    requires j <= |s| && Feed(st0, s[..j]) == State(b, false, true)
    ensures j < |s| && IsBlankChar(s[j]) ==> Feed(st0, s[..j + 1]) == State(b, true, true)
    ensures j == |s| ==> Feed(st0, s) == State(b, false, true)
  {
    if j < |s| && IsBlankChar(s[j]) { EndRun(st0, s, j); }
    if j == |s| { assert s[..j] == s; }
  }

  lemma StartRun(st0: State, s: string, i: nat)
    requires i < |s| && !IsBlankChar(s[i])
    ensures var p := Feed(st0, s[..i]);
      Feed(st0, s[..i + 1]) == State(p.buf + (if p.lastIsWhiteSpace then " " else "") + s[i..i + 1], false, true)
  {
    FeedPrefix(st0, s, i);
    assert s[i..i + 1] == [s[i]];
  }

  lemma ExtendRun(st0: State, s: string, i: nat, j: nat, b: string)
    requires i < j < |s| && !IsBlankChar(s[j])
    requires Feed(st0, s[..j]) == State(b + s[i..j], false, true)
    ensures Feed(st0, s[..j + 1]) == State(b + s[i..j + 1], false, true)
  {
    FeedPrefix(st0, s, j);
    assert s[i..j + 1] == s[i..j] + [s[j]];
  }

  lemma EndRun(st0: State, s: string, j: nat)
    requires j < |s| && IsBlankChar(s[j])
    ensures Feed(st0, s[..j + 1]) == Feed(st0, s[..j]).(lastIsWhiteSpace := true)
  {
    FeedPrefix(st0, s, j);
  }
}
