/** scoreByMatchClassId, scoreElements and the choice of the top element.
    The score map is a map plus the order its keys were first stored in;
    that order stands for the (implementation-defined) iteration order of
    the HashMap. */
module Scoring {
  import opened Wrappers
  import opened Chars
  import opened Patterns
  import opened Dom
  import opened Queries
  import opened Metadata

  /** +100 / -999 / 0 for each of class and id, and for itemprop when it
      is non-empty. */
  function ScoreByMatchClassId(t: Tree, e: NodeId): (r: int)
    ensures -2997 <= r <= 300
    ensures r == KeywordScore(Attribute(t, e, "class")) + KeywordScore(Attribute(t, e, "id")) +
                 KeywordScore(Attribute(t, e, "itemprop"))
  {
    var itemprop := Attribute(t, e, "itemprop");
    KeywordScoreEmpty();
    KeywordScore(Attribute(t, e, "class")) + KeywordScore(Attribute(t, e, "id")) +
    (if itemprop != "" then KeywordScore(itemprop) else 0)
  }

  /** An empty value matches no pattern, so the itemprop test changes
      nothing. */
  lemma KeywordScoreEmpty()
    ensures KeywordScore("") == 0
  {
    NoContentWord("");
    assert !StartsWith("", "ad");
    forall k | 0 <= k < |StopWords()| ensures !Contains("", StopWords()[k]) {
      assert StopWords()[k] != "";
    }
  }

  lemma ClassContentExample(t: Tree, e: NodeId)
    requires e in t.nodes && t.nodes[e].attrs == [Attr("class", "content")]
    ensures ScoreByMatchClassId(t, e) == 100
  {
    ContentExample();
    KeywordScoreEmpty();
  }

  lemma IdFooterExample(t: Tree, e: NodeId)
    requires e in t.nodes && t.nodes[e].attrs == [Attr("id", "footer")]
    ensures ScoreByMatchClassId(t, e) == -999
  {
    FooterExample();
    KeywordScoreEmpty();
  }

  datatype Scores = Scores(m: map<NodeId, int>, order: seq<NodeId>)

  function NoScores(): Scores
  {
    Scores(map[], [])
  }

  /** Only scores >= 0 are stored; the order lists each key once. */
  ghost predicate ScoresInv(s: Scores)
  {
    && (forall k :: k in s.m ==> s.m[k] >= 0)
    && Distinct(s.order)
    && (forall k :: k in s.m <==> k in s.order)
  }

  /** One put: an absent entry restarts from base, and a sum below zero is
      dropped, leaving the map as it was. */
  function Contribute(s: Scores, key: NodeId, base: int, inc: int): (r: Scores)
    requires ScoresInv(s)
    ensures ScoresInv(r)
    ensures var v := (if key in s.m then s.m[key] else base) + inc;
      (v >= 0 ==> r.m == s.m[key := v]) && (v < 0 ==> r == s)
    ensures forall k :: k in s.order ==> k in r.order
  {
    var v := (if key in s.m then s.m[key] else base) + inc;
    if v < 0 then s
    else if key in s.m then Scores(s.m[key := v], s.order)
    else
      DistinctCons(key, []);
      assert Distinct(s.order + [key]) by {
        forall i, j | 0 <= i < j < |s.order + [key]| ensures (s.order + [key])[i] != (s.order + [key])[j] {
          if j == |s.order| { assert s.order[i] in s.order; }
        }
      }
      Scores(s.m[key := v], s.order + [key])
  }

  /** The div or article element whose score a candidate feeds in the
      first pass (tag names compared ignoring case). */
  function ParentKey(t: Tree, x: NodeId): Option<NodeId>
  {
    var p := Parent(t, x);
    if p.Some? && IsKind(t, p.value, Element) &&
       (EqualsIgnoreCase(t.nodes[p.value].tag, "div") || EqualsIgnoreCase(t.nodes[p.value].tag, "article"))
    then p else None
  }

  /** The grandparent a candidate feeds in the second pass: parent and
      grandparent both elements whose tag is exactly "div". */
  function GrandparentKey(t: Tree, x: NodeId): Option<NodeId>
  {
    var p := Parent(t, x);
    if p.Some? && IsTag(t, p.value, "div") then
      var g := Parent(t, p.value);
      if g.Some? && IsTag(t, g.value, "div") then g else None
    else None
  }

  /** The second pass feeds only a grandparent tagged exactly "div"
      through a parent tagged exactly "div": the test there is
      case-sensitive, unlike the first pass's. */
  lemma GrandparentKeyIsDiv(t: Tree, x: NodeId)
    ensures GrandparentKey(t, x).Some? ==>
      IsTag(t, GrandparentKey(t, x).value, "div") && Parent(t, x).Some? && IsTag(t, Parent(t, x).value, "div") &&
      GrandparentKey(t, x) == Parent(t, Parent(t, x).value)
  {
  }

  function Max(a: int, b: int): int
  {
    if a < b then b else a
  }

  /** What one candidate adds: a length bonus and the comma count, halved
      (Java integer division) in the second pass. */
  function Increment(t: Tree, x: NodeId, second: bool): int
  {
    var len := TextLength(t, x);
    var commas := CountChar(TextContent(t, x), ',');
    if !second then (if len > 30 then Max(30, len / 5) else 0) + commas
    else (if len > 30 then Max(20, len / 10) else 0) + commas / 2
  }

  /** Since textLength is always 0, the length bonus never applies. */
  lemma IncrementIsCommas(t: Tree, x: NodeId)
    ensures Increment(t, x, false) == CountChar(TextContent(t, x), ',')
    ensures Increment(t, x, true) == CountChar(TextContent(t, x), ',') / 2
  {
    TextLengthIsZero(t, x);
  }

  function Key(t: Tree, x: NodeId, second: bool): Option<NodeId>
  {
    if second then GrandparentKey(t, x) else ParentKey(t, x)
  }

  /** One pass of scoreElements over the candidates, in order. */
  function Pass(t: Tree, nodes: seq<NodeId>, s: Scores, second: bool): (r: Scores)
    requires ScoresInv(s)
    ensures ScoresInv(r)
    decreases |nodes|
  {
    if nodes == [] then s
    else
      Step(t, Pass(t, nodes[..|nodes| - 1], s, second), nodes[|nodes| - 1], second)
  }

  /** scoreElements: the parent pass, then the grandparent pass. */
  function ScoreMap(t: Tree, nodes: seq<NodeId>): (r: Scores)
    ensures ScoresInv(r)
  {
    Pass(t, nodes, Pass(t, nodes, NoScores(), false), true)
  }

  /** Every stored key was the key of some candidate of the pass. */
  lemma {:induction false} PassKeys(t: Tree, nodes: seq<NodeId>, s: Scores, second: bool)
    requires ScoresInv(s)
    ensures forall k :: k in Pass(t, nodes, s, second).m ==>
      k in s.m || exists i :: 0 <= i < |nodes| && Key(t, nodes[i], second) == Some(k)
    decreases |nodes|
  {
    if nodes != [] {
      var init := nodes[..|nodes| - 1];
      PassKeys(t, init, s, second);
      forall i | 0 <= i < |init| ensures init[i] == nodes[i] { }
    }
  }

  /** Only div and article elements are scored: the parent pass compares
      ignoring case, the grandparent pass needs the exact tag "div". */
  lemma ScoredAreDivsOrArticles(t: Tree, nodes: seq<NodeId>)
    ensures forall k :: k in ScoreMap(t, nodes).m ==>
      IsKind(t, k, Element) &&
      (EqualsIgnoreCase(t.nodes[k].tag, "div") || EqualsIgnoreCase(t.nodes[k].tag, "article"))
  {
    var s1 := Pass(t, nodes, NoScores(), false);
    PassKeys(t, nodes, NoScores(), false);
    PassKeys(t, nodes, s1, true);
    forall k | k in ScoreMap(t, nodes).m
      ensures IsKind(t, k, Element) &&
        (EqualsIgnoreCase(t.nodes[k].tag, "div") || EqualsIgnoreCase(t.nodes[k].tag, "article"))
    {
      var second := k !in s1.m;
      var i :| 0 <= i < |nodes| && Key(t, nodes[i], second) == Some(k);
      KeyIsDivOrArticle(t, nodes[i], second);
    }
  }

  /** Every scored node is the parent of a candidate or of a candidate's
      parent, so it has a child. */
  lemma ScoredHaveChildren(t: Tree, nodes: seq<NodeId>)
    requires ParentsListChild(t)
    ensures forall k :: k in ScoreMap(t, nodes).m ==> k in t.nodes && Kids(t, k) != []
  {
    var s1 := Pass(t, nodes, NoScores(), false);
    PassKeys(t, nodes, NoScores(), false);
    PassKeys(t, nodes, s1, true);
    forall k | k in ScoreMap(t, nodes).m ensures k in t.nodes && Kids(t, k) != [] {
      var second := k !in s1.m;
      var i :| 0 <= i < |nodes| && Key(t, nodes[i], second) == Some(k);
      KeyIsDivOrArticle(t, nodes[i], second);
      var c := if second then Parent(t, nodes[i]).value else nodes[i];
      assert c in t.nodes && t.nodes[c].parent == Some(k);
      assert c in Kids(t, k);
    }
  }

  /** The key of a candidate in either pass is a div or article element. */
  lemma KeyIsDivOrArticle(t: Tree, x: NodeId, second: bool)
    ensures var k := Key(t, x, second);
      k.Some? ==> (IsKind(t, k.value, Element) &&
                   (EqualsIgnoreCase(t.nodes[k.value].tag, "div") || EqualsIgnoreCase(t.nodes[k.value].tag, "article")))
  {
    var k := Key(t, x, second);
    if second && k.Some? {
      assert t.nodes[k.value].tag == "div";
      assert EqualsIgnoreCase("div", "div");
    }
  }

  /** What the candidate x does to the scores in one pass. */
  function Step(t: Tree, s: Scores, x: NodeId, second: bool): (r: Scores)
    requires ScoresInv(s)
    ensures ScoresInv(r)
  {
    var k := Key(t, x, second);
    if k.None? then s else Contribute(s, k.value, ScoreByMatchClassId(t, k.value), Increment(t, x, second))
  }

  lemma PassSnoc(t: Tree, nodes: seq<NodeId>, i: nat, s0: Scores, second: bool)
    requires i < |nodes| && ScoresInv(s0)
    ensures Pass(t, nodes[..i + 1], s0, second) == Step(t, Pass(t, nodes[..i], s0, second), nodes[i], second)
  {
    assert nodes[..i + 1][..i] == nodes[..i];
  }

  /** scoreElements, with the two loops of the source. */
  method ScoreElements(t: Tree, nodes: seq<NodeId>) returns (s: Scores)
    ensures s == ScoreMap(t, nodes)
  {
    s := NoScores();
    var i := 0;
    while i < |nodes|
      invariant 0 <= i <= |nodes| && ScoresInv(s)
      invariant s == Pass(t, nodes[..i], NoScores(), false)
    {
      PassSnoc(t, nodes, i, NoScores(), false);
      s := Step(t, s, nodes[i], false);
      i := i + 1;
    }
    assert nodes[..i] == nodes;
    ghost var first := s;
    i := 0;
    while i < |nodes|
      invariant 0 <= i <= |nodes| && ScoresInv(s)
      invariant s == Pass(t, nodes[..i], first, true)
    {
      PassSnoc(t, nodes, i, first, true);
      s := Step(t, s, nodes[i], true);
      i := i + 1;
    }
    assert nodes[..i] == nodes;
  }

  /** Lines 119-146 of getMainContent: the candidates of the body are
      scored and the first best-scoring element is chosen; none exactly when
      nothing was scored. */
  method TopCandidate(t: Tree, body: NodeId) returns (top: Option<NodeId>)
    ensures var m := ScoreMap(t, Candidates(t, body)).m;
      && (top.None? <==> m == map[])
      && (top.Some? ==> top.value in m && forall k :: k in m ==> m[k] <= m[top.value])
    ensures top.Some? ==> IsKind(t, top.value, Element)
    ensures top.Some? && top.value in t.nodes ==>
      EqualsIgnoreCase(t.nodes[top.value].tag, "div") || EqualsIgnoreCase(t.nodes[top.value].tag, "article")
  {
    var all := CollectCandidates(t, body);
    var scores := ScoreElements(t, all);
    ScoredAreDivsOrArticles(t, all);
    top := SelectTop(scores);
  }

  method SelectTop(s: Scores) returns (top: Option<NodeId>)
    requires ScoresInv(s)
    ensures top.None? <==> s.m == map[]
    ensures top.Some? ==> top.value in s.m && forall k :: k in s.m ==> s.m[k] <= s.m[top.value]
    ensures top.Some? ==> forall j :: 0 <= j < IndexOf(s.order, top.value) ==> s.m[s.order[j]] < s.m[top.value]
  {
    top := None;
    var i := 0;
    while i < |s.order|
      invariant 0 <= i <= |s.order|
      invariant top.None? <==> i == 0
      invariant top.Some? ==> top.value in s.order[..i] && top.value in s.m
      invariant top.Some? ==> forall j :: 0 <= j < i ==> s.m[s.order[j]] <= s.m[top.value]
      invariant top.Some? ==> forall j :: 0 <= j < IndexOf(s.order, top.value) ==> s.m[s.order[j]] < s.m[top.value]
    {
      var k := s.order[i];
      if top == None || s.m[k] > s.m[top.value] {
        top := Some(k);
      }
      i := i + 1;
    }
  }

  /** A dropped negative sum leaves no entry, so the key's next
      contribution starts again from its class/id score. */
  lemma RestartAfterDrop(s: Scores, key: NodeId, base: int, inc1: int, inc2: int)
    requires ScoresInv(s) && key !in s.m && base + inc1 < 0 && base + inc2 >= 0
    ensures Contribute(Contribute(s, key, base, inc1), key, base, inc2).m[key] == base + inc2
  {
  }

  // ------------------------------------------------------------ candidates

  /** HashSet.add, with insertion order kept. */
  function Insert(s: seq<NodeId>, x: NodeId): (r: seq<NodeId>)
    ensures forall y :: y in r <==> y in s || y == x
    ensures Distinct(s) ==> Distinct(r)
  {
    if x in s then s
    else
      assert Distinct(s) ==> Distinct(s + [x]) by {
        if Distinct(s) {
          forall i, j | 0 <= i < j < |s + [x]| ensures (s + [x])[i] != (s + [x])[j] {
            if j == |s| { assert s[i] in s; }
          }
        }
      }
      s + [x]
  }

  function InsertAll(s: seq<NodeId>, xs: seq<NodeId>): (r: seq<NodeId>)
    ensures forall y :: y in r <==> y in s || y in xs
    ensures Distinct(s) ==> Distinct(r)
    decreases |xs|
  {
    if xs == [] then s
    else
      var r := Insert(InsertAll(s, xs[..|xs| - 1]), xs[|xs| - 1]);
      assert forall y :: y in xs <==> y in xs[..|xs| - 1] || y == xs[|xs| - 1] by {
        assert xs == xs[..|xs| - 1] + [xs[|xs| - 1]];
      }
      r
  }

  /** The first text node whose text is not empty after trim(). */
  function FirstNonBlank(t: Tree, ts: seq<NodeId>): (r: Option<NodeId>)
    ensures r.Some? ==> r.value in ts && !TrimIsEmpty(TextContent(t, r.value))
    ensures r.None? ==> forall i :: 0 <= i < |ts| ==> TrimIsEmpty(TextContent(t, ts[i]))
  {
    if ts == [] then None
    else if !TrimIsEmpty(TextContent(t, ts[0])) then Some(ts[0])
    else
      var r := FirstNonBlank(t, ts[1..]);
      assert forall i :: 1 <= i < |ts| ==> ts[1..][i - 1] == ts[i];
      r
  }

  /** For each div, its first non-blank text node, if any. */
  function DivTexts(t: Tree, divs: seq<NodeId>): seq<NodeId>
    decreases |divs|
  {
    if divs == [] then []
    else
      var f := FirstNonBlank(t, FindTextNodes(t, divs[|divs| - 1]));
      DivTexts(t, divs[..|divs| - 1]) + (if f.Some? then [f.value] else [])
  }

  /** allParagraphs: every p of the body, then each div's first non-blank
      text node, without repetition. */
  function Candidates(t: Tree, body: NodeId): seq<NodeId>
  {
    InsertAll(InsertAll([], ElementsByTag(t, body, "p")), DivTexts(t, ElementsByTag(t, body, "div")))
  }

  lemma {:induction false} DivTextsAreNonBlankText(t: Tree, divs: seq<NodeId>)
    ensures forall x :: x in DivTexts(t, divs) ==> IsKind(t, x, Text) && !TrimIsEmpty(TextContent(t, x))
    decreases |divs|
  {
    if divs != [] {
      DivTextsAreNonBlankText(t, divs[..|divs| - 1]);
    }
  }

  /** Each candidate occurs once; the candidates are the body's p elements
      (all of them) and text nodes that are not blank to trim(). */
  lemma CandidatesShape(t: Tree, body: NodeId)
    ensures Distinct(Candidates(t, body))
    ensures forall x :: x in ElementsByTag(t, body, "p") ==> x in Candidates(t, body)
    ensures forall x :: x in Candidates(t, body) ==>
      IsTag(t, x, "p") || (IsKind(t, x, Text) && !TrimIsEmpty(TextContent(t, x)))
  {
    DistinctCons(0, []);
    assert Distinct([]) by { DistinctCons(0, []); }
    DivTextsAreNonBlankText(t, ElementsByTag(t, body, "div"));
  }

  /** The inner loop over findTextNodes, which breaks at the first text
      that is not blank to trim(). */
  method FirstNonBlankText(t: Tree, texts: seq<NodeId>) returns (f: Option<NodeId>)
    ensures f == FirstNonBlank(t, texts)
  {
    var j := 0;
    while j < |texts|
      invariant 0 <= j <= |texts| && FirstNonBlank(t, texts) == FirstNonBlank(t, texts[j..])
    {
      if !TrimIsEmpty(TextContent(t, texts[j])) {
        return Some(texts[j]);
      }
      assert texts[j..][1..] == texts[j + 1..];
      j := j + 1;
    }
    return None;
  }

  lemma InsertAllSnoc(s: seq<NodeId>, d: seq<NodeId>, x: NodeId)
    ensures InsertAll(s, d + [x]) == Insert(InsertAll(s, d), x)
  {
    assert (d + [x])[..|d|] == d;
  }

  lemma DivTextsSnoc(t: Tree, divs: seq<NodeId>, i: nat)
    requires i < |divs|
    ensures var f := FirstNonBlank(t, FindTextNodes(t, divs[i]));
      DivTexts(t, divs[..i + 1]) == DivTexts(t, divs[..i]) + (if f.Some? then [f.value] else [])
  {
    assert divs[..i + 1][..i] == divs[..i];
  }

  /** candidate collection in getMainContent, with its loops. */
  method CollectCandidates(t: Tree, body: NodeId) returns (all: seq<NodeId>)
    ensures all == Candidates(t, body)
  {
    var ps := ElementsByTag(t, body, "p");
    all := [];
    var i := 0;
    while i < |ps|
      invariant 0 <= i <= |ps| && all == InsertAll([], ps[..i])
    {
      assert ps[..i + 1] == ps[..i] + [ps[i]];
      InsertAllSnoc([], ps[..i], ps[i]);
      all := Insert(all, ps[i]);
      i := i + 1;
    }
    assert ps[..i] == ps;
    all := AddDivTexts(t, all, ElementsByTag(t, body, "div"));
  }

  method AddDivTexts(t: Tree, start: seq<NodeId>, divs: seq<NodeId>) returns (all: seq<NodeId>)
    ensures all == InsertAll(start, DivTexts(t, divs))
  {
    all := start;
    ghost var d: seq<NodeId> := [];
    var i := 0;
    while i < |divs|
      invariant 0 <= i <= |divs| && d == DivTexts(t, divs[..i]) && all == InsertAll(start, d)
    {
      var f := FirstNonBlankText(t, FindTextNodes(t, divs[i]));
      DivTextsSnoc(t, divs, i);
      if f.Some? {
        InsertAllSnoc(start, d, f.value);
        all := Insert(all, f.value);
        d := d + [f.value];
      } else {
        assert d + [] == d;
      }
      i := i + 1;
    }
    assert divs[..i] == divs;
  }

}
