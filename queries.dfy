/** Read-only queries over the tree: getElementsByTagName, the extractor's
    recursive helpers textLength, getFirstLevelTextContent, hasVisibleChar,
    findComment and findTextNodes, and the DOM's getTextContent and
    getWholeText. Recursive walks carry a depth budget (fuel); they start
    with tree.next, which no path of an acyclic tree can exceed. */
module Queries {
  import opened Wrappers
  import opened Chars
  import opened Patterns
  import opened Dom

  /** An element the tag name selects; "*" selects every element. */
  predicate MatchesTag(t: Tree, x: NodeId, tag: string)
  {
    IsKind(t, x, Element) && (tag == "*" || t.nodes[x].tag == tag)
  }

  /** Document-order matches among the nodes cs and their descendants. */
  function ByTagIn(t: Tree, cs: seq<NodeId>, tag: string, fuel: nat): (r: seq<NodeId>)
    ensures forall x :: x in r ==> MatchesTag(t, x, tag)
    decreases fuel, |cs|
  {
    if cs == [] then [] else ByTagAt(t, cs[0], tag, fuel) + ByTagIn(t, cs[1..], tag, fuel)
  }

  /** The matches in the subtree of x: x itself first, then its descendants. */
  function ByTagAt(t: Tree, x: NodeId, tag: string, fuel: nat): (r: seq<NodeId>)
    ensures forall y :: y in r ==> MatchesTag(t, y, tag)
    decreases fuel, 0
  {
    (if MatchesTag(t, x, tag) then [x] else [])
    + (if fuel == 0 then [] else ByTagIn(t, Kids(t, x), tag, fuel - 1))
  }

  /** getElementsByTagName on root: its matching descendants in document
      order, root itself excluded. */
  function ElementsByTag(t: Tree, root: NodeId, tag: string): (r: seq<NodeId>)
    ensures forall x :: x in r ==> MatchesTag(t, x, tag)
  {
    ByTagIn(t, Kids(t, root), tag, t.next)
  }

  /** Every match under the nodes cs has a parent when cs all do. */
  lemma {:induction false} ByTagInParented(t: Tree, cs: seq<NodeId>, tag: string, fuel: nat)
    requires ChildrenPointBack(t) && forall c :: c in cs ==> c in t.nodes && t.nodes[c].parent.Some?
    ensures forall x :: x in ByTagIn(t, cs, tag, fuel) ==> x in t.nodes && t.nodes[x].parent.Some?
    decreases fuel, |cs|
  {
    if cs != [] {
      var x := cs[0];
      if fuel > 0 {
        forall c | c in Kids(t, x) ensures c in t.nodes && t.nodes[c].parent.Some? {
          assert c in t.nodes[x].children;
        }
        ByTagInParented(t, Kids(t, x), tag, fuel - 1);
      }
      ByTagInParented(t, cs[1..], tag, fuel);
    }
  }

  /** getElementsByTagName never lists a node without a parent. */
  lemma ElementsByTagParented(t: Tree, root: NodeId, tag: string)
    requires ChildrenPointBack(t)
    ensures forall x :: x in ElementsByTag(t, root, tag) ==> x in t.nodes && t.nodes[x].parent.Some?
  {
    forall c | c in Kids(t, root) ensures c in t.nodes && t.nodes[c].parent.Some? {
      assert c in t.nodes[root].children;
    }
    ByTagInParented(t, Kids(t, root), tag, t.next);
  }

  /** t2 is t1 with some children taken out of child lists and with
      attributes and parent links possibly changed. */
  ghost predicate Shrunk(t2: Tree, t1: Tree)
  {
    && t2.nodes.Keys == t1.nodes.Keys
    && forall id :: id in t1.nodes ==>
         t2.nodes[id].kind == t1.nodes[id].kind && t2.nodes[id].tag == t1.nodes[id].tag &&
         IsSubseq(t2.nodes[id].children, t1.nodes[id].children)
  }

  predicate IsSubseq(a: seq<NodeId>, b: seq<NodeId>)
    decreases |b|
  {
    a == [] || (b != [] && ((a[0] == b[0] && IsSubseq(a[1..], b[1..])) || IsSubseq(a, b[1..])))
  }

  lemma {:induction false} SubseqRefl(a: seq<NodeId>)
    ensures IsSubseq(a, a)
  {
    if a != [] { SubseqRefl(a[1..]); }
  }

  lemma {:induction false} WithoutIsSubseq(a: seq<NodeId>, x: NodeId)
    ensures IsSubseq(Without(a, x), a)
  {
    if a != [] {
      WithoutIsSubseq(a[1..], x);
      if a[0] != x {
        assert Without(a, x) == [a[0]] + Without(a[1..], x);
        assert Without(a, x)[1..] == Without(a[1..], x);
      }
    }
  }

  /** Removing children never makes a live getElementsByTagName list longer,
      so index loops over such a list that remove nodes terminate. */
  lemma {:induction false} ByTagInShrinks(t2: Tree, t1: Tree, cs2: seq<NodeId>, cs1: seq<NodeId>,
                                            tag: string, fuel: nat)
    requires Shrunk(t2, t1) && IsSubseq(cs2, cs1)
    ensures |ByTagIn(t2, cs2, tag, fuel)| <= |ByTagIn(t1, cs1, tag, fuel)|
    decreases fuel, |cs1|
  {
    if cs2 != [] {
      if cs2[0] == cs1[0] && IsSubseq(cs2[1..], cs1[1..]) {
        var x := cs1[0];
        assert MatchesTag(t2, x, tag) == MatchesTag(t1, x, tag);
        if fuel > 0 {
          assert IsSubseq(Kids(t2, x), Kids(t1, x)) by {
            if x !in t1.nodes || t1.nodes[x].kind !in {DocumentNode, Element} { assert Kids(t2, x) == []; }
          }
          ByTagInShrinks(t2, t1, Kids(t2, x), Kids(t1, x), tag, fuel - 1);
        }
        ByTagInShrinks(t2, t1, cs2[1..], cs1[1..], tag, fuel);
      } else {
        ByTagInShrinks(t2, t1, cs2, cs1[1..], tag, fuel);
      }
    }
  }

  lemma ElementsByTagShrinks(t2: Tree, t1: Tree, root: NodeId, tag: string)
    requires Shrunk(t2, t1) && t2.next == t1.next
    ensures |ElementsByTag(t2, root, tag)| <= |ElementsByTag(t1, root, tag)|
  {
    if root in t1.nodes && t1.nodes[root].kind in {DocumentNode, Element} {
      ByTagInShrinks(t2, t1, Kids(t2, root), Kids(t1, root), tag, t1.next);
    } else {
      assert Kids(t2, root) == [];
    }
  }

  lemma DetachShrinks(t: Tree, c: NodeId)
    requires c in t.nodes
    ensures Shrunk(Detach(t, c), t)
  {
    DetachEffect(t, c);
    var r := Detach(t, c);
    forall id | id in t.nodes ensures IsSubseq(r.nodes[id].children, t.nodes[id].children) {
      if Some(id) == t.nodes[c].parent {
        WithoutIsSubseq(t.nodes[id].children, c);
      } else {
        SubseqRefl(t.nodes[id].children);
      }
    }
  }

  /** Attribute edits leave the child lists (and so every list query) alone. */
  ghost predicate SameShape(t2: Tree, t1: Tree)
  {
    && t2.nodes.Keys == t1.nodes.Keys && t2.next == t1.next && t2.docNode == t1.docNode
    && forall id :: id in t1.nodes ==>
         t2.nodes[id].kind == t1.nodes[id].kind && t2.nodes[id].tag == t1.nodes[id].tag &&
         t2.nodes[id].data == t1.nodes[id].data &&
         t2.nodes[id].children == t1.nodes[id].children && t2.nodes[id].parent == t1.nodes[id].parent
  }

  lemma {:induction false} ByTagInSameShape(t2: Tree, t1: Tree, cs: seq<NodeId>, tag: string, fuel: nat)
    requires SameShape(t2, t1)
    ensures ByTagIn(t2, cs, tag, fuel) == ByTagIn(t1, cs, tag, fuel)
    decreases fuel, |cs|
  {
    if cs != [] {
      var x := cs[0];
      assert Kids(t2, x) == Kids(t1, x);
      if fuel > 0 { ByTagInSameShape(t2, t1, Kids(t1, x), tag, fuel - 1); }
      assert ByTagAt(t2, x, tag, fuel) == ByTagAt(t1, x, tag, fuel);
      ByTagInSameShape(t2, t1, cs[1..], tag, fuel);
    }
  }

  lemma ElementsByTagSameShape(t2: Tree, t1: Tree, root: NodeId, tag: string)
    requires SameShape(t2, t1)
    ensures ElementsByTag(t2, root, tag) == ElementsByTag(t1, root, tag)
  {
    assert Kids(t2, root) == Kids(t1, root);
    ByTagInSameShape(t2, t1, Kids(t1, root), tag, t1.next);
  }

  lemma AttributeEditsKeepShape(t: Tree, n: NodeId, name: string, value: string)
    ensures SameShape(WithAttribute(t, n, name, value), t)
    ensures SameShape(WithoutAttribute(t, n, name), t)
  {
    if n in t.nodes {
      var r1, r2 := WithAttribute(t, n, name, value), WithoutAttribute(t, n, name);
      forall id | id in t.nodes
        ensures r1.nodes[id] == t.nodes[id].(attrs := r1.nodes[id].attrs)
        ensures r2.nodes[id] == t.nodes[id].(attrs := r2.nodes[id].attrs)
      {
      }
    }
  }

  lemma SameShapeShrunk(t2: Tree, t1: Tree)
    requires SameShape(t2, t1)
    ensures Shrunk(t2, t1)
  {
    forall id | id in t1.nodes ensures IsSubseq(t2.nodes[id].children, t1.nodes[id].children) {
      SubseqRefl(t1.nodes[id].children);
    }
  }

  // ------------------------------------------------------------ text queries

  /** textLength: the sum over element and text children of their own
      textLength. No case adds the length of a string. */
  function TextLengthIn(t: Tree, cs: seq<NodeId>, fuel: nat): int
    decreases fuel, |cs|
  {
    if cs == [] then 0
    else
      (if (IsKind(t, cs[0], Element) || IsKind(t, cs[0], Text)) && fuel > 0
       then TextLengthIn(t, Kids(t, cs[0]), fuel - 1) else 0)
      + TextLengthIn(t, cs[1..], fuel)
  }

  function TextLength(t: Tree, n: NodeId): int
  {
    TextLengthIn(t, Kids(t, n), t.next)
  }

  /** As written, textLength is 0 for every node of every tree. */
  lemma {:induction false} TextLengthInIsZero(t: Tree, cs: seq<NodeId>, fuel: nat)
    ensures TextLengthIn(t, cs, fuel) == 0
    decreases fuel, |cs|
  {
    if cs != [] {
      if fuel > 0 { TextLengthInIsZero(t, Kids(t, cs[0]), fuel - 1); }
      TextLengthInIsZero(t, cs[1..], fuel);
    }
  }

  lemma TextLengthIsZero(t: Tree, n: NodeId)
    ensures TextLength(t, n) == 0
  {
    TextLengthInIsZero(t, Kids(t, n), t.next);
  }

  function Data(t: Tree, x: NodeId): string
  {
    if x in t.nodes then t.nodes[x].data else ""
  }

  /** The data of the Text nodes among cs, concatenated. */
  function TextKidsData(t: Tree, cs: seq<NodeId>): (r: string)
    ensures forall c :: c in r ==> exists i :: 0 <= i < |cs| && IsKind(t, cs[i], Text) && c in Data(t, cs[i])
  {
    if cs == [] then ""
    else
      var rest := TextKidsData(t, cs[1..]);
      var here := if IsKind(t, cs[0], Text) then Data(t, cs[0]) else "";
      assert forall c :: c in rest ==> exists i :: 0 <= i < |cs| && IsKind(t, cs[i], Text) && c in Data(t, cs[i]) by {
        forall c | c in rest ensures exists i :: 0 <= i < |cs| && IsKind(t, cs[i], Text) && c in Data(t, cs[i]) {
          var i :| 0 <= i < |cs[1..]| && IsKind(t, cs[1..][i], Text) && c in Data(t, cs[1..][i]);
          assert cs[i + 1] == cs[1..][i];
        }
      }
      here + rest
  }

  /** getFirstLevelTextContent: the text of n's direct Text children only. */
  function FirstLevelText(t: Tree, n: NodeId): string
  {
    TextKidsData(t, Kids(t, n))
  }

  lemma {:induction false} TextKidsDataSameShape(t2: Tree, t1: Tree, cs: seq<NodeId>)
    requires SameShape(t2, t1)
    ensures TextKidsData(t2, cs) == TextKidsData(t1, cs)
  {
    if cs != [] { TextKidsDataSameShape(t2, t1, cs[1..]); }
  }

  /** Attribute edits leave the first-level text of every node alone. */
  lemma FirstLevelTextSameShape(t2: Tree, t1: Tree, n: NodeId)
    requires SameShape(t2, t1)
    ensures FirstLevelText(t2, n) == FirstLevelText(t1, n)
  {
    assert Kids(t2, n) == Kids(t1, n);
    TextKidsDataSameShape(t2, t1, Kids(t1, n));
  }

  /** getTextContent of an element: its descendants' text in document
      order; comments contribute nothing. */
  function TextContentIn(t: Tree, cs: seq<NodeId>, fuel: nat): string
    decreases fuel, |cs|
  {
    if cs == [] then ""
    else
      (if IsKind(t, cs[0], Text) then Data(t, cs[0])
       else if IsKind(t, cs[0], Element) && fuel > 0 then TextContentIn(t, Kids(t, cs[0]), fuel - 1)
       else "")
      + TextContentIn(t, cs[1..], fuel)
  }

  /** getTextContent: a text or comment node's data, an element's text. */
  function TextContent(t: Tree, n: NodeId): string
  {
    if IsKind(t, n, Text) || IsKind(t, n, Comment) then Data(t, n)
    else if IsKind(t, n, Element) then TextContentIn(t, Kids(t, n), t.next)
    else ""
  }

  /** The position of x in cs, or |cs| when it is absent. */
  function IndexOf(cs: seq<NodeId>, x: NodeId): (k: nat)
    ensures k <= |cs| && (k < |cs| <==> x in cs)
    ensures k < |cs| ==> cs[k] == x && x !in cs[..k]
  {
    if cs == [] then 0 else if cs[0] == x then 0
    else
      var k := 1 + IndexOf(cs[1..], x);
      assert k < |cs| ==> cs[..k] == [cs[0]] + cs[1..][..k - 1];
      k
  }

  /** The first index of the run of Text siblings that ends at or after k. */
  function RunStart(t: Tree, cs: seq<NodeId>, k: nat): (lo: nat)
    requires k < |cs|
    ensures lo <= k && forall i :: lo <= i < k ==> IsKind(t, cs[i], Text)
    ensures lo > 0 ==> !IsKind(t, cs[lo - 1], Text)
  {
    if k > 0 && IsKind(t, cs[k - 1], Text) then RunStart(t, cs, k - 1) else k
  }

  /** One past the last index of the run of Text siblings from k on. */
  function RunEnd(t: Tree, cs: seq<NodeId>, k: nat): (hi: nat)
    requires k < |cs|
    ensures k < hi <= |cs| && forall i :: k < i < hi ==> IsKind(t, cs[i], Text)
    ensures hi < |cs| ==> !IsKind(t, cs[hi], Text)
    decreases |cs| - k
  {
    if k + 1 < |cs| && IsKind(t, cs[k + 1], Text) then RunEnd(t, cs, k + 1) else k + 1
  }

  /** Text.getWholeText: the data of the text nodes logically adjacent to
      x (the maximal run of Text siblings around it), in document order. */
  function WholeText(t: Tree, x: NodeId): (r: string)
    ensures x in t.nodes && t.nodes[x].parent.None? ==> r == Data(t, x)
  {
    var cs := if Parent(t, x).Some? then Kids(t, Parent(t, x).value) else [];
    var k := IndexOf(cs, x);
    if k < |cs| then TextKidsData(t, cs[RunStart(t, cs, k)..RunEnd(t, cs, k)])
    else Data(t, x)
  }

  predicate VisibleText(t: Tree, x: NodeId)
  {
    IsKind(t, x, Text) && HasVisible(WholeText(t, x))
  }

  /** hasVisibleChar over the child list cs: a text child whose whole text
      holds a visible character or, unless onlyChildren, an element child
      with such a text child. */
  function HasVisibleIn(t: Tree, cs: seq<NodeId>, onlyChildren: bool): (b: bool)
    ensures b <==> exists i :: 0 <= i < |cs| && Shows(t, cs[i], onlyChildren)
    decreases !onlyChildren, |cs|, 1
  {
    if cs == [] then false
    else
      var rest := HasVisibleIn(t, cs[1..], onlyChildren);
      assert rest <==> exists i :: 1 <= i < |cs| && Shows(t, cs[i], onlyChildren) by {
        if rest {
          var i :| 0 <= i < |cs[1..]| && Shows(t, cs[1..][i], onlyChildren);
          assert cs[i + 1] == cs[1..][i];
        }
        forall i | 1 <= i < |cs| && Shows(t, cs[i], onlyChildren) ensures rest {
          assert cs[1..][i - 1] == cs[i];
        }
      }
      Shows(t, cs[0], onlyChildren) || rest
  }

  /** The test hasVisibleChar applies to one child. */
  predicate Shows(t: Tree, x: NodeId, onlyChildren: bool)
    decreases !onlyChildren, 0, 0
  {
    VisibleText(t, x) || (!onlyChildren && IsKind(t, x, Element) && HasVisibleIn(t, Kids(t, x), true))
  }

  function HasVisibleChar(t: Tree, n: NodeId, onlyChildren: bool): bool
  {
    HasVisibleIn(t, Kids(t, n), onlyChildren)
  }

  lemma {:induction false} TextKidsDataHas(t: Tree, cs: seq<NodeId>, i: nat)
    requires i < |cs| && IsKind(t, cs[i], Text)
    ensures forall c :: c in Data(t, cs[i]) ==> c in TextKidsData(t, cs)
  {
    if i > 0 {
      TextKidsDataHas(t, cs[1..], i - 1);
      assert cs[1..][i - 1] == cs[i];
    }
  }

  /** A child's own data is part of its whole text. */
  lemma DataInWholeText(t: Tree, n: NodeId, x: NodeId)
    requires WellFormed(t) && x in Kids(t, n) && IsKind(t, x, Text)
    ensures forall c :: c in Data(t, x) ==> c in WholeText(t, x)
  {
    var cs := Kids(t, n);
    assert Parent(t, x) == Some(n);
    var k := IndexOf(cs, x);
    var lo, hi := RunStart(t, cs, k), RunEnd(t, cs, k);
    assert cs[lo..hi][k - lo] == x;
    TextKidsDataHas(t, cs[lo..hi], k - lo);
  }

  /** A visible first-level character makes hasVisibleChar(p, true) hold,
      so when it fails, p's first-level text is blank. */
  lemma NoVisibleCharMeansBlankText(t: Tree, n: NodeId)
    requires WellFormed(t)
    ensures HasVisible(FirstLevelText(t, n)) ==> HasVisibleChar(t, n, true)
  {
    var cs := Kids(t, n);
    if HasVisible(FirstLevelText(t, n)) {
      var j :| 0 <= j < |FirstLevelText(t, n)| && IsVisible(FirstLevelText(t, n)[j]);
      var c := FirstLevelText(t, n)[j];
      assert c in TextKidsData(t, cs);
      var i :| 0 <= i < |cs| && IsKind(t, cs[i], Text) && c in Data(t, cs[i]);
      VisibleChildShows(t, n, cs[i], c);
    }
  }

  lemma VisibleChildShows(t: Tree, n: NodeId, x: NodeId, c: char)
    requires WellFormed(t) && x in Kids(t, n) && IsKind(t, x, Text) && c in Data(t, x) && IsVisible(c)
    ensures Shows(t, x, true)
  {
    DataInWholeText(t, n, x);
    var w := WholeText(t, x);
    var m :| 0 <= m < |w| && w[m] == c;
  }

  /** findComment with the "sphereit" pattern over the nodes cs: a comment
      child whose data matches, or an element child holding one. */
  function FindCommentIn(t: Tree, cs: seq<NodeId>, fuel: nat): bool
    decreases fuel, |cs|
  {
    if cs == [] then false
    else
      var here := if IsKind(t, cs[0], Element) then fuel > 0 && FindCommentIn(t, Kids(t, cs[0]), fuel - 1)
                  else IsKind(t, cs[0], Comment) && SphereitMatch(Data(t, cs[0]));
      here || FindCommentIn(t, cs[1..], fuel)
  }

  function FindComment(t: Tree, n: NodeId): bool
  {
    FindCommentIn(t, Kids(t, n), t.next)
  }

  /** The comment descendants of the nodes cs in document order, as far as
      the walk of findComment descends. */
  function CommentsIn(t: Tree, cs: seq<NodeId>, fuel: nat): (r: seq<NodeId>)
    ensures forall x :: x in r ==> IsKind(t, x, Comment)
    decreases fuel, |cs|
  {
    if cs == [] then []
    else
      (if IsKind(t, cs[0], Element) then (if fuel > 0 then CommentsIn(t, Kids(t, cs[0]), fuel - 1) else [])
       else if IsKind(t, cs[0], Comment) then [cs[0]]
       else [])
      + CommentsIn(t, cs[1..], fuel)
  }

  /** findComment is true exactly when some comment under the nodes, in
      the walk's reach, has data the "sphereit" pattern finds. */
  lemma {:induction false} FindCommentNeedsComment(t: Tree, cs: seq<NodeId>, fuel: nat)
    ensures FindCommentIn(t, cs, fuel) <==>
      exists x :: x in CommentsIn(t, cs, fuel) && SphereitMatch(Data(t, x))
    decreases fuel, |cs|
  {
    if cs != [] {
      var x := cs[0];
      var head := if IsKind(t, x, Element) then (if fuel > 0 then CommentsIn(t, Kids(t, x), fuel - 1) else [])
                  else if IsKind(t, x, Comment) then [x]
                  else [];
      var tail := CommentsIn(t, cs[1..], fuel);
      assert CommentsIn(t, cs, fuel) == head + tail;
      FindCommentNeedsComment(t, cs[1..], fuel);
      if IsKind(t, x, Element) && fuel > 0 {
        FindCommentNeedsComment(t, Kids(t, x), fuel - 1);
      }
      assert (exists y :: y in head + tail && SphereitMatch(Data(t, y))) <==>
        (exists y :: y in head && SphereitMatch(Data(t, y))) || (exists y :: y in tail && SphereitMatch(Data(t, y)));
    }
  }

  /** findTextNodes: the text descendants in document order. */
  function TextNodesIn(t: Tree, cs: seq<NodeId>, fuel: nat): (r: seq<NodeId>)
    ensures forall x :: x in r ==> IsKind(t, x, Text)
    decreases fuel, |cs|
  {
    if cs == [] then []
    else
      (if IsKind(t, cs[0], Element) && fuel > 0 then TextNodesIn(t, Kids(t, cs[0]), fuel - 1)
       else if IsKind(t, cs[0], Text) then [cs[0]]
       else [])
      + TextNodesIn(t, cs[1..], fuel)
  }

  function FindTextNodes(t: Tree, n: NodeId): seq<NodeId>
  {
    TextNodesIn(t, Kids(t, n), t.next)
  }

  /** Every direct text child is among the text nodes found. */
  lemma {:induction false} TextChildrenFound(t: Tree, cs: seq<NodeId>, fuel: nat)
    ensures forall i :: 0 <= i < |cs| && IsKind(t, cs[i], Text) ==> cs[i] in TextNodesIn(t, cs, fuel)
    decreases |cs|
  {
    if cs != [] {
      TextChildrenFound(t, cs[1..], fuel);
      forall i | 1 <= i < |cs| && IsKind(t, cs[i], Text) ensures cs[i] in TextNodesIn(t, cs, fuel) {
        assert cs[1..][i - 1] == cs[i];
      }
    }
  }
}
