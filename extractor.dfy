/** ReadableContentExtractor: the extraction pipeline over one document.
    URI resolution is the function resolve(base, reference), a parameter of
    the extractor. */
module Extractor {
  import opened Wrappers
  import opened Chars
  import opened Patterns
  import opened Dom
  import opened Queries
  import opened Metadata
  import opened Frames
  import opened Sanitize
  import opened Live
  import opened Wrap
  import opened Duplicates
  import opened Scoring
  import opened Images
  import opened Spans
  import TA = TextAppender

  /** The exceptions the pipeline can end in. */
  datatype Fault = NullPointer | IllegalArgument | HierarchyRequest

  const Fallback: string := "Could not extract readable content from this page."

  /** The minWords of the two-argument clean. */
  const DefaultMinWords: int := 1000000

  /** setTextContent(s) on a fresh element leaves s as its first-level text. */
  lemma SetTextOnFresh(t: Tree, e: NodeId, s: string)
    requires WellFormed(t) && IsKind(t, e, Element) && s != ""
    ensures var r := SetTextContent(t, e, Some(s));
      WellFormed(r) && IsKind(r, e, Element) && FirstLevelText(r, e) == s && t.nodes.Keys <= r.nodes.Keys
  {
    SetTextContentWellFormed(t, e, Some(s));
    SetTextContentGrown(t, e, Some(s));
    SetTextContentText(t, e, Some(s));
  }

  /** The first-level text after setTextContent is the string set. */
  lemma SetTextContentText(t: Tree, e: NodeId, s: Option<string>)
    requires ChildrenPointBack(t) && IdsBelowNext(t) && IsKind(t, e, Element)
    ensures var r := SetTextContent(t, e, s);
      && (forall c :: c in Kids(r, e) ==> IsKind(r, c, Text))
      && FirstLevelText(r, e) == (if s.Some? then s.value else "")
  {
    var r := SetTextContent(t, e, s);
    SetTextContentKids(t, e, s, e);
    if s.Some? && s.value != "" {
      assert TextKidsData(r, [t.next]) == Data(r, t.next) + TextKidsData(r, []);
    }
  }

  /** setTextContent on an element: the other nodes keep their children,
      and the element's own children are Text nodes that spell the string
      (none for null or ""). */
  lemma SetTextContentEffect(t: Tree, e: NodeId, s: Option<string>)
    requires WellFormed(t) && IsKind(t, e, Element)
    ensures var r := SetTextContent(t, e, s);
      && Grown(r, t)
      && (forall y :: y in t.nodes && y != e ==> Kids(r, y) == Kids(t, y))
      && (forall c :: c in Kids(r, e) ==> IsKind(r, c, Text))
      && FirstLevelText(r, e) == (if s.Some? then s.value else "")
  {
    SetTextContentGrown(t, e, s);
    SetTextContentText(t, e, s);
    forall y | y in t.nodes && y != e ensures Kids(SetTextContent(t, e, s), y) == Kids(t, y) {
      SetTextContentKids(t, e, s, y);
    }
  }

  /** setTextContent on a parentless element touches no other parentless
      node and leaves the element parentless. */
  lemma SetTextContentOutside(t: Tree, e: NodeId, s: Option<string>)
    requires WellFormed(t) && e in t.nodes && t.nodes[e].parent == None
    ensures var r := SetTextContent(t, e, s);
      OutsideKept(r, t, e) && e in r.nodes && r.nodes[e].parent == None
  {
    var t1 := ClearChildren(t, e);
    forall y | y in t.nodes && t.nodes[y].parent == None
      ensures t1.nodes[y].parent == None && (y != e ==> t1.nodes[y].children == t.nodes[y].children)
    {
      ClearChildrenAt(t, e, y);
    }
    if s.Some? && s.value != "" {
      var t2 := NewNode(t1, Text, "", s.value);
      ClearChildrenWellFormed(t, e);
      NewNodeWellFormed(t1, Text, "", s.value);
      AppendEffect(t2, e, t1.next);
      var r := Append(t2, e, t1.next);
      forall y | y in t.nodes && t.nodes[y].parent == None && y != e
        ensures y in r.nodes && r.nodes[y].parent == None && r.nodes[y].children == t.nodes[y].children
      {
        assert t2.nodes[y] == t1.nodes[y] && y != t1.next;
      }
    }
  }

  /** A loose element left untouched keeps its first-level text. */
  lemma UntouchedTitled(t2: Tree, t1: Tree, h: NodeId, title: Option<string>)
    requires Loose(t1, h) && Untouched(t2, t1, h) && Titled(t1, h, title)
    ensures Titled(t2, h, title) && Loose(t2, h)
  {
    UntouchedLoose(t2, t1, h);
    TextKidsDataSame(t2, t1, Kids(t1, h));
  }

  /** Text-children data depends only on the kind and data of those nodes. */
  lemma {:induction false} TextKidsDataSame(t2: Tree, t1: Tree, cs: seq<NodeId>)
    requires forall c :: c in cs ==>
      c in t1.nodes && c in t2.nodes && t2.nodes[c].kind == t1.nodes[c].kind && t2.nodes[c].data == t1.nodes[c].data
    ensures TextKidsData(t2, cs) == TextKidsData(t1, cs)
  {
    if cs != [] { TextKidsDataSame(t2, t1, cs[1..]); }
  }

  /** Text-children data depends only on the kind and data of the nodes. */
  lemma {:induction false} TextKidsDataGrown(t2: Tree, t1: Tree, cs: seq<NodeId>)
    requires Grown(t2, t1) && forall c :: c in cs ==> c in t1.nodes
    ensures TextKidsData(t2, cs) == TextKidsData(t1, cs)
  {
    if cs != [] { TextKidsDataGrown(t2, t1, cs[1..]); }
  }

  /** The text setTextContent(title) leaves: none for null. */
  function TitleText(title: Option<string>): string
  {
    if title.Some? then title.value else ""
  }

  /** The h1.title of extract: an h1 element whose class is title and
      whose only children are text nodes spelling the title. */
  ghost predicate Titled(t: Tree, h: NodeId, title: Option<string>)
  {
    && IsKind(t, h, Element) && IsTag(t, h, "h1") && Attribute(t, h, "class") == "title"
    && FirstLevelText(t, h) == TitleText(title) && (forall c :: c in Kids(t, h) ==> IsKind(t, c, Text))
  }

  /** The children extract leaves at the end of articleContent: the h1,
      the p.intro holding the description, the div#mainImage holding one
      img whose src is the image, and the main content. */
  ghost predicate Assembled(t: Tree, root: NodeId, content: NodeId, title: Option<string>, description: Option<string>,
                            image: Option<string>)
  {
    var ks := Kids(t, root);
    var n := 2 + (if description.Some? then 1 else 0) + (if image.Some? then 1 else 0);
    && |ks| >= n
    && IsTag(t, ks[|ks| - n], "h1") && Attribute(t, ks[|ks| - n], "class") == "title"
    && FirstLevelText(t, ks[|ks| - n]) == TitleText(title)
    && (description.Some? ==>
          var p := ks[|ks| - n + 1];
          IsTag(t, p, "p") && Attribute(t, p, "class") == "intro" && FirstLevelText(t, p) == description.value)
    && (image.Some? ==>
          var w := ks[|ks| - 2];
          IsTag(t, w, "div") && Attribute(t, w, "id") == "mainImage" && |Kids(t, w)| == 1 &&
          IsTag(t, Kids(t, w)[0], "img") && Attribute(t, Kids(t, w)[0], "src") == image.value)
    && ks[|ks| - 1] == content
  }

  /** The children extract puts before the main content: the h1, the
      p.intro holding the description, and the div#mainImage holding one
      img whose src is the image. */
  ghost predicate Heads(t: Tree, hs: seq<NodeId>, title: Option<string>, description: Option<string>, image: Option<string>)
  {
    && |hs| == 1 + (if description.Some? then 1 else 0) + (if image.Some? then 1 else 0)
    && (forall y :: y in hs ==> IsKind(t, y, Element))
    && Titled(t, hs[0], title)
    && (description.Some? ==>
          IsTag(t, hs[1], "p") && Attribute(t, hs[1], "class") == "intro" &&
          FirstLevelText(t, hs[1]) == description.value &&
          forall c :: c in Kids(t, hs[1]) ==> IsKind(t, c, Text))
    && (image.Some? ==>
          var w := hs[|hs| - 1];
          IsTag(t, w, "div") && Attribute(t, w, "id") == "mainImage" && |Kids(t, w)| == 1 &&
          IsTag(t, Kids(t, w)[0], "img") && Attribute(t, Kids(t, w)[0], "src") == image.value)
  }

  lemma HeadsKept(t2: Tree, t1: Tree, hs: seq<NodeId>, title: Option<string>, description: Option<string>, image: Option<string>)
    requires ChildrenPointBack(t1) && Heads(t1, hs, title, description, image) && Grown(t2, t1)
    requires forall i :: 0 <= i < |hs| ==> Kids(t2, hs[i]) == Kids(t1, hs[i])
    ensures Heads(t2, hs, title, description, image)
  {
    assert Kids(t2, hs[0]) == Kids(t1, hs[0]);
    TextKidsDataGrown(t2, t1, Kids(t1, hs[0]));
    if description.Some? {
      assert Kids(t2, hs[1]) == Kids(t1, hs[1]);
      TextKidsDataGrown(t2, t1, Kids(t1, hs[1]));
    }
    if image.Some? {
      assert Kids(t2, hs[|hs| - 1]) == Kids(t1, hs[|hs| - 1]);
    }
  }

  lemma HeadsSnocIntro(t: Tree, hs: seq<NodeId>, p: NodeId, title: Option<string>, description: string)
    requires Heads(t, hs, title, None, None)
    requires IsKind(t, p, Element) && IsTag(t, p, "p") && Attribute(t, p, "class") == "intro"
    requires FirstLevelText(t, p) == description && forall c :: c in Kids(t, p) ==> IsKind(t, c, Text)
    ensures Heads(t, hs + [p], title, Some(description), None)
  {
    assert (hs + [p])[0] == hs[0] && (hs + [p])[1] == p;
  }

  lemma HeadsSnocImage(t: Tree, hs: seq<NodeId>, title: Option<string>, description: Option<string>, w: NodeId, url: string)
    requires Heads(t, hs, title, description, None)
    requires IsKind(t, w, Element) && IsTag(t, w, "div") && Attribute(t, w, "id") == "mainImage"
    requires |Kids(t, w)| == 1 && IsTag(t, Kids(t, w)[0], "img") && Attribute(t, Kids(t, w)[0], "src") == url
    ensures Heads(t, hs + [w], title, description, Some(url))
  {
    var hs' := hs + [w];
    assert hs'[|hs'| - 1] == w;
    assert forall i :: 0 <= i < |hs| ==> hs'[i] == hs[i];
  }

  /** Appending a node without a parent to a node outside hs keeps the
      heads. */
  lemma AttachKeepsHeads(t: Tree, root: NodeId, x: NodeId, hs: seq<NodeId>,
                         title: Option<string>, description: Option<string>, image: Option<string>)
    requires ChildrenPointBack(t) && Heads(t, hs, title, description, image)
    requires root in t.nodes && x in t.nodes && root != x && root !in hs && t.nodes[x].parent == None
    ensures Heads(Append(t, root, x), hs, title, description, image)
  {
    AppendGrown(t, root, x);
    AppendEffect(t, root, x);
    var r := Append(t, root, x);
    forall i | 0 <= i < |hs| ensures Kids(r, hs[i]) == Kids(t, hs[i]) {
      assert hs[i] in hs && hs[i] != root && Some(hs[i]) != t.nodes[x].parent;
    }
    HeadsKept(r, t, hs, title, description, image);
  }

  /** Appending to a node outside hs an element that is no img keeps the
      heads. */
  lemma AppendKeepsHeads(t: Tree, root: NodeId, x: NodeId, hs: seq<NodeId>,
                         title: Option<string>, description: Option<string>, image: Option<string>)
    requires ChildrenPointBack(t) && Heads(t, hs, title, description, image)
    requires root in t.nodes && x in t.nodes && root != x && root !in hs
    requires IsKind(t, x, Element) && !IsTag(t, x, "img")
    ensures Heads(Append(t, root, x), hs, title, description, image)
  {
    AppendGrown(t, root, x);
    forall i | 0 <= i < |hs| ensures Kids(Append(t, root, x), hs[i]) == Kids(t, hs[i]) {
      HeadKids(t, hs, title, description, image, i);
      AppendKids(t, root, x, hs[i]);
      assert x !in Kids(t, hs[i]);
    }
    HeadsKept(Append(t, root, x), t, hs, title, description, image);
  }

  /** Each head holds Text nodes only, or one img. */
  lemma HeadKids(t: Tree, hs: seq<NodeId>, title: Option<string>, description: Option<string>, image: Option<string>, i: nat)
    requires Heads(t, hs, title, description, image) && i < |hs|
    ensures (forall c :: c in Kids(t, hs[i]) ==> IsKind(t, c, Text)) ||
            (|Kids(t, hs[i])| == 1 && IsTag(t, Kids(t, hs[i])[0], "img"))
  {
  }

  /** root.appendChild(x) when root's list is pre + tail: x ends the list
      and the heads are kept. */
  lemma AppendHeads(t: Tree, root: NodeId, x: NodeId, pre: seq<NodeId>, tail: seq<NodeId>,
                    hs: seq<NodeId>, title: Option<string>, description: Option<string>, image: Option<string>)
    requires WellFormed(t) && IsKind(t, root, Element) && x in t.nodes && x != root
    requires Kids(t, root) == pre + tail && x !in tail
    requires Heads(t, hs, title, description, image) && root !in hs
    requires IsKind(t, x, Element) && !IsTag(t, x, "img")
    ensures WellFormed(Append(t, root, x)) && Grown(Append(t, root, x), t)
    ensures Heads(Append(t, root, x), hs, title, description, image)
    ensures Kids(Append(t, root, x), root) == Without(pre, x) + tail + [x]
  {
    AppendWellFormed(t, root, x);
    AppendGrown(t, root, x);
    AppendKeepsHeads(t, root, x, hs, title, description, image);
    AppendKids(t, root, x, root);
    WithoutConcat(pre, tail, x);
  }

  /** The complete list: some earlier children, the heads, the content. */
  lemma HeadsAssembled(t: Tree, root: NodeId, pre: seq<NodeId>, hs: seq<NodeId>, content: NodeId,
                       title: Option<string>, description: Option<string>, image: Option<string>)
    requires Heads(t, hs, title, description, image) && Kids(t, root) == pre + hs + [content]
    ensures Assembled(t, root, content, title, description, image)
  {
    var ks := Kids(t, root);
    var n := |hs| + 1;
    assert ks[|ks| - n] == hs[0];
    if description.Some? { assert ks[|ks| - n + 1] == hs[1]; }
    if image.Some? { assert ks[|ks| - 2] == hs[|hs| - 1]; }
  }

  /** What getMainContent can return: a div or article element of the
      page, or the fallback p. */
  ghost predicate MainCandidate(t: Tree, x: NodeId)
  {
    IsKind(t, x, Element) &&
    (EqualsIgnoreCase(t.nodes[x].tag, "div") || EqualsIgnoreCase(t.nodes[x].tag, "article") || t.nodes[x].tag == "p")
  }

  /** No img and no h1 can be the main content. */
  lemma CandidateTags(t: Tree, x: NodeId)
    requires MainCandidate(t, x)
    ensures !IsTag(t, x, "img") && !IsTag(t, x, "h1")
  {
    assert !EqualsIgnoreCase("img", "div") by { assert FoldCase("img"[0]) != "div"[0]; }
  }

  /** The nodes of t that getMainContent may pick and then clean. */
  ghost function ContentRoots(t: Tree): set<NodeId>
  {
    set x | x in t.nodes && MainCandidate(t, x)
  }

  /** A div or article the scoring picks on the rewrapped page was there
      before: the rewrapping adds only p elements. */
  lemma TopIsOld(t1: Tree, t0: Tree, top: NodeId)
    requires Grown(t1, t0) && NewNodesAre(t1, t0, "p") && IsKind(t1, top, Element)
    requires EqualsIgnoreCase(t1.nodes[top].tag, "div") || EqualsIgnoreCase(t1.nodes[top].tag, "article")
    ensures top in t0.nodes && MainCandidate(t0, top) && MainCandidate(t1, top)
  {
  }

  /** What getMainContent chooses, on the page t0 it starts from, the page
      t1 once the body is rewrapped and the page t it leaves: nothing
      without a body; otherwise a node, the fresh fallback p exactly when
      nothing was scored, else an old node with the largest score, and
      with nothing scored no old child list changes after the rewrapping. */
  ghost predicate ContentChosen(t0: Tree, t1: Tree, t: Tree, r: Result<Option<NodeId>, Fault>)
  {
    var bs := ElementsByTag(t0, t0.docNode, "body");
    && (bs == [] ==> r == Success(None) && t == t0)
    && (bs != [] ==>
          var m := ScoreMap(t1, Candidates(t1, bs[0])).m;
          && WellFormed(t1) && Grown(t1, t0) && NewNodesAre(t1, t0, "p") && OutsideKept(t1, t0, bs[0])
          && r != Success(None)
          && (m == map[] <==> r.Success? && r.value.Some? && r.value.value !in t0.nodes)
          && (r.Success? && r.value.Some? && r.value.value in t0.nodes ==>
                r.value.value in m && forall k :: k in m ==> m[k] <= m[r.value.value])
          && (m == map[] ==>
                && Grown(t, t1) && r.Success? && r.value.Some? && r.value.value !in t1.nodes
                && forall y :: y in t1.nodes ==> Kids(t, y) == Kids(t1, y)))
  }

  /** An old detached element without children is never chosen: a scored
      node is the parent of something on the rewrapped page, and the
      rewrapping leaves detached nodes' child lists alone. */
  lemma EmptyRootNotChosen(t0: Tree, t1: Tree, t: Tree, r: Result<Option<NodeId>, Fault>, root: NodeId)
    requires WellFormed(t0) && ContentChosen(t0, t1, t, r)
    requires root in t0.nodes && t0.nodes[root].parent == None && Kids(t0, root) == []
    ensures r.Success? && r.value.Some? ==> r.value.value != root
  {
    var bs := ElementsByTag(t0, t0.docNode, "body");
    if bs != [] && r.Success? && r.value.Some? && r.value.value in t0.nodes {
      ElementsByTagParented(t0, t0.docNode, "body");
      assert bs[0] in bs;
      assert t1.nodes[root].children == t0.nodes[root].children;
      var m := ScoreMap(t1, Candidates(t1, bs[0])).m;
      ScoredHaveChildren(t1, Candidates(t1, bs[0]));
      assert Kids(t1, r.value.value) != [];
    }
  }

  class ReadableContentExtractor {
    var doc: Document
    var mainContent: Option<NodeId>
    var imageBeforeText: bool
    const resolve: (string, string) -> string

    ghost predicate Valid()
      reads this, doc
    {
      doc.Valid()
    }

    constructor (d: Document, resolve: (string, string) -> string)
      requires d.Valid()
      ensures Valid() && doc == d && mainContent == None && !imageBeforeText && this.resolve == resolve
    {
      doc := d;
      mainContent := None;
      imageBeforeText := false;
      this.resolve := resolve;
    }

    method Reset(d: Document)
      requires d.Valid()
      modifies this
      ensures Valid() && doc == d && mainContent == None && !imageBeforeText
    {
      doc := d;
      imageBeforeText := false;
      mainContent := None;
    }

    /** The static removeChildren: an index loop over the live child list,
        so each removal shifts the next child into the index just passed,
        and only the children at even positions are detached. */
    method RemoveChildrenLive(n: NodeId)
      requires Valid()
      modifies doc
      ensures Valid()
      ensures doc.tree == DetachAll(old(doc.tree), Evens(Kids(old(doc.tree), n)))
      ensures Kids(doc.tree, n) == Odds(Kids(old(doc.tree), n))
      ensures OutsideKept(doc.tree, old(doc.tree), n)
      ensures forall y :: y in old(doc.tree).nodes && y != n ==> Kids(doc.tree, y) == Kids(old(doc.tree), y)
      ensures forall c :: c in Evens(Kids(old(doc.tree), n)) ==> Parent(doc.tree, c) == None
    {
      ghost var t0 := doc.tree;
      ghost var cs := Kids(t0, n);
      var i := 0;
      assert cs[..0] == [] && cs[0..] == cs;
      while i < |Kids(doc.tree, n)|
        invariant doc.Valid() && LiveState(t0, doc.tree, n, cs, i)
        decreases |cs| + 1 - 2 * i
      {
        var c := Kids(doc.tree, n)[i];
        LiveRemovalStep(t0, doc.tree, n, cs, i);
        doc.RemoveFromParent(c);
        i := i + 1;
      }
      LiveDone(t0, doc.tree, n, cs, i);
      RemoveChildrenOutside(t0, n);
    }

    /** killBrWrapPattern(e): the children of e are snapshot; each non-br
        element child is processed first (the recursion is bounded by
        fuel), and when a br child was seen e's children are wrapped into
        paragraphs. Without recursion (fuel 0), e is Wrapped exactly when it
        has a br child and is otherwise left alone. */
    method KillBrWrapPattern(e: NodeId, fuel: nat)
      requires Valid()
      modifies doc
      ensures Valid() && Grown(doc.tree, old(doc.tree)) && NewNodesAre(doc.tree, old(doc.tree), "p")
      ensures fuel == 0 && !HasBr(old(doc.tree), Kids(old(doc.tree), e)) ==> doc.tree == old(doc.tree)
      ensures fuel == 0 && HasBr(old(doc.tree), Kids(old(doc.tree), e)) &&
              IsKind(old(doc.tree), e, Element) && e !in Kids(old(doc.tree), e) ==>
        Wrapped(old(doc.tree), doc.tree, e, Kids(old(doc.tree), e))
      ensures OutsideKept(doc.tree, old(doc.tree), e)
      decreases fuel, 2
    {
      ghost var t0 := doc.tree;
      var children := Kids(doc.tree, e);
      forall x | x in children ensures x in t0.nodes && t0.nodes[x].parent == Some(e) {
        assert x in t0.nodes[e].children;
      }
      var hasBr := false;
      var i := 0;
      while i < |children|
        invariant i <= |children| && Valid() && Grown(doc.tree, t0) && NewNodesAre(doc.tree, t0, "p")
        invariant hasBr <==> HasBr(t0, children[..i])
        invariant fuel == 0 ==> doc.tree == t0
        invariant OutsideKept(doc.tree, t0, e)
      {
        hasBr, i := KillBrStep(t0, e, children, i, hasBr, fuel);
      }
      assert children[..i] == children;
      if hasBr {
        ghost var before := doc.tree;
        WrapBrChildren(e, children, t0);
        GrownTrans(doc.tree, before, t0);
        NewNodesAreTrans(doc.tree, before, t0, "p");
      }
    }

    /** One round of the loop over the snapshot children. */
    method KillBrStep(ghost t0: Tree, ghost e: NodeId, children: seq<NodeId>, i: nat, hasBr: bool, fuel: nat)
      returns (hasBr': bool, i': nat)
      requires i < |children| && children[i] in t0.nodes && t0.nodes[children[i]].parent == Some(e)
      requires OutsideKept(doc.tree, t0, e)
      requires Valid() && Grown(doc.tree, t0) && NewNodesAre(doc.tree, t0, "p")
      requires hasBr == HasBr(t0, children[..i]) && (fuel == 0 ==> doc.tree == t0)
      modifies doc
      ensures i' == i + 1 && Valid() && Grown(doc.tree, t0) && NewNodesAre(doc.tree, t0, "p")
      ensures hasBr' == HasBr(t0, children[..i']) && (fuel == 0 ==> doc.tree == t0)
      ensures OutsideKept(doc.tree, t0, e)
      decreases fuel, 1
    {
      var child := children[i];
      assert children[..i + 1] == children[..i] + [child];
      HasBrSnoc(t0, children[..i], child);
      assert IsBr(doc.tree, child) == IsBr(t0, child);
      ghost var before := doc.tree;
      var isBr := KillBrChild(child, fuel);
      OutsideKeptTrans(doc.tree, before, t0, child, e);
      hasBr' := hasBr || isBr;
      GrownTrans(doc.tree, before, t0);
      NewNodesAreTrans(doc.tree, before, t0, "p");
      i' := i + 1;
    }

    /** One child of the snapshot in killBrWrapPattern: a br is reported,
        any other element is processed recursively while fuel remains. */
    method KillBrChild(child: NodeId, fuel: nat) returns (isBr: bool)
      requires Valid()
      modifies doc
      ensures Valid() && Grown(doc.tree, old(doc.tree)) && NewNodesAre(doc.tree, old(doc.tree), "p")
      ensures isBr == IsBr(old(doc.tree), child)
      ensures fuel == 0 || isBr || !IsKind(old(doc.tree), child, Element) ==> doc.tree == old(doc.tree)
      ensures OutsideKept(doc.tree, old(doc.tree), child)
      decreases fuel, 0
    {
      isBr := false;
      if IsKind(doc.tree, child, Element) {
        if doc.tree.nodes[child].tag == "br" {
          isBr := true;
        } else if fuel > 0 {
          KillBrWrapPattern(child, fuel - 1);
        }
      }
    }

    /** The wrapping half of killBrWrapPattern, run once a br child was
        seen: the live removeChildren on e, then the walk over the snapshot
        cs of e's children. Nothing but fresh p elements is created; when cs
        is e's child list, e ends up Wrapped. */
    method WrapBrChildren(e: NodeId, cs: seq<NodeId>, ghost base: Tree)
      requires Valid() && e in doc.tree.nodes && forall x :: x in cs ==> x in doc.tree.nodes
      requires ChildrenPointBack(base) && base.nodes.Keys <= doc.tree.nodes.Keys && OutsideKept(doc.tree, base, e)
      requires forall x :: x in cs ==> x in base.nodes && base.nodes[x].parent == Some(e)
      modifies doc
      ensures Valid() && Grown(doc.tree, old(doc.tree)) && NewNodesAre(doc.tree, old(doc.tree), "p")
      ensures Kids(old(doc.tree), e) == cs && IsKind(old(doc.tree), e, Element) && e !in cs ==>
        Wrapped(old(doc.tree), doc.tree, e, cs)
      ensures OutsideKept(doc.tree, base, e)
    {
      ghost var t0 := doc.tree;
      ghost var exact := Kids(t0, e) == cs && IsKind(t0, e, Element) && e !in cs;
      RemoveChildrenLive(e);
      OutsideKeptTrans(doc.tree, t0, base, e, e);
      WrapStart(t0, doc.tree, e, cs);
      var p: Option<NodeId> := None;
      ghost var ps: seq<NodeId> := [];
      var k: nat := 0;
      while k < |cs|
        invariant Walk(t0, doc.tree, e, cs, k, ps, p, exact)
        invariant OutsideKept(doc.tree, base, e)
      {
        p, ps, k := WrapChild(t0, e, cs, k, p, ps, exact, base);
      }
      if exact { WrapDone(t0, doc.tree, e, cs, ps, p); }
    }

    /** One step of the walk: a br closes the open paragraph; any other
        child moves to the open paragraph, opened first when there is none. */
    method WrapChild(ghost t0: Tree, e: NodeId, cs: seq<NodeId>, k: nat, p: Option<NodeId>,
                     ghost ps: seq<NodeId>, ghost exact: bool, ghost base: Tree)
      returns (p': Option<NodeId>, ghost ps': seq<NodeId>, k': nat)
      requires k < |cs| && Walk(t0, doc.tree, e, cs, k, ps, p, exact)
      requires ChildrenPointBack(base) && base.nodes.Keys <= t0.nodes.Keys && OutsideKept(doc.tree, base, e)
      requires forall x :: x in cs ==> x in base.nodes && base.nodes[x].parent == Some(e)
      modifies doc
      ensures k' == k + 1 && Walk(t0, doc.tree, e, cs, k', ps', p', exact)
      ensures OutsideKept(doc.tree, base, e)
    {
      k' := k + 1;
      var child := cs[k];
      assert child in t0.nodes && IsBr(doc.tree, child) == IsBr(t0, child);
      if IsBr(doc.tree, child) {
        if exact { WrapBr(t0, doc.tree, e, cs, k, ps, p); }
        p', ps' := None, ps;
      } else {
        ghost var gs: seq<seq<NodeId>>;
        p', ps', gs := OpenParagraph(t0, e, cs, k, p, ps, exact, base);
        MoveChild(t0, cs, k, p'.value, ps', gs, exact, e, base);
      }
    }

    /** if (p == null) p = e.appendChild(doc.createElement("p")). */
    method OpenParagraph(ghost t0: Tree, e: NodeId, cs: seq<NodeId>, k: nat, p: Option<NodeId>,
                         ghost ps: seq<NodeId>, ghost exact: bool, ghost base: Tree)
      returns (p': Option<NodeId>, ghost ps': seq<NodeId>, ghost gs: seq<seq<NodeId>>)
      requires k < |cs| && !IsBr(t0, cs[k]) && Valid() && Grown(doc.tree, t0) && NewNodesAre(doc.tree, t0, "p")
      requires e in t0.nodes
      requires p.Some? ==> p.value in doc.tree.nodes && p.value !in t0.nodes
      requires exact ==> WrapState(t0, doc.tree, e, cs, k, ps, p)
      requires ChildrenPointBack(base) && base.nodes.Keys <= t0.nodes.Keys && OutsideKept(doc.tree, base, e)
      modifies doc
      ensures Valid() && Grown(doc.tree, t0) && NewNodesAre(doc.tree, t0, "p")
      ensures OutsideKept(doc.tree, base, e)
      ensures p'.Some? && p'.value in doc.tree.nodes && p'.value !in t0.nodes
      ensures exact ==> Ready(t0, doc.tree, e, cs, k, ps', gs) && p'.value == ps'[|ps'| - 1]
    {
      p', ps', gs := p, ps, [];
      if p.None? {
        var np;
        np, gs := StartParagraph(t0, e, cs, k, ps, exact, base);
        ps' := ps + [np];
        p' := Some(np);
      } else if exact {
        WrapKeep(t0, doc.tree, e, cs, k, ps, p.value);
        gs := Group(t0, cs[..k]).groups;
      }
    }

    /** The fresh p appended to e when no paragraph is open. */
    method StartParagraph(ghost t0: Tree, e: NodeId, cs: seq<NodeId>, k: nat,
                          ghost ps: seq<NodeId>, ghost exact: bool, ghost base: Tree)
      returns (np: NodeId, ghost gs: seq<seq<NodeId>>)
      requires k < |cs| && !IsBr(t0, cs[k]) && Valid() && Grown(doc.tree, t0) && NewNodesAre(doc.tree, t0, "p")
      requires e in t0.nodes
      requires exact ==> WrapState(t0, doc.tree, e, cs, k, ps, None)
      requires ChildrenPointBack(base) && base.nodes.Keys <= t0.nodes.Keys && OutsideKept(doc.tree, base, e)
      modifies doc
      ensures Valid() && Grown(doc.tree, t0) && NewNodesAre(doc.tree, t0, "p")
      ensures OutsideKept(doc.tree, base, e)
      ensures np in doc.tree.nodes && np !in t0.nodes
      ensures exact ==> Ready(t0, doc.tree, e, cs, k, ps + [np], gs)
    {
      gs := [];
      if exact {
        WrapOpen(t0, doc.tree, e, cs, k, ps);
        gs := Group(t0, cs[..k]).groups + [[]];
      }
      CreateKeeps(t0, doc.tree, "p");
      NewNodeOutside(base, doc.tree, e, Element, "p", "");
      np := doc.CreateElement("p");
      AppendKeeps(t0, doc.tree, e, np, "p");
      AppendOutside(base, doc.tree, e, e, np);
      doc.AppendChild(e, np);
    }

    /** p.appendChild(child) for the non-br child cs[k]. */
    method MoveChild(ghost t0: Tree, cs: seq<NodeId>, k: nat, p: NodeId,
                     ghost ps: seq<NodeId>, ghost gs: seq<seq<NodeId>>, ghost exact: bool, ghost e: NodeId,
                     ghost base: Tree)
      requires k < |cs| && Valid() && Grown(doc.tree, t0) && NewNodesAre(doc.tree, t0, "p")
      requires cs[k] in t0.nodes && p in doc.tree.nodes && p !in t0.nodes
      requires exact ==> Ready(t0, doc.tree, e, cs, k, ps, gs) && p == ps[|ps| - 1]
      requires ChildrenPointBack(base) && base.nodes.Keys <= t0.nodes.Keys && OutsideKept(doc.tree, base, e)
      requires cs[k] in base.nodes && base.nodes[cs[k]].parent == Some(e)
      modifies doc
      ensures Valid() && Grown(doc.tree, t0) && NewNodesAre(doc.tree, t0, "p")
      ensures doc.tree.nodes.Keys == old(doc.tree).nodes.Keys
      ensures exact ==> WrapState(t0, doc.tree, e, cs, k + 1, ps, Some(p))
      ensures OutsideKept(doc.tree, base, e)
    {
      if exact { WrapJoin(t0, doc.tree, e, cs, k, ps, gs); }
      AppendKeeps(t0, doc.tree, p, cs[k], "p");
      AppendOutside(base, doc.tree, e, p, cs[k]);
      doc.AppendChild(p, cs[k]);
    }

    /** killCodeSpansAndBreaks(e): e's children are snapshot and detached
        by the live removeChildren; then br and span children are dropped,
        a p or div child without visible content becomes a " " in the
        collapsed text, any other element child is put back after a text
        node holding the text collected before it, and text children feed
        their whole text to the collector. Only text nodes are created, and
        no other detached node is touched. When the walk does not descend
        (fuel 0), e's final child list is stated exactly: texts are the
        text nodes put before the moved children, rest the last text node
        if one was appended. */
    method KillCodeSpansAndBreaks(e: NodeId, fuel: nat) returns (hasChild: bool, ghost texts: seq<NodeId>, ghost rest: seq<NodeId>)
      requires Valid() && e in doc.tree.nodes
      modifies doc
      ensures Valid() && Grown(doc.tree, old(doc.tree)) && NewNodesAreText(doc.tree, old(doc.tree))
      ensures OutsideKept(doc.tree, old(doc.tree), e)
      ensures fuel == 0 && IsKind(old(doc.tree), e, Element) && e !in Kids(old(doc.tree), e) ==>
        SpansKilled(old(doc.tree), doc.tree, e, texts, rest, hasChild)
      decreases fuel, 4
    {
      ghost var t0 := doc.tree;
      var children := Kids(doc.tree, e);
      ghost var exact := fuel == 0 && IsKind(t0, e, Element) && e !in children;
      var appender := new TA.Appender();
      SpanBegin(e, exact);
      TA.InitInv();
      hasChild, texts := SpanWalk(t0, e, children, appender, fuel, exact);
      hasChild, rest := SpanFinish(t0, e, appender, hasChild, texts, exact);
    }

    /** The walk of killCodeSpansAndBreaks over the snapshot cs of e's
        children, with the collector appender. */
    method SpanWalk(ghost t0: Tree, e: NodeId, cs: seq<NodeId>, appender: TA.Appender, fuel: nat, ghost exact: bool)
      returns (hasChild: bool, ghost texts: seq<NodeId>)
      requires Valid() && Grown(doc.tree, t0) && NewNodesAreText(doc.tree, t0)
      requires WellFormed(t0) && cs == Kids(t0, e) && OutsideKept(doc.tree, t0, e) && TA.Inv(appender.Current())
      requires exact ==> fuel == 0 && IsKind(t0, e, Element) && e !in cs && SpanState(t0, doc.tree, e, cs, 0, [], false)
      modifies doc, appender
      ensures Valid() && Grown(doc.tree, t0) && NewNodesAreText(doc.tree, t0)
      ensures OutsideKept(doc.tree, t0, e) && TA.Inv(appender.Current())
      ensures exact ==> SpanState(t0, doc.tree, e, cs, |cs|, texts, hasChild)
      decreases fuel, 3
    {
      hasChild := false;
      texts := [];
      var k: nat := 0;
      while k < |cs|
        invariant k <= |cs| && Valid() && Grown(doc.tree, t0) && NewNodesAreText(doc.tree, t0)
        invariant OutsideKept(doc.tree, t0, e) && TA.Inv(appender.Current())
        invariant exact ==> SpanState(t0, doc.tree, e, cs, k, texts, hasChild)
      {
        hasChild, texts := SpanChild(t0, e, cs, k, appender, fuel, hasChild, texts, exact);
        k := k + 1;
        assert exact ==> SpanState(t0, doc.tree, e, cs, k, texts, hasChild);
      }
    }

    /** The live removeChildren(e) that starts killCodeSpansAndBreaks. */
    method SpanBegin(e: NodeId, ghost exact: bool)
      requires Valid() && e in doc.tree.nodes
      modifies doc
      ensures Valid() && Grown(doc.tree, old(doc.tree)) && NewNodesAreText(doc.tree, old(doc.tree))
      ensures OutsideKept(doc.tree, old(doc.tree), e)
      ensures exact ==> SpanState(old(doc.tree), doc.tree, e, Kids(old(doc.tree), e), 0, [], false)
    {
      ghost var t0 := doc.tree;
      RemoveChildrenLive(e);
      DetachAllGrown(t0, Evens(Kids(t0, e)));
      DetachAllKeys(t0, Evens(Kids(t0, e)));
      SpanStart(t0, doc.tree, e, Kids(t0, e));
    }

    /** The end of killCodeSpansAndBreaks: the flag takes in the visible
        text still collected, and when the collected text is not empty a
        last text node is appended, holding what a second toString()
        returns. */
    method SpanFinish(ghost t0: Tree, e: NodeId, appender: TA.Appender, hasChild: bool,
                      ghost texts: seq<NodeId>, ghost exact: bool)
      returns (hasChild': bool, ghost rest: seq<NodeId>)
      requires Valid() && Grown(doc.tree, t0) && NewNodesAreText(doc.tree, t0)
      requires WellFormed(t0) && e in t0.nodes && OutsideKept(doc.tree, t0, e) && TA.Inv(appender.Current())
      requires exact ==>
        IsKind(t0, e, Element) && SpanState(t0, doc.tree, e, Kids(t0, e), |Kids(t0, e)|, texts, hasChild)
      modifies doc, appender
      ensures Valid() && Grown(doc.tree, t0) && NewNodesAreText(doc.tree, t0) && OutsideKept(doc.tree, t0, e)
      ensures |rest| <= 1
      ensures exact ==> SpansKilled(t0, doc.tree, e, texts, rest, hasChild')
    {
      ghost var cur := doc.tree;
      ghost var st := appender.Current();
      hasChild' := hasChild || appender.hasVisibleChar;
      rest := [];
      var text := appender.ToString();
      TA.FlushVisible(st);
      if |text| > 0 {
        var again := appender.ToString();
        TA.FlushVisible(TA.Flush(st));
        var x := AppendTextNode(t0, e, again);
        rest := [x];
      }
      if exact { SpanDone(t0, cur, doc.tree, e, texts, rest, hasChild, hasChild'); }
    }

    /** One child of the walk in killCodeSpansAndBreaks: cs is the
        snapshot, k the index, hasChild the flag as it stood before it. */
    method SpanChild(ghost t0: Tree, e: NodeId, cs: seq<NodeId>, k: nat, appender: TA.Appender, fuel: nat,
                     hasChild: bool, ghost texts: seq<NodeId>, ghost exact: bool)
      returns (hasChild': bool, ghost texts': seq<NodeId>)
      requires Valid() && Grown(doc.tree, t0) && NewNodesAreText(doc.tree, t0)
      requires WellFormed(t0) && cs == Kids(t0, e) && k < |cs|
      requires OutsideKept(doc.tree, t0, e) && TA.Inv(appender.Current())
      requires exact ==> fuel == 0 && IsKind(t0, e, Element) && e !in cs && SpanState(t0, doc.tree, e, cs, k, texts, hasChild)
      modifies doc, appender
      ensures Valid() && Grown(doc.tree, t0) && NewNodesAreText(doc.tree, t0)
      ensures OutsideKept(doc.tree, t0, e) && TA.Inv(appender.Current())
      ensures exact ==> SpanState(t0, doc.tree, e, cs, k + 1, texts', hasChild')
      decreases fuel, 2
    {
      var child := cs[k];
      hasChild', texts' := hasChild, texts;
      if IsKind(doc.tree, child, Element) {
        hasChild', texts' := SpanElement(t0, e, cs, k, appender, fuel, hasChild, texts, exact);
      } else if IsKind(doc.tree, child, Text) {
        ghost var st := appender.Current();
        var whole := WholeText(doc.tree, child);
        appender.Append(whole);
        TA.FeedInv(st, whole);
        if exact { SpanKeep(t0, doc.tree, e, cs, k, texts, hasChild); }
      } else if exact {
        SpanKeep(t0, doc.tree, e, cs, k, texts, hasChild);
      }
    }

    /** An element child of the walk: br and span are dropped, the others
        are processed first (bounded by fuel); a p or div with nothing
        visible below it becomes a " ", any other element is put back. */
    method SpanElement(ghost t0: Tree, e: NodeId, cs: seq<NodeId>, k: nat, appender: TA.Appender, fuel: nat,
                       hasChild: bool, ghost texts: seq<NodeId>, ghost exact: bool)
      returns (hasChild': bool, ghost texts': seq<NodeId>)
      requires Valid() && Grown(doc.tree, t0) && NewNodesAreText(doc.tree, t0)
      requires WellFormed(t0) && cs == Kids(t0, e) && k < |cs| && IsKind(doc.tree, cs[k], Element)
      requires OutsideKept(doc.tree, t0, e) && TA.Inv(appender.Current())
      requires exact ==> fuel == 0 && IsKind(t0, e, Element) && e !in cs && SpanState(t0, doc.tree, e, cs, k, texts, hasChild)
      modifies doc, appender
      ensures Valid() && Grown(doc.tree, t0) && NewNodesAreText(doc.tree, t0)
      ensures OutsideKept(doc.tree, t0, e) && TA.Inv(appender.Current())
      ensures exact ==> SpanState(t0, doc.tree, e, cs, k + 1, texts', hasChild')
      decreases fuel, 1
    {
      var child := cs[k];
      KidParent(t0, e, child);
      hasChild', texts' := hasChild, texts;
      var name := doc.tree.nodes[child].tag;
      if name != "br" && name != "span" {
        var hasGChild := SpanDescend(t0, e, child, fuel);
        if (name == "p" || name == "div") && !hasGChild {
          if exact { SpanKeep(t0, doc.tree, e, cs, k, texts, hasChild); }
          SpanBlank(appender);
        } else {
          hasChild', texts' := SpanMoveBack(t0, e, cs, k, appender, texts, hasChild, exact);
          TA.InitInv();
        }
      } else if exact {
        SpanKeep(t0, doc.tree, e, cs, k, texts, hasChild);
      }
    }

    /** The recursive killCodeSpansAndBreaks(child) on a child e had in
        t0, when fuel is left; false otherwise. */
    method SpanDescend(ghost t0: Tree, e: NodeId, child: NodeId, fuel: nat) returns (hasGChild: bool)
      requires Valid() && Grown(doc.tree, t0) && NewNodesAreText(doc.tree, t0)
      requires child in t0.nodes && t0.nodes[child].parent == Some(e) && OutsideKept(doc.tree, t0, e)
      modifies doc
      ensures Valid() && Grown(doc.tree, t0) && NewNodesAreText(doc.tree, t0) && OutsideKept(doc.tree, t0, e)
      ensures fuel == 0 ==> !hasGChild && doc.tree == old(doc.tree)
      decreases fuel, 0
    {
      hasGChild := false;
      if fuel > 0 {
        ghost var before := doc.tree;
        ghost var gt, gr;
        hasGChild, gt, gr := KillCodeSpansAndBreaks(child, fuel - 1);
        GrownTrans(doc.tree, before, t0);
        NewNodesAreTextTrans(doc.tree, before, t0);
        OutsideKeptTrans(doc.tree, before, t0, child, e);
      }
    }

    /** appender.append(" ") for a p or div with nothing visible below. */
    method SpanBlank(appender: TA.Appender)
      requires TA.Inv(appender.Current())
      modifies appender
      ensures TA.Inv(appender.Current())
    {
      ghost var st := appender.Current();
      TA.FeedInv(st, " ");
      appender.Append(" ");
    }

    /** The put-back branch of the walk: a text node with the collected
        text, the collector reset, then the child appended. */
    method SpanMoveBack(ghost t0: Tree, e: NodeId, cs: seq<NodeId>, k: nat, appender: TA.Appender,
                        ghost texts: seq<NodeId>, ghost hasChild: bool, ghost exact: bool)
      returns (hasChild': bool, ghost texts': seq<NodeId>)
      requires Valid() && Grown(doc.tree, t0) && NewNodesAreText(doc.tree, t0)
      requires WellFormed(t0) && cs == Kids(t0, e) && k < |cs|
      requires OutsideKept(doc.tree, t0, e)
      requires exact ==>
        IsKind(t0, e, Element) && e !in cs && MovesBack(t0, cs[k]) && SpanState(t0, doc.tree, e, cs, k, texts, hasChild)
      modifies doc, appender
      ensures Valid() && Grown(doc.tree, t0) && NewNodesAreText(doc.tree, t0)
      ensures OutsideKept(doc.tree, t0, e) && appender.Current() == TA.Init()
      ensures hasChild' == (Kids(doc.tree, cs[k]) != [])
      ensures exact ==> SpanState(t0, doc.tree, e, cs, k + 1, texts', hasChild')
    {
      var child := cs[k];
      KidParent(t0, e, child);
      ghost var cur := doc.tree;
      var text := appender.ToString();
      var x := AppendTextNode(t0, e, text);
      appender.Reset();
      ghost var t1 := doc.tree;
      if child != e { AppendBack(t0, e, child); }
      hasChild' := Kids(doc.tree, child) != [];
      texts' := texts + [x];
      if exact { SpanMove(t0, cur, t1, e, cs, k, texts, hasChild, x); }
    }

    /** e.appendChild(doc.createTextNode(text)): x is the new node, the
        last child of e when e is an element. */
    method AppendTextNode(ghost t0: Tree, e: NodeId, text: string) returns (x: NodeId)
      requires Valid() && Grown(doc.tree, t0) && NewNodesAreText(doc.tree, t0) && e in t0.nodes
      requires ChildrenPointBack(t0) && OutsideKept(doc.tree, t0, e)
      modifies doc
      ensures Valid() && Grown(doc.tree, t0) && NewNodesAreText(doc.tree, t0) && OutsideKept(doc.tree, t0, e)
      ensures Grown(doc.tree, old(doc.tree)) && x !in old(doc.tree).nodes
      ensures IsKind(doc.tree, x, Text) && Data(doc.tree, x) == text
      ensures IsKind(old(doc.tree), e, Element) ==> Kids(doc.tree, e) == Kids(old(doc.tree), e) + [x]
      ensures forall y :: y in old(doc.tree).nodes && y != e ==> Kids(doc.tree, y) == Kids(old(doc.tree), y)
      ensures forall y :: y in old(doc.tree).nodes ==>
        Parent(doc.tree, y) == Parent(old(doc.tree), y) && (IsKind(old(doc.tree), y, Text) ==> IsKind(doc.tree, y, Text))
    {
      TextAppended(t0, doc.tree, e, text);
      x := doc.CreateTextNode(text);
      doc.AppendChild(e, x);
    }

    /** e.appendChild(child) for a child e had in t0, other than e itself. */
    method AppendBack(ghost t0: Tree, e: NodeId, child: NodeId)
      requires Valid() && Grown(doc.tree, t0) && NewNodesAreText(doc.tree, t0)
      requires e in t0.nodes && child in t0.nodes && e != child
      requires ChildrenPointBack(t0) && t0.nodes[child].parent == Some(e) && OutsideKept(doc.tree, t0, e)
      modifies doc
      ensures Valid() && Grown(doc.tree, t0) && NewNodesAreText(doc.tree, t0) && OutsideKept(doc.tree, t0, e)
      ensures doc.tree == Append(old(doc.tree), e, child)
    {
      AppendKeepsText(t0, doc.tree, e, child);
      AppendOutside(t0, doc.tree, e, e, child);
      doc.AppendChild(e, child);
    }

    /** One tag of the duplicate-title pass: an index loop over the live
        list of tag elements under top, removing each whose first-level
        text is the title; a removal shifts the next candidate into the
        index just passed. */
    method RemoveDuplicateHeadings(top: NodeId, tag: string, title: string)
      requires Valid()
      modifies doc
      ensures Valid()
      ensures Pruned(doc.tree, old(doc.tree), TitleCopies(old(doc.tree), tag, title))
      ensures var hs := ElementsByTag(old(doc.tree), top, tag);
        |hs| > 0 && FirstLevelText(old(doc.tree), hs[0]) == title ==> Parent(doc.tree, hs[0]) == None
      ensures doc.tree == LiveRemoval(old(doc.tree), top, tag, TitleTest(title), 0)
    {
      ghost var t0 := doc.tree;
      ghost var hs := ElementsByTag(t0, top, tag);
      ghost var ds := TitleCopies(t0, tag, title);
      ghost var res := LiveRemoval(t0, top, tag, TitleTest(title), 0);
      ghost var firstGoes := |hs| > 0 && FirstLevelText(t0, hs[0]) == title;
      PrunedRefl(t0, ds);
      var i := 0;
      while i < |ElementsByTag(doc.tree, top, tag)|
        invariant doc.Valid() && Pruned(doc.tree, t0, ds)
        invariant i == 0 ==> doc.tree == t0
        invariant i > 0 && firstGoes ==> Parent(doc.tree, hs[0]) == None
        invariant LiveRemoval(doc.tree, top, tag, TitleTest(title), i) == res
        decreases |ElementsByTag(doc.tree, top, tag)| - i
      {
        ghost var cur, i0 := doc.tree, i;
        var candidate := ElementsByTag(doc.tree, top, tag)[i];
        assert MatchesTag(cur, candidate, tag);
        if title == FirstLevelText(doc.tree, candidate) {
          PrunedKeepsFirstLevelText(cur, t0, ds, candidate);
          assert candidate in ds;
          DetachEffect(cur, candidate);
          LiveDetach(t0, cur, candidate, ds, top, tag);
          doc.RemoveFromParent(candidate);
        }
        i := i + 1;
        LiveRemovalAdvance(cur, doc.tree, top, tag, TitleTest(title), i0, i);
      }
      LiveRemovalDone(doc.tree, top, tag, TitleTest(title), i);
    }

    /** The duplicate-title pass over h1, h2 and h3 in turn. */
    method RemoveDuplicateTitle(top: NodeId, title: string)
      requires Valid()
      modifies doc
      ensures Valid()
      ensures Pruned(doc.tree, old(doc.tree), HeadingTitleCopies(old(doc.tree), title))
      ensures TagsKept(doc.tree, old(doc.tree)) && LooseKept(doc.tree, old(doc.tree), {})
      ensures doc.tree == TitleRemoval(old(doc.tree), top, title)
      ensures var hs := ElementsByTag(old(doc.tree), top, "h1");
        |hs| > 0 && FirstLevelText(old(doc.tree), hs[0]) == title ==> Parent(doc.tree, hs[0]) == None
    {
      ghost var t0 := doc.tree;
      RemoveDuplicateHeadings(top, "h1", title);
      ghost var t1 := doc.tree;
      RemoveDuplicateHeadings(top, "h2", title);
      ghost var t2 := doc.tree;
      RemoveDuplicateHeadings(top, "h3", title);
      ghost var hs := ElementsByTag(t0, top, "h1");
      if |hs| > 0 {
        assert MatchesTag(t0, hs[0], "h1");
      }
      TitlePasses(t0, t1, t2, doc.tree, title);
      TitleCopiesLooseKept(doc.tree, t0, title);
    }

    /** The search loop of the duplicate-description pass. */
    method FindBlankParagraph(top: NodeId) returns (candidate: Option<NodeId>)
      requires Valid()
      ensures candidate == FirstBlank(doc.tree, ElementsByTag(doc.tree, top, "p"))
    {
      var ps := ElementsByTag(doc.tree, top, "p");
      candidate := None;
      var i := 0;
      while i < |ps|
        invariant i <= |ps|
        invariant FirstFalse(Visibles(doc.tree, ps), 0) == FirstFalse(Visibles(doc.tree, ps), i)
      {
        if !HasVisibleChar(doc.tree, ps[i], true) {
          candidate := Some(ps[i]);
          return;
        }
        i := i + 1;
      }
    }

    /** The duplicate-description pass: the first p under top with no
        visible character of its own goes when its first-level text is the
        description. */
    method RemoveDuplicateDescription(top: NodeId, description: string)
      requires Valid()
      modifies doc
      ensures Valid()
      ensures var c := FirstBlank(old(doc.tree), ElementsByTag(old(doc.tree), top, "p"));
        doc.tree == if c.Some? && description == FirstLevelText(old(doc.tree), c.value)
                    then Detach(old(doc.tree), c.value) else old(doc.tree)
      ensures TagsKept(doc.tree, old(doc.tree)) && LooseKept(doc.tree, old(doc.tree), {})
    {
      var candidate := FindBlankParagraph(top);
      if candidate.Some? && description == FirstLevelText(doc.tree, candidate.value) {
        ghost var t0 := doc.tree;
        assert MatchesTag(doc.tree, candidate.value, "p");
        DetachGrown(doc.tree, candidate.value);
        DetachPruned(doc.tree, candidate.value, {candidate.value});
        doc.RemoveFromParent(candidate.value);
        PrunedLooseKept(doc.tree, t0, {candidate.value});
      }
    }

    /** clean(e, tagName, minWords): an index loop over the live list of
        tagName elements under e. A table goes when it has fewer than
        minWords td descendants; any other target goes when its textLength
        (always 0) is below minWords and it is not a pre. */
    method Clean(e: NodeId, tag: string, minWords: int)
      requires Valid()
      modifies doc
      ensures Valid()
      ensures Pruned(doc.tree, old(doc.tree), CleanTargets(old(doc.tree), tag, minWords))
      ensures LooseKept(doc.tree, old(doc.tree), {})
      ensures minWords <= 0 ==> doc.tree == old(doc.tree)
      ensures var ts := ElementsByTag(old(doc.tree), e, tag);
        |ts| > 0 && ts[0] in CleanTargets(old(doc.tree), tag, minWords) && !EqualsIgnoreCase(tag, "table") ==>
        Parent(doc.tree, ts[0]) == None
      ensures doc.tree == LiveRemoval(old(doc.tree), e, tag, CleanTest(tag, minWords), 0)
    {
      ghost var t0 := doc.tree;
      ghost var ts := ElementsByTag(t0, e, tag);
      ghost var res := LiveRemoval(t0, e, tag, CleanTest(tag, minWords), 0);
      ghost var targets := CleanTargets(t0, tag, minWords);
      ghost var firstGoes := |ts| > 0 && ts[0] in targets && !EqualsIgnoreCase(tag, "table");
      PrunedRefl(t0, targets);
      var i := 0;
      while i < |ElementsByTag(doc.tree, e, tag)|
        invariant doc.Valid() && Pruned(doc.tree, t0, targets)
        invariant i == 0 || minWords <= 0 ==> doc.tree == t0
        invariant i > 0 && firstGoes ==> Parent(doc.tree, ts[0]) == None
        invariant LiveRemoval(doc.tree, e, tag, CleanTest(tag, minWords), i) == res
        decreases |ElementsByTag(doc.tree, e, tag)| - i
      {
        ghost var cur, i0 := doc.tree, i;
        i := CleanStep(t0, e, tag, minWords, i, ts, firstGoes);
        LiveRemovalAdvance(cur, doc.tree, e, tag, CleanTest(tag, minWords), i0, i);
      }
      LiveRemovalDone(doc.tree, e, tag, CleanTest(tag, minWords), i);
      PrunedLooseKept(doc.tree, t0, targets);
    }

    /** One round of the loop of clean, on the i-th entry of the live list. */
    method CleanStep(ghost t0: Tree, e: NodeId, tag: string, minWords: int, i: nat,
                     ghost ts: seq<NodeId>, ghost firstGoes: bool)
      returns (i': nat)
      requires Valid() && i < |ElementsByTag(doc.tree, e, tag)|
      requires Pruned(doc.tree, t0, CleanTargets(t0, tag, minWords)) && ts == ElementsByTag(t0, e, tag)
      requires firstGoes == (|ts| > 0 && ts[0] in CleanTargets(t0, tag, minWords) && !EqualsIgnoreCase(tag, "table"))
      requires i == 0 || minWords <= 0 ==> doc.tree == t0
      requires i > 0 && firstGoes ==> Parent(doc.tree, ts[0]) == None
      modifies doc
      ensures i' == i + 1 && Valid() && Pruned(doc.tree, t0, CleanTargets(t0, tag, minWords))
      ensures minWords <= 0 ==> doc.tree == t0
      ensures firstGoes ==> Parent(doc.tree, ts[0]) == None
      ensures |ElementsByTag(doc.tree, e, tag)| <= |ElementsByTag(old(doc.tree), e, tag)|
      ensures doc.tree == RemovalRound(old(doc.tree), ElementsByTag(old(doc.tree), e, tag)[i], CleanTest(tag, minWords))
    {
      ghost var cur := doc.tree;
      ghost var targets := CleanTargets(t0, tag, minWords);
      var target := ElementsByTag(doc.tree, e, tag)[i];
      assert MatchesTag(cur, target, tag);
      TextLengthIsZero(cur, target);
      var drop;
      if EqualsIgnoreCase(tag, "table") {
        drop := |ElementsByTag(doc.tree, target, "td")| < minWords;
      } else {
        drop := TextLength(doc.tree, target) < minWords && !EqualsIgnoreCase(doc.tree.nodes[target].tag, "pre");
      }
      if drop {
        assert target in targets;
        DetachEffect(cur, target);
        LiveDetach(t0, cur, target, targets, e, tag);
        doc.RemoveFromParent(target);
      }
      i' := i + 1;
    }

    /** killDivs: an index loop over the live list of divs under e; a div
        goes when the first rule fires, and again when the second does. A
        div the first rule removed has no parent left, so the second
        removal throws a NullPointerException, reported as thrown. */
    method KillDivs(e: NodeId) returns (thrown: bool)
      requires Valid()
      modifies doc
      ensures Valid()
      ensures Pruned(doc.tree, old(doc.tree), Divs(old(doc.tree))) && LooseKept(doc.tree, old(doc.tree), {})
      ensures var ds := ElementsByTag(old(doc.tree), e, "div");
        |ds| > 0 && (Rule1Fires(old(doc.tree), ds[0]) || Rule2Fires(old(doc.tree), ds[0])) ==>
        Parent(doc.tree, ds[0]) == None
      ensures var ds := ElementsByTag(old(doc.tree), e, "div");
        |ds| > 0 && Rule1Fires(old(doc.tree), ds[0]) && Rule2Fires(old(doc.tree), ds[0]) ==> thrown
      ensures (doc.tree, thrown) == LiveKillDivs(old(doc.tree), e, 0)
    {
      ghost var t0 := doc.tree;
      ghost var ds := ElementsByTag(t0, e, "div");
      ghost var divs := Divs(t0);
      ghost var firstGoes := |ds| > 0 && (Rule1Fires(t0, ds[0]) || Rule2Fires(t0, ds[0]));
      ghost var firstThrows := |ds| > 0 && Rule1Fires(t0, ds[0]) && Rule2Fires(t0, ds[0]);
      ghost var res := LiveKillDivs(t0, e, 0);
      PrunedRefl(t0, divs);
      thrown := false;
      var i := 0;
      while i < |ElementsByTag(doc.tree, e, "div")| && !thrown
        invariant doc.Valid() && Pruned(doc.tree, t0, divs)
        invariant i == 0 ==> doc.tree == t0 && !thrown
        invariant i > 0 && firstGoes ==> Parent(doc.tree, ds[0]) == None
        invariant i > 0 && firstThrows ==> thrown
        invariant KillDivsFrom(doc.tree, e, i, thrown, res)
        decreases |ElementsByTag(doc.tree, e, "div")| - i
      {
        ghost var cur, i0 := doc.tree, i;
        thrown, i := KillDivStep(t0, e, i, ds, firstGoes, firstThrows);
        KillDivsAdvance(cur, doc.tree, e, i0, i, thrown, res);
      }
      PrunedLooseKept(doc.tree, t0, divs);
    }

    /** One round of the killDivs loop, on the i-th entry of the live list. */
    method KillDivStep(ghost t0: Tree, e: NodeId, i: nat, ghost ds: seq<NodeId>, ghost firstGoes: bool, ghost firstThrows: bool)
      returns (thrown: bool, i': nat)
      requires Valid() && i < |ElementsByTag(doc.tree, e, "div")|
      requires Pruned(doc.tree, t0, Divs(t0)) && ds == ElementsByTag(t0, e, "div")
      requires firstGoes == (|ds| > 0 && (Rule1Fires(t0, ds[0]) || Rule2Fires(t0, ds[0])))
      requires firstThrows == (|ds| > 0 && Rule1Fires(t0, ds[0]) && Rule2Fires(t0, ds[0]))
      requires i == 0 ==> doc.tree == t0
      requires i > 0 && firstGoes ==> Parent(doc.tree, ds[0]) == None
      modifies doc
      ensures i' == i + 1 && Valid() && Pruned(doc.tree, t0, Divs(t0))
      ensures firstGoes ==> Parent(doc.tree, ds[0]) == None
      ensures i == 0 && firstThrows ==> thrown
      ensures |ElementsByTag(doc.tree, e, "div")| <= |ElementsByTag(old(doc.tree), e, "div")|
      ensures (doc.tree, thrown) == KillDivEffect(old(doc.tree), ElementsByTag(old(doc.tree), e, "div")[i])
    {
      ghost var cur := doc.tree;
      ghost var divs := Divs(t0);
      var div := ElementsByTag(doc.tree, e, "div")[i];
      assert MatchesTag(cur, div, "div");
      thrown := KillDiv(divs, e, div);
      if i > 0 && firstGoes {
        assert Parent(cur, ds[0]) == None;
      }
      PrunedTrans(doc.tree, cur, t0, divs);
      i' := i + 1;
    }

    /** One pass of the killDivs loop on div: the first rule, then the
        second on the same div. */
    method KillDiv(ghost divs: set<NodeId>, e: NodeId, div: NodeId) returns (thrown: bool)
      requires Valid() && div in doc.tree.nodes && div in divs
      modifies doc
      ensures Valid() && Pruned(doc.tree, old(doc.tree), divs)
      ensures |ElementsByTag(doc.tree, e, "div")| <= |ElementsByTag(old(doc.tree), e, "div")|
      ensures Rule1Fires(old(doc.tree), div) || Rule2Fires(old(doc.tree), div) ==> Parent(doc.tree, div) == None
      ensures Rule1Fires(old(doc.tree), div) && Rule2Fires(old(doc.tree), div) ==> thrown
      ensures (doc.tree, thrown) == KillDivEffect(old(doc.tree), div)
    {
      ghost var cur := doc.tree;
      PrunedRefl(cur, divs);
      var rule1 := Rule1Fires(doc.tree, div);
      if rule1 {
        RemoveDiv(divs, e, div);
      }
      ghost var mid := doc.tree;
      assert Attribute(mid, div, "id") == Attribute(cur, div, "id");
      thrown := false;
      if Rule2Fires(doc.tree, div) {
        if Parent(doc.tree, div) == None {
          thrown := true;
        } else {
          RemoveDiv(divs, e, div);
          PrunedTrans(doc.tree, mid, cur, divs);
        }
      }
    }

    /** div.getParentNode().removeChild(div) inside the killDivs loop. */
    method RemoveDiv(ghost divs: set<NodeId>, e: NodeId, div: NodeId)
      requires Valid() && div in doc.tree.nodes && div in divs
      modifies doc
      ensures Valid() && doc.tree == Detach(old(doc.tree), div)
      ensures Pruned(doc.tree, old(doc.tree), divs) && Parent(doc.tree, div) == None
      ensures doc.tree.nodes[div].attrs == old(doc.tree).nodes[div].attrs
      ensures |ElementsByTag(doc.tree, e, "div")| <= |ElementsByTag(old(doc.tree), e, "div")|
    {
      ghost var cur := doc.tree;
      PrunedRefl(cur, divs);
      DetachEffect(cur, div);
      LiveDetach(cur, cur, div, divs, e, "div");
      doc.RemoveFromParent(div);
    }

    /** cleanIrrelevantImages: an index loop over the live list of images
        under root. An image whose width or height starts with a number
        below 70 is removed; any other has a non-empty data-src moved to
        src and its src resolved against the document's base URI. */
    method CleanIrrelevantImages(root: NodeId)
      requires Valid()
      modifies doc
      ensures Valid()
      ensures ImagesCleaned(doc.tree, old(doc.tree), doc.baseUri, resolve) && LooseKept(doc.tree, old(doc.tree), {})
      ensures var ims := ElementsByTag(old(doc.tree), root, "img");
        |ims| > 0 && SmallImage(old(doc.tree), ims[0]) ==> Parent(doc.tree, ims[0]) == None
      ensures var ims := ElementsByTag(old(doc.tree), root, "img");
        |ims| > 0 && !SmallImage(old(doc.tree), ims[0]) ==>
          ims[0] in old(doc.tree).nodes &&
          Rewritten(doc.tree.nodes[ims[0]].attrs, old(doc.tree).nodes[ims[0]].attrs, doc.baseUri, resolve)
    {
      ghost var t0 := doc.tree;
      ghost var ims := ElementsByTag(t0, root, "img");
      ghost var firstGoes := |ims| > 0 && SmallImage(t0, ims[0]);
      ghost var firstKept := |ims| > 0 && !SmallImage(t0, ims[0]);
      if |ims| > 0 {
        assert MatchesTag(t0, ims[0], "img");
      }
      ImagesCleanedRefl(t0, doc.baseUri, resolve);
      var i := 0;
      while i < |ElementsByTag(doc.tree, root, "img")|
        invariant doc.Valid() && ImagesCleaned(doc.tree, t0, doc.baseUri, resolve)
        invariant i == 0 ==> doc.tree == t0
        invariant i > 0 && firstGoes ==> Parent(doc.tree, ims[0]) == None
        invariant i > 0 && firstKept ==>
          Rewritten(doc.tree.nodes[ims[0]].attrs, t0.nodes[ims[0]].attrs, doc.baseUri, resolve)
        decreases |ElementsByTag(doc.tree, root, "img")| - i
      {
        ghost var cur := doc.tree;
        var image := ElementsByTag(doc.tree, root, "img")[i];
        assert MatchesTag(cur, image, "img");
        CleanImage(root, image);
        ImagesCleanedTrans(doc.tree, cur, t0, doc.baseUri, resolve);
        if firstKept {
          if i == 0 {
            ImageRewrittenEffect(cur, image, doc.baseUri, resolve);
            RewriteImageRewrites(cur.nodes[image].attrs, doc.baseUri, resolve);
          } else {
            CleanedStaysRewritten(doc.tree, cur, t0, ims[0], doc.baseUri, resolve);
          }
        }
        i := i + 1;
      }
      ImagesCleanedLooseKept(doc.tree, t0, doc.baseUri, resolve);
    }

    /** The loop body of cleanIrrelevantImages on one image. */
    method CleanImage(root: NodeId, image: NodeId)
      requires Valid() && IsTag(doc.tree, image, "img")
      modifies doc
      ensures Valid() && ImagesCleaned(doc.tree, old(doc.tree), doc.baseUri, resolve)
      ensures SmallImage(old(doc.tree), image) ==> Parent(doc.tree, image) == None
      ensures !SmallImage(old(doc.tree), image) ==> doc.tree == ImageRewritten(old(doc.tree), image, doc.baseUri, resolve)
      ensures |ElementsByTag(doc.tree, root, "img")| <= |ElementsByTag(old(doc.tree), root, "img")|
    {
      ghost var cur := doc.tree;
      if TooSmall(doc.tree.nodes[image].attrs) {
        DetachEffect(cur, image);
        DetachSmallCleans(cur, image, doc.baseUri, resolve);
        DetachShrinks(cur, image);
        ElementsByTagShrinks(Detach(cur, image), cur, root, "img");
        doc.RemoveFromParent(image);
      } else {
        RewriteImageAt(image);
        RewriteCleans(cur, image, doc.baseUri, resolve);
        ImageRewrittenShape(cur, image, doc.baseUri, resolve);
        ElementsByTagSameShape(doc.tree, cur, root, "img");
      }
    }

    /** The attribute edits on one kept image. */
    method RewriteImageAt(image: NodeId)
      requires Valid()
      modifies doc
      ensures Valid() && doc.tree == ImageRewritten(old(doc.tree), image, doc.baseUri, resolve)
    {
      var copy := Attribute(doc.tree, image, "data-src");
      if copy != "" {
        doc.SetAttribute(image, "src", copy);
        doc.RemoveAttribute(image, "data-src");
      }
      var absolute := Attribute(doc.tree, image, "src");
      doc.SetAttribute(image, "src", resolve(doc.baseUri, absolute));
    }

    /** cleanIrrelevantAttributes: a walk over the elements under root in
        document order. A p with more than 20 characters of first-level
        text marks that a paragraph was found; an img met before that sets
        imageBeforeText. Every element's attributes go through the live
        NamedNodeMap loop. */
    method CleanIrrelevantAttributes(root: NodeId)
      requires Valid()
      modifies this, doc
      ensures Valid() && doc == old(doc) && mainContent == old(mainContent)
      ensures SameShape(doc.tree, old(doc.tree)) && LooseKept(doc.tree, old(doc.tree), {})
      ensures forall id :: id in old(doc.tree).nodes && doc.tree.nodes[id].attrs != old(doc.tree).nodes[id].attrs ==>
        id in ElementsByTag(old(doc.tree), root, "*") &&
        AttrsPruned(doc.tree.nodes[id].attrs, old(doc.tree).nodes[id].attrs)
      ensures imageBeforeText ==
        (old(imageBeforeText) || ImageBeforeText(old(doc.tree), ElementsByTag(old(doc.tree), root, "*")))
    {
      ghost var t0 := doc.tree;
      var w := ElementsByTag(doc.tree, root, "*");
      imageBeforeText := CleanWalk(w, imageBeforeText);
      ElementsByTagParented(t0, root, "*");
      AttrEditsLooseKept(doc.tree, t0, w);
    }

    /** The walk of cleanIrrelevantAttributes over the elements w, starting
        with the given imageBeforeText. */
    method CleanWalk(w: seq<NodeId>, ib0: bool) returns (ib: bool)
      requires Valid() && forall j :: 0 <= j < |w| ==> MatchesTag(doc.tree, w[j], "*")
      modifies doc
      ensures Valid() && AttrsCleaned(doc.tree, old(doc.tree), w)
      ensures ib == (ib0 || ImageBeforeText(old(doc.tree), w))
    {
      ghost var t0 := doc.tree;
      ib := ib0;
      var foundParagraph := false;
      var k := 0;
      assert w[..0] == [];
      while k < |w|
        invariant 0 <= k <= |w|
        invariant Valid() && AttrsCleaned(doc.tree, t0, w[..k])
        invariant foundParagraph == FoundParagraph(t0, w[..k])
        invariant ib == (ib0 || ImageBeforeText(t0, w[..k]))
      {
        foundParagraph, ib, k := CleanElement(t0, w, k, foundParagraph, ib0, ib);
      }
      assert w[..k] == w;
    }

    /** One round of the walk: the tests on the k-th element, then the live
        NamedNodeMap loop over its attributes. */
    method CleanElement(ghost t0: Tree, w: seq<NodeId>, k: nat, found: bool, ghost ib0: bool, ib: bool)
      returns (found2: bool, ib2: bool, k': nat)
      requires k < |w| && Valid() && AttrsCleaned(doc.tree, t0, w[..k]) && MatchesTag(t0, w[k], "*")
      requires found == FoundParagraph(t0, w[..k]) && ib == (ib0 || ImageBeforeText(t0, w[..k]))
      modifies doc
      ensures k' == k + 1 && Valid() && AttrsCleaned(doc.tree, t0, w[..k'])
      ensures found2 == FoundParagraph(t0, w[..k']) && ib2 == (ib0 || ImageBeforeText(t0, w[..k']))
    {
      ghost var cur := doc.tree;
      var el := w[k];
      found2, ib2 := Visit(t0, w, k, found, ib0, ib);
      PruneAttributes(el);
      AttrsCleanedStep(t0, cur, doc.tree, w, k);
      k' := k + 1;
    }

    /** The tests of the walk on its k-th element. */
    method Visit(ghost t0: Tree, w: seq<NodeId>, k: nat, found: bool, ghost ib0: bool, ib: bool)
      returns (found2: bool, ib2: bool)
      requires Valid() && SameShape(doc.tree, t0) && k < |w| && IsKind(t0, w[k], Element)
      requires found == FoundParagraph(t0, w[..k]) && ib == (ib0 || ImageBeforeText(t0, w[..k]))
      ensures found2 == FoundParagraph(t0, w[..k + 1])
      ensures ib2 == (ib0 || ImageBeforeText(t0, w[..k + 1]))
    {
      var el := w[k];
      FirstLevelTextSameShape(doc.tree, t0, el);
      WalkStep(t0, w, k);
      found2, ib2 := found, ib;
      var tagName := doc.tree.nodes[el].tag;
      assert IsTag(t0, el, "p") == (tagName == "p") && IsTag(t0, el, "img") == (tagName == "img");
      if tagName == "p" && |FirstLevelText(doc.tree, el)| > 20 {
        found2 := true;
      } else if tagName == "img" && !found {
        ib2 := true;
      }
    }

    /** The loop over one element's live NamedNodeMap. */
    method PruneAttributes(el: NodeId)
      requires Valid() && el in doc.tree.nodes
      modifies doc
      ensures Valid()
      ensures LivePruned(doc.tree, old(doc.tree), el)
    {
      ghost var t0 := doc.tree;
      ghost var cur := t0.nodes[el].attrs;
      WithAttrsSame(t0, el);
      var j := 0;
      while j < |doc.tree.nodes[el].attrs|
        invariant doc.Valid() && doc.tree == WithAttrs(t0, el, cur)
        invariant doc.tree.nodes[el].attrs == cur
        invariant LivePrune(cur, j) == LivePrune(t0.nodes[el].attrs, 0)
        decreases |cur| - j
      {
        var attribute := doc.tree.nodes[el].attrs[j];
        if Removable(attribute) {
          WithAttrsRemove(t0, el, cur, attribute.name);
          doc.RemoveAttribute(el, attribute.name);
          cur := RemoveAttr(cur, attribute.name);
        }
        j := j + 1;
      }
    }

    /** The clean calls getMainContent applies to the selected top node. */
    method CleanTags(top: NodeId)
      requires Valid()
      modifies doc
      ensures Valid() && TagsKept(doc.tree, old(doc.tree)) && LooseKept(doc.tree, old(doc.tree), {})
    {
      ghost var t0 := doc.tree;
      CleanKept(top, "form", DefaultMinWords, t0);
      CleanKept(top, "nav", DefaultMinWords, t0);
      CleanKept(top, "table", 8, t0);
      CleanKept(top, "iframe", DefaultMinWords, t0);
      CleanKept(top, "font", DefaultMinWords, t0);
      CleanKept(top, "script", DefaultMinWords, t0);
      CleanKept(top, "aside", DefaultMinWords, t0);
      CleanKept(top, "button", DefaultMinWords, t0);
      CleanKept(top, "hr", DefaultMinWords, t0);
    }

    /** One clean call, with its frame carried back to the tree t0 the
        sequence started from. */
    method CleanKept(top: NodeId, tag: string, minWords: int, ghost t0: Tree)
      requires Valid() && TagsKept(doc.tree, t0) && LooseKept(doc.tree, t0, {})
      modifies doc
      ensures Valid() && TagsKept(doc.tree, t0) && LooseKept(doc.tree, t0, {})
    {
      ghost var t1 := doc.tree;
      Clean(top, tag, minWords);
      TagsKeptTrans(doc.tree, t1, t0);
      LooseKeptTrans(doc.tree, t1, t0, {}, {}, {});
    }

    /** The cleaning sequence getMainContent applies to the selected top
        node: the clean calls, killDivs, killCodeSpansAndBreaks,
        cleanIrrelevantImages and cleanIrrelevantAttributes. A
        NullPointerException in killDivs ends the sequence there. */
    method SanitizeTop(top: NodeId) returns (thrown: bool)
      requires Valid() && top in doc.tree.nodes
      modifies this, doc
      ensures Valid() && doc == old(doc) && mainContent == old(mainContent)
      ensures TagsKept(doc.tree, old(doc.tree)) && LooseKept(doc.tree, old(doc.tree), {top})
    {
      ghost var t0 := doc.tree;
      CleanTags(top);
      ghost var t1 := doc.tree;
      thrown := KillDivs(top);
      TagsKeptTrans(doc.tree, t1, t0);
      LooseKeptTrans(doc.tree, t1, t0, {}, {}, {top});
      if thrown { return; }
      ghost var t2 := doc.tree;
      var _, _, _ := KillCodeSpansAndBreaks(top, doc.tree.next);
      GrownOutsideLooseKept(doc.tree, t2, top);
      TagsKeptTrans(doc.tree, t2, t0);
      LooseKeptTrans(doc.tree, t2, t0, {top}, {top}, {top});
      ghost var t3 := doc.tree;
      CleanIrrelevantImages(top);
      TagsKeptTrans(doc.tree, t3, t0);
      LooseKeptTrans(doc.tree, t3, t0, {}, {top}, {top});
      ghost var t4 := doc.tree;
      CleanIrrelevantAttributes(top);
      TagsKeptTrans(doc.tree, t4, t0);
      LooseKeptTrans(doc.tree, t4, t0, {}, {top}, {top});
    }

    /** The passes getMainContent applies to the selected node: the
        sanitizing sequence, then the duplicate title and description. */
    method FinishTop(top: NodeId, title: Option<string>, description: Option<string>) returns (thrown: bool)
      requires Valid() && top in doc.tree.nodes
      modifies this, doc
      ensures Valid() && doc == old(doc) && mainContent == old(mainContent)
      ensures TagsKept(doc.tree, old(doc.tree)) && LooseKept(doc.tree, old(doc.tree), {top})
    {
      thrown := SanitizeTop(top);
      if thrown { return; }
      ghost var t2 := doc.tree;
      if title.Some? {
        RemoveDuplicateTitle(top, title.value);
        LooseKeptTrans(doc.tree, t2, old(doc.tree), {}, {top}, {top});
      }
      ghost var t3 := doc.tree;
      TagsKeptTrans(t3, t2, old(doc.tree));
      if description.Some? {
        RemoveDuplicateDescription(top, description.value);
        LooseKeptTrans(doc.tree, t3, old(doc.tree), {}, {top}, {top});
      }
      TagsKeptTrans(doc.tree, t3, old(doc.tree));
    }

    /** getMainContent(title, description): null without a body; the body
        is rewrapped, its candidates scored, and the best-scoring node is
        sanitized and stripped of duplicate headings and description; a
        fresh p carries the fallback text when nothing was scored. The
        ghost t1 is the page once the body is rewrapped, the tree the
        scores are computed on. */
    method GetMainContent(title: Option<string>, description: Option<string>)
      returns (r: Result<Option<NodeId>, Fault>, ghost t1: Tree)
      requires Valid()
      modifies this, doc
      ensures Valid() && doc == old(doc) && mainContent == old(mainContent)
      ensures r.Failure? ==> r.error == NullPointer
      ensures TagsKept(doc.tree, old(doc.tree))
      ensures LooseKept(doc.tree, old(doc.tree), ContentRoots(old(doc.tree)))
      ensures r.Success? && r.value.Some? ==> LooseKept(doc.tree, old(doc.tree), {r.value.value})
      ensures r.Success? && r.value.Some? ==> r.value.value in doc.tree.nodes
      ensures r.Success? && r.value.Some? ==> MainCandidate(doc.tree, r.value.value)
      ensures r.Success? && r.value.Some? && r.value.value !in old(doc.tree).nodes ==>
        IsTag(doc.tree, r.value.value, "p") && FirstLevelText(doc.tree, r.value.value) == Fallback
      ensures ContentChosen(old(doc.tree), t1, doc.tree, r)
    {
      ghost var t0 := doc.tree;
      t1 := doc.tree;
      var bodies := ElementsByTag(doc.tree, doc.tree.docNode, "body");
      if |bodies| == 0 {
        return Success(None), t1;
      }
      var body := bodies[0];
      ElementsByTagParented(t0, t0.docNode, "body");
      KillBrWrapPattern(body, doc.tree.next);
      t1 := doc.tree;
      assert TagsKept(t1, t0);
      GrownOutsideLooseKept(t1, t0, body);
      assert LooseKept(t1, t0, {});
      r := SelectAndFinish(body, title, description, t0);
    }

    /** Lines 119-205 of getMainContent, on the rewrapped page (t0 is the
        page before the rewrapping): the best-scoring candidate of the body
        is finished, or the fallback p is made when nothing was scored. */
    method SelectAndFinish(body: NodeId, title: Option<string>, description: Option<string>, ghost t0: Tree)
      returns (r: Result<Option<NodeId>, Fault>)
      requires Valid() && Grown(doc.tree, t0) && NewNodesAre(doc.tree, t0, "p")
      requires TagsKept(doc.tree, t0) && LooseKept(doc.tree, t0, {})
      modifies this, doc
      ensures Valid() && doc == old(doc) && mainContent == old(mainContent)
      ensures r.Failure? ==> r.error == NullPointer
      ensures TagsKept(doc.tree, t0) && LooseKept(doc.tree, t0, ContentRoots(t0))
      ensures r.Success? ==> r.value.Some? && LooseKept(doc.tree, t0, {r.value.value})
      ensures r.Success? ==> r.value.Some? && r.value.value in doc.tree.nodes && MainCandidate(doc.tree, r.value.value)
      ensures r.Success? && r.value.value !in t0.nodes ==>
        IsTag(doc.tree, r.value.value, "p") && FirstLevelText(doc.tree, r.value.value) == Fallback
      ensures var m := ScoreMap(old(doc.tree), Candidates(old(doc.tree), body)).m;
        (m == map[] <==> r.Success? && r.value.value !in t0.nodes)
      ensures var m := ScoreMap(old(doc.tree), Candidates(old(doc.tree), body)).m;
        r.Success? && r.value.value in t0.nodes ==> r.value.value in m && forall k :: k in m ==> m[k] <= m[r.value.value]
      ensures ScoreMap(old(doc.tree), Candidates(old(doc.tree), body)).m == map[] ==>
        && Grown(doc.tree, old(doc.tree)) && r.value.value !in old(doc.tree).nodes
        && forall y :: y in old(doc.tree).nodes ==> Kids(doc.tree, y) == Kids(old(doc.tree), y)
    {
      ghost var t1 := doc.tree;
      var top := TopCandidate(doc.tree, body);
      if top.None? {
        var p := FallbackParagraph();
        TagsKeptTrans(doc.tree, t1, t0);
        LooseKeptTrans(doc.tree, t1, t0, {}, {}, ContentRoots(t0));
        LooseKeptTrans(doc.tree, t1, t0, {}, {}, {p});
        return Success(Some(p));
      }
      var topDiv := top.value;
      TopIsOld(t1, t0, topDiv);
      var thrown := FinishTop(topDiv, title, description);
      TagsKeptTrans(doc.tree, t1, t0);
      LooseKeptTrans(doc.tree, t1, t0, {topDiv}, {}, ContentRoots(t0));
      if thrown {
        return Failure(NullPointer);
      }
      LooseKeptTrans(doc.tree, t1, t0, {topDiv}, {}, {topDiv});
      return Success(Some(topDiv));
    }

    /** The detached p whose text is the fallback message; nothing else of
        the page changes. */
    method FallbackParagraph() returns (p: NodeId)
      requires Valid()
      modifies doc
      ensures Valid() && Grown(doc.tree, old(doc.tree)) && p !in old(doc.tree).nodes
      ensures forall y :: y in old(doc.tree).nodes ==> Kids(doc.tree, y) == Kids(old(doc.tree), y)
      ensures LooseKept(doc.tree, old(doc.tree), {})
      ensures p in doc.tree.nodes && IsKind(doc.tree, p, Element) && IsTag(doc.tree, p, "p")
      ensures FirstLevelText(doc.tree, p) == Fallback
    {
      NewNodeGrown(doc.tree, Element, "p", "");
      p := doc.CreateElement("p");
      ghost var t2 := doc.tree;
      assert OutsideKept(t2, old(doc.tree), p);
      SetTextContentEffect(t2, p, Some(Fallback));
      SetTextContentOutside(t2, p, Some(Fallback));
      doc.SetText(p, Some(Fallback));
      GrownTrans(doc.tree, t2, old(doc.tree));
      OutsideKeptTrans(doc.tree, t2, old(doc.tree), p, p);
      GrownOutsideLooseKept(doc.tree, old(doc.tree), p);
      assert LooseKept(doc.tree, old(doc.tree), {});
    }

    /** createElement(tag) followed by setAttribute(name, value). */
    method NewElement(tag: string, name: string, value: string) returns (x: NodeId)
      requires Valid()
      modifies doc
      ensures Valid() && x !in old(doc.tree).nodes && IsKind(doc.tree, x, Element) && IsTag(doc.tree, x, tag)
      ensures Attribute(doc.tree, x, name) == value && doc.tree.nodes[x].children == []
      ensures doc.tree.nodes[x].parent == None
      ensures Grown(doc.tree, old(doc.tree))
      ensures forall y :: y in old(doc.tree).nodes ==> Kids(doc.tree, y) == Kids(old(doc.tree), y)
      ensures OutsideKept(doc.tree, old(doc.tree), x)
    {
      NewNodeGrown(doc.tree, Element, tag, "");
      x := doc.CreateElement(tag);
      doc.SetAttribute(x, name, value);
    }

    /** A detached p.intro whose text is the description. */
    method MakeIntro(description: string, ghost root: NodeId, ghost pre: seq<NodeId>, ghost hs: seq<NodeId>, ghost title: Option<string>)
      returns (intro: NodeId)
      requires Valid() && root in doc.tree.nodes
      requires Kids(doc.tree, root) == pre + hs && Heads(doc.tree, hs, title, None, None)
      modifies doc
      ensures Valid() && Grown(doc.tree, old(doc.tree)) && intro !in old(doc.tree).nodes
      ensures IsKind(doc.tree, intro, Element) && IsTag(doc.tree, intro, "p")
      ensures Kids(doc.tree, root) == pre + hs && Heads(doc.tree, hs + [intro], title, Some(description), None)
    {
      assert forall i :: 0 <= i < |hs| ==> hs[i] in old(doc.tree).nodes;
      intro := NewElement("p", "class", "intro");
      ghost var t1 := doc.tree;
      HeadsKept(t1, old(doc.tree), hs, title, None, None);
      SetTextContentEffect(t1, intro, Some(description));
      doc.SetText(intro, Some(description));
      assert forall i :: 0 <= i < |hs| ==> Kids(doc.tree, hs[i]) == Kids(t1, hs[i]);
      HeadsKept(doc.tree, t1, hs, title, None, None);
      HeadsSnocIntro(doc.tree, hs, intro, title, description);
      GrownTrans(doc.tree, t1, old(doc.tree));
    }

    /** The description paragraph of extract, appended to root. Nothing
        happens without a description. */
    method AttachIntro(root: NodeId, description: Option<string>, ghost pre: seq<NodeId>, ghost hs: seq<NodeId>, ghost title: Option<string>)
      returns (ghost pre2: seq<NodeId>, ghost hs2: seq<NodeId>)
      requires Valid() && IsKind(doc.tree, root, Element) && root !in hs
      requires Kids(doc.tree, root) == pre + hs && Heads(doc.tree, hs, title, None, None)
      modifies doc
      ensures Valid() && Grown(doc.tree, old(doc.tree)) && root !in hs2
      ensures forall y :: y in hs2 ==> y in hs || y !in old(doc.tree).nodes
      ensures Kids(doc.tree, root) == pre2 + hs2 && Heads(doc.tree, hs2, title, description, None)
      ensures pre == [] ==> pre2 == []
    {
      pre2, hs2 := pre, hs;
      if description.None? { return; }
      var intro := MakeIntro(description.value, root, pre, hs, title);
      ghost var t2 := doc.tree;
      hs2 := hs + [intro];
      pre2 := AppendHead(root, intro, pre, hs, hs2, description, None, title);
      GrownTrans(doc.tree, t2, old(doc.tree));
    }

    /** A detached div#mainImage holding an img whose src is url. */
    method MakeWrapper(url: string) returns (wrapper: NodeId)
      requires Valid()
      modifies doc
      ensures Valid() && Grown(doc.tree, old(doc.tree)) && wrapper !in old(doc.tree).nodes
      ensures IsKind(doc.tree, wrapper, Element) && IsTag(doc.tree, wrapper, "div")
      ensures Attribute(doc.tree, wrapper, "id") == "mainImage" && |Kids(doc.tree, wrapper)| == 1
      ensures IsTag(doc.tree, Kids(doc.tree, wrapper)[0], "img")
      ensures Attribute(doc.tree, Kids(doc.tree, wrapper)[0], "src") == url
      ensures forall y :: y in old(doc.tree).nodes ==> Kids(doc.tree, y) == Kids(old(doc.tree), y)
    {
      wrapper := NewElement("div", "id", "mainImage");
      ghost var t0 := doc.tree;
      var image := NewElement("img", "src", url);
      ghost var t1 := doc.tree;
      AppendOrphan(t1, wrapper, image);
      doc.AppendChild(wrapper, image);
      GrownTrans(t1, t0, old(doc.tree));
      GrownTrans(doc.tree, t1, old(doc.tree));
      assert wrapper !in old(doc.tree).nodes;
    }

    /** The wrapper, with the heads kept. */
    method MakeImage(url: string, ghost description: Option<string>, ghost root: NodeId,
                     ghost pre: seq<NodeId>, ghost hs: seq<NodeId>, ghost title: Option<string>)
      returns (wrapper: NodeId)
      requires Valid() && root in doc.tree.nodes
      requires Kids(doc.tree, root) == pre + hs && Heads(doc.tree, hs, title, description, None)
      modifies doc
      ensures Valid() && Grown(doc.tree, old(doc.tree)) && wrapper !in old(doc.tree).nodes
      ensures IsKind(doc.tree, wrapper, Element) && IsTag(doc.tree, wrapper, "div")
      ensures Kids(doc.tree, root) == pre + hs && Heads(doc.tree, hs + [wrapper], title, description, Some(url))
    {
      ghost var t1 := doc.tree;
      assert forall i :: 0 <= i < |hs| ==> hs[i] in t1.nodes;
      wrapper := MakeWrapper(url);
      assert forall i :: 0 <= i < |hs| ==> Kids(doc.tree, hs[i]) == Kids(t1, hs[i]);
      HeadsKept(doc.tree, t1, hs, title, description, None);
      HeadsSnocImage(doc.tree, hs, title, description, wrapper, url);
    }

    /** root.appendChild(x) for a head x: the heads hs stay heads, and x,
        leaving the earlier children pre, goes after tail. */
    method AppendHead(root: NodeId, x: NodeId, ghost pre: seq<NodeId>, ghost tail: seq<NodeId>,
                      ghost hs: seq<NodeId>, ghost description: Option<string>, ghost image: Option<string>, ghost title: Option<string>)
      returns (ghost pre2: seq<NodeId>)
      requires Valid() && IsKind(doc.tree, root, Element) && x in doc.tree.nodes && x != root
      requires Kids(doc.tree, root) == pre + tail && x !in tail
      requires Heads(doc.tree, hs, title, description, image) && root !in hs
      requires IsKind(doc.tree, x, Element) && !IsTag(doc.tree, x, "img")
      modifies doc
      ensures Valid() && Grown(doc.tree, old(doc.tree)) && Heads(doc.tree, hs, title, description, image)
      ensures pre2 == Without(pre, x) && Kids(doc.tree, root) == pre2 + (tail + [x])
    {
      AppendHeads(doc.tree, root, x, pre, tail, hs, title, description, image);
      doc.AppendChild(root, x);
      pre2 := Without(pre, x);
      SeqAssoc(pre2, tail, [x]);
    }

    /** The image wrapper of extract, appended to root. */
    method AttachImage(root: NodeId, url: string, ghost description: Option<string>,
                       ghost pre: seq<NodeId>, ghost hs: seq<NodeId>, ghost title: Option<string>)
      returns (ghost pre2: seq<NodeId>, ghost hs2: seq<NodeId>)
      requires Valid() && IsKind(doc.tree, root, Element) && root !in hs
      requires Kids(doc.tree, root) == pre + hs && Heads(doc.tree, hs, title, description, None)
      modifies doc
      ensures Valid() && Grown(doc.tree, old(doc.tree)) && root !in hs2
      ensures forall y :: y in hs2 ==> y in hs || y !in old(doc.tree).nodes
      ensures Kids(doc.tree, root) == pre2 + hs2 && Heads(doc.tree, hs2, title, description, Some(url))
      ensures pre == [] ==> pre2 == []
    {
      var wrapper := MakeImage(url, description, root, pre, hs, title);
      ghost var t2 := doc.tree;
      hs2 := hs + [wrapper];
      pre2 := AppendHead(root, wrapper, pre, hs, hs2, description, Some(url), title);
      GrownTrans(doc.tree, t2, old(doc.tree));
    }

    /** The h1.title of extract, holding the title. */
    method MakeTitle(title: Option<string>) returns (h: NodeId)
      requires Valid()
      modifies doc
      ensures Valid() && Grown(doc.tree, old(doc.tree)) && h !in old(doc.tree).nodes
      ensures Titled(doc.tree, h, title) && Loose(doc.tree, h)
      ensures OutsideKept(doc.tree, old(doc.tree), h)
    {
      h := NewElement("h1", "class", "title");
      ghost var t1 := doc.tree;
      SetTextContentEffect(t1, h, title);
      SetTextContentOutside(t1, h, title);
      doc.SetText(h, title);
      GrownTrans(doc.tree, t1, old(doc.tree));
      OutsideKeptTrans(doc.tree, t1, old(doc.tree), h, h);
    }

    /** The second half of extract, once the main content is known. */
    method Assemble(root: NodeId, heading: NodeId, description: Option<string>, imageURL: Option<string>, ghost title: Option<string>)
      returns (r: Result<NodeId, Fault>, ghost shown: bool, ghost tested: Tree)
      requires Valid() && IsKind(doc.tree, root, Element) && Titled(doc.tree, heading, title) && root != heading
      requires mainContent.Some? ==> mainContent.value in doc.tree.nodes && MainCandidate(doc.tree, mainContent.value)
      modifies doc
      ensures Valid()
      ensures r.Success? ==>
        r.value == root && mainContent.Some? &&
        Assembled(doc.tree, root, mainContent.value, title, description, if shown then imageURL else None)
      ensures shown ==> imageURL.Some? && !imageBeforeText
      ensures mainContent.Some? ==>
        (shown <==> imageURL.Some? && |ElementsByTag(tested, mainContent.value, "figure")| == 0 && !imageBeforeText)
      ensures r.Success? && old(Kids(doc.tree, root)) == [] ==>
        |Kids(doc.tree, root)| == 2 + (if description.Some? then 1 else 0) + (if shown then 1 else 0)
      ensures r.Failure? ==> r.error == NullPointer || (r.error == HierarchyRequest && mainContent == Some(root))
    {
      ghost var t2 := doc.tree;
      ghost var pre, hs := AttachHeadings(root, heading, description, title);
      // A null main content throws either at getElementsByTagName (with an
      // image URL) or at the last appendChild; nothing is appended between.
      tested := doc.tree;
      if mainContent.None? {
        return Failure(NullPointer), false, tested;
      }
      var main := mainContent.value;
      assert main in t2.nodes;
      shown, pre, hs := AttachImageIf(root, main, imageURL, description, pre, hs, title);
      if main == root {
        return Failure(HierarchyRequest), shown, tested;
      }
      assert main != heading by {
        ghost var tag := t2.nodes[heading].tag;
        assert tag == "h1" && |tag| == 2;
      }
      AttachContent(root, main, pre, hs, description, if shown then imageURL else None, title);
      r := Success(root);
    }

    /** The h1 and, with a description, the p.intro, appended to root. */
    method AttachHeadings(root: NodeId, heading: NodeId, description: Option<string>, ghost title: Option<string>)
      returns (ghost pre: seq<NodeId>, ghost hs: seq<NodeId>)
      requires Valid() && IsKind(doc.tree, root, Element) && Titled(doc.tree, heading, title) && root != heading
      modifies doc
      ensures Valid() && Grown(doc.tree, old(doc.tree)) && root !in hs
      ensures forall y :: y in hs ==> y == heading || y !in old(doc.tree).nodes
      ensures Kids(doc.tree, root) == pre + hs && Heads(doc.tree, hs, title, description, None)
      ensures old(Kids(doc.tree, root)) == [] ==> pre == []
    {
      ghost var t2 := doc.tree;
      assert Heads(t2, [heading], title, None, None);
      ghost var k0 := Kids(t2, root);
      pre := AppendHead(root, heading, k0, [], [heading], None, None, title);
      assert k0 == [] ==> pre == [];
      hs := [heading];
      ghost var t3 := doc.tree;
      pre, hs := AttachIntro(root, description, pre, hs, title);
      GrownTrans(doc.tree, t3, t2);
    }

    /** The div#mainImage, appended when there is an image URL, the main
        content holds no figure and no image came before the text. */
    method AttachImageIf(root: NodeId, main: NodeId, imageURL: Option<string>, ghost description: Option<string>,
                         ghost pre: seq<NodeId>, ghost hs: seq<NodeId>, ghost title: Option<string>)
      returns (shown: bool, ghost pre2: seq<NodeId>, ghost hs2: seq<NodeId>)
      requires Valid() && IsKind(doc.tree, root, Element) && root !in hs && main in doc.tree.nodes
      requires Kids(doc.tree, root) == pre + hs && Heads(doc.tree, hs, title, description, None)
      modifies doc
      ensures Valid() && Grown(doc.tree, old(doc.tree)) && root !in hs2
      ensures forall y :: y in hs2 ==> y in hs || y !in old(doc.tree).nodes
      ensures Kids(doc.tree, root) == pre2 + hs2 && Heads(doc.tree, hs2, title, description, if shown then imageURL else None)
      ensures pre == [] ==> pre2 == []
      ensures shown <==> imageURL.Some? && |ElementsByTag(old(doc.tree), main, "figure")| == 0 && !imageBeforeText
    {
      shown, pre2, hs2 := false, pre, hs;
      if imageURL.Some? && |ElementsByTag(doc.tree, main, "figure")| == 0 && !imageBeforeText {
        pre2, hs2 := AttachImage(root, imageURL.value, description, pre, hs, title);
        shown := true;
      }
    }

    /** The last append of extract: the main content after the heads. */
    method AttachContent(root: NodeId, main: NodeId, ghost pre: seq<NodeId>, ghost hs: seq<NodeId>,
                         ghost description: Option<string>, ghost image: Option<string>, ghost title: Option<string>)
      requires Valid() && IsKind(doc.tree, root, Element) && root !in hs && main != root
      requires main in doc.tree.nodes && MainCandidate(doc.tree, main) && main !in hs
      requires Kids(doc.tree, root) == pre + hs && Heads(doc.tree, hs, title, description, image)
      modifies doc
      ensures Valid() && Assembled(doc.tree, root, main, title, description, image)
      ensures pre == [] ==> |Kids(doc.tree, root)| == |hs| + 1
    {
      CandidateTags(doc.tree, main);
      AppendHeads(doc.tree, root, main, pre, hs, hs, title, description, image);
      doc.AppendChild(root, main);
      HeadsAssembled(doc.tree, root, Without(pre, main), hs, main, title, description, image);
    }

    /** extract(): a div holding an h1.title, the p.intro when there is a
        description, the div#mainImage when there is an image, no figure in
        the main content and no image before the text, and the main
        content. A null main content ends in a NullPointerException. The
        meta readers run first; the two detached elements extract creates
        before them cannot change what they find. */
    method Extract() returns (r: Result<NodeId, Fault>, ghost shown: bool, ghost tested: Tree,
                              ghost page: Tree, ghost rewrapped: Tree, ghost chosen: Tree)
      requires Valid()
      modifies this, doc
      ensures Valid() && doc == old(doc)
      ensures r.Success? ==>
        mainContent.Some? && r.value !in old(doc.tree).nodes &&
        Assembled(doc.tree, r.value, mainContent.value, Title(old(doc.tree)), Description(old(doc.tree)),
                  if shown then MainImage(old(doc.tree), old(imageBeforeText)) else None)
      ensures r.Success? ==>
        |Kids(doc.tree, r.value)| == 2 + (if Description(old(doc.tree)).Some? then 1 else 0) + (if shown then 1 else 0)
      ensures Grown(page, old(doc.tree))
      ensures r.Success? ==> ContentChosen(page, rewrapped, chosen, Success(mainContent))
      ensures r.Success? ==>
        (shown <==> MainImage(old(doc.tree), old(imageBeforeText)).Some? &&
                    |ElementsByTag(tested, mainContent.value, "figure")| == 0 && !imageBeforeText)
      ensures shown ==> MainImage(old(doc.tree), old(imageBeforeText)).Some? && !imageBeforeText
      ensures r.Failure? ==> r.error == NullPointer
    {
      var title := Title(doc.tree);
      var description := Description(doc.tree);
      var imageURL := MainImage(doc.tree, imageBeforeText);
      var articleContent, articleTitle := MakeFrame(title);
      page := doc.tree;
      var content;
      content, rewrapped := ContentBeside(articleTitle, title, description, articleContent);
      chosen := doc.tree;
      if content.Failure? {
        return Failure(content.error), false, doc.tree, page, rewrapped, chosen;
      }
      assert IsKind(doc.tree, articleContent, Element) && articleContent != articleTitle;
      mainContent := content.value;
      r, shown, tested := Assemble(articleContent, articleTitle, description, imageURL, title);
    }

    /** The first steps of extract: a detached, empty div (the article)
        and the detached h1 title. */
    method MakeFrame(title: Option<string>) returns (articleContent: NodeId, articleTitle: NodeId)
      requires Valid()
      modifies doc
      ensures Valid() && Grown(doc.tree, old(doc.tree))
      ensures articleContent !in old(doc.tree).nodes && articleContent != articleTitle
      ensures IsTag(doc.tree, articleContent, "div") && Loose(doc.tree, articleContent) && Kids(doc.tree, articleContent) == []
      ensures Titled(doc.tree, articleTitle, title) && Loose(doc.tree, articleTitle)
    {
      NewNodeGrown(doc.tree, Element, "div", "");
      articleContent := doc.CreateElement("div");
      ghost var t1 := doc.tree;
      assert articleContent in t1.nodes && t1.nodes[articleContent].parent == None && t1.nodes[articleContent].children == [];
      articleTitle := MakeTitle(title);
      GrownTrans(doc.tree, t1, old(doc.tree));
      assert doc.tree.nodes[articleContent].children == [];
    }

    /** getMainContent run while the detached h1 heading waits: the
        heading is neither a body nor a candidate, so it keeps its class
        and text. */
    method ContentBeside(heading: NodeId, title: Option<string>, description: Option<string>, ghost root: NodeId)
      returns (r: Result<Option<NodeId>, Fault>, ghost rewrapped: Tree)
      requires Valid() && Titled(doc.tree, heading, title) && Loose(doc.tree, heading)
      requires Loose(doc.tree, root) && Kids(doc.tree, root) == []
      modifies this, doc
      ensures Valid() && doc == old(doc) && mainContent == old(mainContent)
      ensures TagsKept(doc.tree, old(doc.tree)) && Titled(doc.tree, heading, title)
      ensures r.Failure? ==> r.error == NullPointer
      ensures r.Success? && r.value.Some? ==>
        r.value.value in doc.tree.nodes && MainCandidate(doc.tree, r.value.value)
      ensures ContentChosen(old(doc.tree), rewrapped, doc.tree, r)
      ensures r.Success? ==> (r.value.Some? ==> r.value.value != root) && Kids(doc.tree, root) == []
    {
      ghost var t0 := doc.tree;
      r, rewrapped := GetMainContent(title, description);
      assert heading !in ContentRoots(t0);
      UntouchedTitled(doc.tree, t0, heading, title);
      EmptyRootNotChosen(t0, rewrapped, doc.tree, r, root);
      if r.Success? && r.value.Some? {
        UntouchedLoose(doc.tree, t0, root);
      }
    }

    /** getMainImages(number): IllegalArgumentException for a number below
        1; otherwise the main content (computed by getMainContent() when
        there is none yet) has its img elements' resolved src collected in
        document order, each once, stopping when number are collected. */
    method GetMainImages(number: Option<int>)
      returns (r: Result<seq<string>, Fault>, ghost content: Result<Option<NodeId>, Fault>, ghost rewrapped: Tree)
      requires Valid()
      modifies this, doc
      ensures Valid() && doc == old(doc)
      ensures old(mainContent).None? && !(number.Some? && number.value < 1) ==>
        ContentChosen(old(doc.tree), rewrapped, doc.tree, content) &&
        (r.Success? ==> content == Success(mainContent))
      ensures number.Some? && number.value < 1 ==>
        r == Failure(IllegalArgument) && doc.tree == old(doc.tree) && mainContent == old(mainContent)
      ensures old(mainContent).Some? ==> doc.tree == old(doc.tree) && mainContent == old(mainContent)
      ensures r.Success? ==>
        mainContent.Some? &&
        r.value == Gather(Urls(doc.tree, ElementsByTag(doc.tree, mainContent.value, "img"), doc.baseUri, resolve),
                          [], number)
      ensures r.Success? ==> NoRepeats(r.value) && (number.Some? ==> |r.value| <= number.value)
      ensures r.Failure? ==> r.error == IllegalArgument || r.error == NullPointer
    {
      content, rewrapped := Success(mainContent), doc.tree;
      if number.Some? && number.value < 1 {
        return Failure(IllegalArgument), content, rewrapped;
      }
      if mainContent.None? {
        var c;
        c, rewrapped := GetMainContent(None, None);
        content := c;
        if c.Failure? {
          return Failure(c.error), content, rewrapped;
        }
        mainContent := c.value;
      }
      if mainContent.None? {
        return Failure(NullPointer), content, rewrapped;
      }
      var imgs := ElementsByTag(doc.tree, mainContent.value, "img");
      var result := CollectUrls(imgs, number);
      return Success(result), content, rewrapped;
    }

    /** The collection loop of getMainImages over the img elements imgs. */
    method CollectUrls(imgs: seq<NodeId>, number: Option<int>) returns (result: seq<string>)
      requires number.Some? ==> number.value >= 1
      ensures result == Gather(Urls(doc.tree, imgs, doc.baseUri, resolve), [], number)
      ensures NoRepeats(result) && (number.Some? ==> |result| <= number.value)
    {
      ghost var us := Urls(doc.tree, imgs, doc.baseUri, resolve);
      result := [];
      var i := 0;
      while i < |imgs|
        invariant 0 <= i <= |imgs|
        invariant Gather(us, [], number) == Gather(us[i..], result, number)
        invariant !Full(result, number)
      {
        var url := resolve(doc.baseUri, Attribute(doc.tree, imgs[i], "src"));
        GatherAt(us, i, result, number);
        result := Add(result, url);
        if Full(result, number) {
          break;
        }
        i := i + 1;
      }
      GatherNoRepeats(us, [], number);
      if number.Some? { GatherBound(us, [], number); }
    }
  }
}
