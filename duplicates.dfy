/** The duplicate passes at the end of getMainContent: headings whose
    first-level text is the title, and the first paragraph without a
    visible character of its own when its first-level text is the
    description. */
module Duplicates {
  import opened Wrappers
  import opened Dom
  import opened Queries
  import opened Frames
  import opened Live
  import opened Chars

  /** A subsequence that kept every Text entry concatenates the same data. */
  lemma {:induction false} SubseqTextData(t2: Tree, t1: Tree, a: seq<NodeId>, b: seq<NodeId>)
    requires IsSubseq(a, b) && Distinct(b)
    requires t2.nodes.Keys == t1.nodes.Keys
    requires forall y :: y in t1.nodes ==> t2.nodes[y].kind == t1.nodes[y].kind && t2.nodes[y].data == t1.nodes[y].data
    requires forall y :: y in b && IsKind(t1, y, Text) ==> y in a
    ensures TextKidsData(t2, a) == TextKidsData(t1, b)
    decreases |b|
  {
    if b == [] {
    } else if a != [] && a[0] == b[0] && IsSubseq(a[1..], b[1..]) {
      DistinctCons(b[0], b[1..]);
      assert b == [b[0]] + b[1..];
      forall y | y in b[1..] && IsKind(t1, y, Text) ensures y in a[1..] {
        assert y in a && y != a[0];
        assert a == [a[0]] + a[1..];
      }
      SubseqTextData(t2, t1, a[1..], b[1..]);
    } else {
      assert IsSubseq(a, b[1..]);
      DistinctCons(b[0], b[1..]);
      assert b == [b[0]] + b[1..];
      if IsKind(t1, b[0], Text) {
        SubseqMember(a, b[1..], b[0]);
        assert false;
      }
      SubseqTextData(t2, t1, a, b[1..]);
    }
  }

  /** Taking out elements keeps the first-level text of every node. */
  lemma PrunedKeepsFirstLevelText(t2: Tree, t1: Tree, removable: set<NodeId>, x: NodeId)
    requires ChildrenPointBack(t1) && ChildrenDistinct(t1) && ParentsListChild(t2) && Pruned(t2, t1, removable)
    requires forall r :: r in removable ==> !IsKind(t1, r, Text)
    ensures FirstLevelText(t2, x) == FirstLevelText(t1, x)
  {
    if x in t1.nodes && t1.nodes[x].kind in {DocumentNode, Element} {
      var a, b := Kids(t2, x), Kids(t1, x);
      forall y | y in b && IsKind(t1, y, Text) ensures y in a {
        assert t1.nodes[y].parent == Some(x);
        assert t2.nodes[y].parent == Some(x);
      }
      SubseqTextData(t2, t1, a, b);
    }
  }

  /** The elements the heading pass for one tag may remove. */
  ghost function TitleCopies(t: Tree, tag: string, text: string): set<NodeId>
  {
    set x | x in t.nodes && MatchesTag(t, x, tag) && FirstLevelText(t, x) == text
  }

  ghost function HeadingTitleCopies(t: Tree, title: string): set<NodeId>
  {
    TitleCopies(t, "h1", title) + TitleCopies(t, "h2", title) + TitleCopies(t, "h3", title)
  }

  /** removeDuplicateTitle on top: the live heading loops for h1, h2 and
      h3 in turn, each on the tree the one before left. */
  ghost function TitleRemoval(t: Tree, top: NodeId, title: string): Tree
  {
    var t1 := LiveRemoval(t, top, "h1", TitleTest(title), 0);
    var t2 := LiveRemoval(t1, top, "h2", TitleTest(title), 0);
    LiveRemoval(t2, top, "h3", TitleTest(title), 0)
  }

  lemma PrunedWiden(t2: Tree, t1: Tree, r: set<NodeId>, r': set<NodeId>)
    requires Pruned(t2, t1, r) && r <= r'
    ensures Pruned(t2, t1, r')
  {
  }

  /** A pass that only took out headings of the original tree leaves the
      later tags' duplicates among the original ones. */
  lemma CopiesShrink(t2: Tree, t1: Tree, removable: set<NodeId>, tag: string, text: string)
    requires ChildrenPointBack(t1) && ChildrenDistinct(t1) && ParentsListChild(t2) && Pruned(t2, t1, removable)
    requires forall r :: r in removable ==> !IsKind(t1, r, Text)
    ensures TitleCopies(t2, tag, text) <= TitleCopies(t1, tag, text)
  {
    forall x | x in TitleCopies(t2, tag, text) ensures x in TitleCopies(t1, tag, text) {
      PrunedKeepsFirstLevelText(t2, t1, removable, x);
    }
  }

  /** The three heading passes, h1, h2 and h3 in turn, each taking out
      copies of the title in the tree it is given, together take out only
      headings of the original tree whose first-level text is the title. */
  lemma TitlePasses(t0: Tree, t1: Tree, t2: Tree, t3: Tree, title: string)
    requires ChildrenPointBack(t0) && ChildrenDistinct(t0) && ParentsListChild(t1) && ParentsListChild(t2)
    requires Pruned(t1, t0, TitleCopies(t0, "h1", title))
    requires Pruned(t2, t1, TitleCopies(t1, "h2", title))
    requires Pruned(t3, t2, TitleCopies(t2, "h3", title))
    ensures Pruned(t3, t0, HeadingTitleCopies(t0, title)) && TagsKept(t3, t0)
  {
    var all := HeadingTitleCopies(t0, title);
    PrunedWiden(t1, t0, TitleCopies(t0, "h1", title), all);
    PassWithin(t0, t1, t2, "h2", title);
    PassWithin(t0, t2, t3, "h3", title);
  }

  /** Taking out heading copies, which are elements, leaves every loose
      element alone. */
  lemma TitleCopiesLooseKept(t2: Tree, t1: Tree, title: string)
    requires WellFormed(t1) && WellFormed(t2) && Pruned(t2, t1, HeadingTitleCopies(t1, title))
    ensures LooseKept(t2, t1, {})
  {
    forall x | x in HeadingTitleCopies(t1, title) ensures !IsKind(t1, x, Text) {
      assert IsKind(t1, x, Element);
    }
    PrunedLooseKept(t2, t1, HeadingTitleCopies(t1, title));
  }

  /** One more heading pass after passes that took out only copies from
      the original tree. */
  lemma PassWithin(t0: Tree, t1: Tree, t2: Tree, tag: string, title: string)
    requires ChildrenPointBack(t0) && ChildrenDistinct(t0) && ParentsListChild(t1)
    requires Pruned(t1, t0, HeadingTitleCopies(t0, title))
    requires Pruned(t2, t1, TitleCopies(t1, tag, title))
    requires tag == "h2" || tag == "h3"
    ensures Pruned(t2, t0, HeadingTitleCopies(t0, title))
  {
    var all := HeadingTitleCopies(t0, title);
    CopiesNotText(t0, title);
    CopiesShrink(t1, t0, all, tag, title);
    PrunedWiden(t2, t1, TitleCopies(t1, tag, title), all);
    PrunedTrans(t2, t1, t0, all);
  }

  /** Headings are elements, never text. */
  lemma CopiesNotText(t: Tree, title: string)
    ensures forall r :: r in HeadingTitleCopies(t, title) ==> !IsKind(t, r, Text)
  {
    forall r | r in HeadingTitleCopies(t, title) ensures !IsKind(t, r, Text) {
      assert MatchesTag(t, r, "h1") || MatchesTag(t, r, "h2") || MatchesTag(t, r, "h3");
    }
  }

  /** The position of the first false entry of vs from position i on; |vs|
      when there is none. */
  function FirstFalse(vs: seq<bool>, i: nat): (k: nat)
    requires i <= |vs|
    ensures i <= k <= |vs|
    ensures forall j :: i <= j < k ==> vs[j]
    ensures k < |vs| ==> !vs[k]
    decreases |vs| - i
  {
    if i == |vs| || !vs[i] then i else FirstFalse(vs, i + 1)
  }

  /** For each paragraph, whether it has a visible character among its own
      text children. */
  function Visibles(t: Tree, ps: seq<NodeId>): (vs: seq<bool>)
    ensures |vs| == |ps| && forall j :: 0 <= j < |ps| ==> vs[j] == HasVisibleChar(t, ps[j], true)
  {
    seq(|ps|, j requires 0 <= j < |ps| => HasVisibleChar(t, ps[j], true))
  }

  /** The first paragraph of ps with no visible character among its own
      text children. */
  function FirstBlank(t: Tree, ps: seq<NodeId>): (r: Option<NodeId>)
    ensures r.Some? ==> exists i :: 0 <= i < |ps| && ps[i] == r.value && !HasVisibleChar(t, ps[i], true) &&
                                    forall j :: 0 <= j < i ==> HasVisibleChar(t, ps[j], true)
    ensures r.None? ==> forall j :: 0 <= j < |ps| ==> HasVisibleChar(t, ps[j], true)
  {
    var vs := Visibles(t, ps);
    var k := FirstFalse(vs, 0);
    if k < |ps| then Some(ps[k]) else None
  }

  /** The paragraph the description pass may remove has a blank
      first-level text, so a description with a visible character never
      matches it and the pass leaves the tree alone. */
  lemma VisibleDescriptionKept(t: Tree, top: NodeId, description: string)
    requires WellFormed(t) && HasVisible(description)
    ensures var c := FirstBlank(t, ElementsByTag(t, top, "p"));
      !(c.Some? && description == FirstLevelText(t, c.value))
  {
    var c := FirstBlank(t, ElementsByTag(t, top, "p"));
    if c.Some? {
      NoVisibleCharMeansBlankText(t, c.value);
    }
  }
}
