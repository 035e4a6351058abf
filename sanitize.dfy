/** The decisions of the sanitizer passes, as functions of the tree: how
    killBrWrapPattern
    groups children into paragraphs, the killDivs rules, the image rules
    and the attribute rules. */
module Sanitize {
  import opened Wrappers
  import opened Chars
  import opened Patterns
  import opened Dom
  import opened Queries
  import opened Metadata
  import opened Frames

  // ------------------------------------------------------- killBrWrapPattern

  predicate IsBr(t: Tree, x: NodeId)
  {
    IsTag(t, x, "br")
  }

  /** The paragraphs built so far, and whether the last one is still open
      (the variable p is not null). */
  datatype Grouping = Grouping(groups: seq<seq<NodeId>>, open: bool)

  /** The wrapping loop: a br closes the open paragraph; any other child
      joins the open paragraph, or opens a new one. */
  function Group(t: Tree, cs: seq<NodeId>): (g: Grouping)
    ensures g.open ==> g.groups != []
    decreases |cs|
  {
    if cs == [] then Grouping([], false)
    else
      var g := Group(t, cs[..|cs| - 1]);
      var x := cs[|cs| - 1];
      if IsBr(t, x) then g.(open := false)
      else if !g.open then Grouping(g.groups + [[x]], true)
      else Grouping(g.groups[..|g.groups| - 1] + [g.groups[|g.groups| - 1] + [x]], true)
  }

  /** The children that are not br elements, in order. */
  function NonBr(t: Tree, cs: seq<NodeId>): (r: seq<NodeId>)
    ensures forall x :: x in r <==> x in cs && !IsBr(t, x)
    decreases |cs|
  {
    if cs == [] then []
    else
      var r := NonBr(t, cs[..|cs| - 1]) + (if IsBr(t, cs[|cs| - 1]) then [] else [cs[|cs| - 1]]);
      assert forall x :: x in cs <==> x in cs[..|cs| - 1] || x == cs[|cs| - 1] by {
        assert cs == cs[..|cs| - 1] + [cs[|cs| - 1]];
      }
      r
  }

  function Flatten(gs: seq<seq<NodeId>>): seq<NodeId>
    decreases |gs|
  {
    if gs == [] then [] else Flatten(gs[..|gs| - 1]) + gs[|gs| - 1]
  }

  /** The positions where a paragraph starts: a non-br child that is first
      or follows a br. */
  function RunStarts(t: Tree, cs: seq<NodeId>): nat
    decreases |cs|
  {
    if cs == [] then 0
    else
      var k := |cs| - 1;
      RunStarts(t, cs[..k]) + (if !IsBr(t, cs[k]) && (k == 0 || IsBr(t, cs[k - 1])) then 1 else 0)
  }

  lemma FlattenLast(gs: seq<seq<NodeId>>, x: NodeId)
    requires gs != []
    ensures Flatten(gs[..|gs| - 1] + [gs[|gs| - 1] + [x]]) == Flatten(gs) + [x]
  {
    var init, last := gs[..|gs| - 1], gs[|gs| - 1];
    var gs2 := init + [last + [x]];
    assert gs2[..|gs2| - 1] == init && gs2[|gs2| - 1] == last + [x];
    assert Flatten(gs2) == Flatten(init) + (last + [x]);
    assert Flatten(gs) == Flatten(init) + last;
    SeqAssoc(Flatten(init), last, [x]);
  }

  lemma SeqAssoc(a: seq<NodeId>, b: seq<NodeId>, c: seq<NodeId>)
    ensures a + (b + c) == (a + b) + c
  {
  }

  lemma FlattenSnoc(gs: seq<seq<NodeId>>, g: seq<NodeId>)
    ensures Flatten(gs + [g]) == Flatten(gs) + g
  {
    assert (gs + [g])[..|gs|] == gs;
  }

  /** Every non-br child lands in exactly one paragraph, in order; no
      paragraph is empty; one paragraph starts at each run start. */
  lemma GroupProperties(t: Tree, cs: seq<NodeId>)
    ensures Flatten(Group(t, cs).groups) == NonBr(t, cs)
    ensures forall i :: 0 <= i < |Group(t, cs).groups| ==> Group(t, cs).groups[i] != []
    ensures |Group(t, cs).groups| == RunStarts(t, cs)
    ensures Group(t, cs).open <==> cs != [] && !IsBr(t, cs[|cs| - 1])
  {
    GroupFlatten(t, cs);
    GroupNonEmpty(t, cs);
    GroupCount(t, cs);
  }

  lemma {:induction false} GroupFlatten(t: Tree, cs: seq<NodeId>)
    ensures Flatten(Group(t, cs).groups) == NonBr(t, cs)
    decreases |cs|
  {
    if cs != [] {
      var init, x := cs[..|cs| - 1], cs[|cs| - 1];
      GroupFlatten(t, init);
      var g := Group(t, init);
      if !IsBr(t, x) {
        if !g.open {
          FlattenSnoc(g.groups, [x]);
        } else {
          FlattenLast(g.groups, x);
        }
      }
    }
  }

  lemma {:induction false} GroupNonEmpty(t: Tree, cs: seq<NodeId>)
    ensures forall i :: 0 <= i < |Group(t, cs).groups| ==> Group(t, cs).groups[i] != []
    decreases |cs|
  {
    if cs != [] {
      var init, x := cs[..|cs| - 1], cs[|cs| - 1];
      GroupNonEmpty(t, init);
      var g := Group(t, init);
      var gs' := Group(t, cs).groups;
      if !IsBr(t, x) {
        if !g.open {
          assert gs' == g.groups + [[x]];
          forall i | 0 <= i < |gs'| ensures gs'[i] != [] {
            if i < |g.groups| { assert gs'[i] == g.groups[i]; } else { assert gs'[i] == [x]; }
          }
        } else {
          assert gs' == g.groups[..|g.groups| - 1] + [g.groups[|g.groups| - 1] + [x]];
          forall i | 0 <= i < |gs'| ensures gs'[i] != [] {
            if i < |g.groups| - 1 { assert gs'[i] == g.groups[i]; }
          }
        }
      }
    }
  }

  lemma {:induction false} GroupCount(t: Tree, cs: seq<NodeId>)
    ensures |Group(t, cs).groups| == RunStarts(t, cs)
    ensures Group(t, cs).open <==> cs != [] && !IsBr(t, cs[|cs| - 1])
    decreases |cs|
  {
    if cs != [] {
      var init := cs[..|cs| - 1];
      GroupCount(t, init);
      assert |cs| >= 2 ==> init[|init| - 1] == cs[|cs| - 2];
    }
  }

  lemma GroupExample(t: Tree, a: NodeId, b: NodeId, c: NodeId)
    requires IsBr(t, b) && !IsBr(t, a) && !IsBr(t, c)
    ensures Group(t, [a, b, c]).groups == [[a], [c]]
  {
    GroupStep(t, [], a);
    GroupStep(t, [a], b);
    GroupStep(t, [a, b], c);
    assert [] + [a] == [a] && [a] + [b] == [a, b] && [a, b] + [c] == [a, b, c];
  }

  /** One more child: the loop body of the wrapping pass. */
  lemma GroupStep(t: Tree, cs: seq<NodeId>, x: NodeId)
    ensures var g := Group(t, cs);
      Group(t, cs + [x]) ==
        if IsBr(t, x) then g.(open := false)
        else if !g.open then Grouping(g.groups + [[x]], true)
        else Grouping(g.groups[..|g.groups| - 1] + [g.groups[|g.groups| - 1] + [x]], true)
  {
    assert (cs + [x])[..|cs|] == cs;
  }

  // ------------------------------------------------------------- killDivs

  function Count(t: Tree, d: NodeId, tag: string): nat
  {
    |ElementsByTag(t, d, tag)|
  }

  /** The first removal rule of killDivs, as the code writes it
      (sphereit == 0 when the marker comment is found). */
  predicate Rule1Fires(t: Tree, d: NodeId)
  {
    var p, img, li, a := Count(t, d, "p"), Count(t, d, "img"), Count(t, d, "li"), Count(t, d, "a");
    var embed, obj, pre, code := Count(t, d, "embed"), Count(t, d, "object"), Count(t, d, "pre"), Count(t, d, "code");
    var sphereit := if FindComment(t, d) then 0 else 1;
    && TextLength(t, d) < 10
    && (img > p || li > p || a > p || p == 0)
    && (pre == 0 && code == 0 && embed == 0 && obj == 0 && sphereit == 0)
    && (p != 0 && img == 1)
  }

  /** The first rule fires exactly for a div with one img, at least one p,
      more li or more a than p, no pre, code, embed or object, and a
      comment matching "sphereit". */
  lemma Rule1Means(t: Tree, d: NodeId)
    ensures Rule1Fires(t, d) <==>
      var p := Count(t, d, "p");
      && Count(t, d, "img") == 1 && p >= 1 && (Count(t, d, "li") > p || Count(t, d, "a") > p)
      && Count(t, d, "pre") == 0 && Count(t, d, "code") == 0
      && Count(t, d, "embed") == 0 && Count(t, d, "object") == 0
      && FindComment(t, d)
  {
    TextLengthIsZero(t, d);
  }

  /** The second rule: the id, or the id joined with " " (the class is
      never read), matches a stopword. */
  predicate Rule2Fires(t: Tree, d: NodeId)
  {
    var divId := Attribute(t, d, "id");
    StopwordMatch(divId) || StopwordMatch(divId + " ")
  }

  lemma Rule2Means(t: Tree, d: NodeId)
    ensures Rule2Fires(t, d) <==> StopwordMatch(Attribute(t, d, "id"))
  {
    StopwordIgnoresTrailingSpace(Attribute(t, d, "id"));
  }

  /** One round of killDivs on d: the first rule detaches d; the second
      rule, read again on the tree the first left, detaches d or, when d
      has no parent any more, throws (the second component). */
  ghost function KillDivEffect(t: Tree, d: NodeId): (Tree, bool)
  {
    var mid := if Rule1Fires(t, d) then Detach(t, d) else t;
    if !Rule2Fires(mid, d) then (mid, false)
    else if Parent(mid, d) == None then (mid, true)
    else (Detach(mid, d), false)
  }

  lemma KillDivEffectShrinks(t: Tree, d: NodeId, root: NodeId)
    requires d in t.nodes
    ensures |ElementsByTag(KillDivEffect(t, d).0, root, "div")| <= |ElementsByTag(t, root, "div")|
  {
    var mid := if Rule1Fires(t, d) then Detach(t, d) else t;
    DetachShrinks(t, d);
    ElementsByTagShrinks(Detach(t, d), t, root, "div");
    DetachShrinks(mid, d);
    ElementsByTagShrinks(Detach(mid, d), mid, root, "div");
  }

  /** The killDivs loop from index i on: the live div list is read again
      at every round, and the loop ends at the first throw. */
  ghost function LiveKillDivs(t: Tree, root: NodeId, i: nat): (Tree, bool)
    decreases |ElementsByTag(t, root, "div")| - i
  {
    var ls := ElementsByTag(t, root, "div");
    if i >= |ls| then (t, false)
    else
      var r := KillDivEffect(t, ls[i]);
      assert MatchesTag(t, ls[i], "div");
      KillDivEffectShrinks(t, ls[i], root);
      if r.1 then r else LiveKillDivs(r.0, root, i + 1)
  }

  /** Where the killDivs loop stands before the round at index i: it has
      thrown and r is its result, or the rounds from i on give r. */
  ghost predicate KillDivsFrom(t: Tree, root: NodeId, i: nat, thrown: bool, r: (Tree, bool))
  {
    if thrown then r == (t, true) else LiveKillDivs(t, root, i) == r
  }

  /** One round of the killDivs loop moves its standing on by one index. */
  lemma KillDivsAdvance(t: Tree, t': Tree, root: NodeId, i: nat, i': nat, thrown: bool, r: (Tree, bool))
    requires i < |ElementsByTag(t, root, "div")| && KillDivsFrom(t, root, i, false, r) && i' == i + 1
    requires (t', thrown) == KillDivEffect(t, ElementsByTag(t, root, "div")[i])
    ensures KillDivsFrom(t', root, i', thrown, r)
  {
  }

  // ------------------------------------------------- cleanIrrelevantImages

  /** Width or height parses to a number below 70. */
  predicate TooSmall(attrs: seq<Attr>)
  {
    var w := ParseImageSize(GetAttr(attrs, "width"));
    var h := ParseImageSize(GetAttr(attrs, "height"));
    (w.Some? && w.value < 70) || (h.Some? && h.value < 70)
  }

  predicate SmallImage(t: Tree, x: NodeId)
  {
    x in t.nodes && TooSmall(t.nodes[x].attrs)
  }

  lemma OthersKeepSize(a: seq<Attr>, b: seq<Attr>)
    requires forall m :: m != "src" && m != "data-src" ==> GetAttr(a, m) == GetAttr(b, m)
    ensures TooSmall(a) == TooSmall(b)
  {
    SizeNamesDiffer();
    SameSizes(a, b);
  }

  lemma SameSizes(a: seq<Attr>, b: seq<Attr>)
    requires GetAttr(a, "width") == GetAttr(b, "width") && GetAttr(a, "height") == GetAttr(b, "height")
    ensures TooSmall(a) == TooSmall(b)
  {
  }

  /** A kept image: a non-empty data-src replaces src and is removed, then
      src is resolved against the base URI. */
  function RewriteImage(attrs: seq<Attr>, base: string, resolve: (string, string) -> string): (r: seq<Attr>)
    ensures var ds := GetAttr(attrs, "data-src");
      GetAttr(r, "src") == resolve(base, if ds != "" then ds else GetAttr(attrs, "src"))
    ensures GetAttr(r, "data-src") == ""
    ensures UniqueNames(attrs) ==> UniqueNames(r)
  {
    var a1 := MoveDataSrc(attrs);
    SetAttr(a1, "src", resolve(base, GetAttr(a1, "src")))
  }

  /** The rewrite touches src and data-src only. */
  lemma RewriteImageKeepsOthers(attrs: seq<Attr>, base: string, resolve: (string, string) -> string)
    ensures forall m :: m != "src" && m != "data-src" ==> GetAttr(RewriteImage(attrs, base, resolve), m) == GetAttr(attrs, m)
  {
  }

  /** So an image kept by the size test would be kept again. */
  lemma RewriteImageKeepsSize(attrs: seq<Attr>, base: string, resolve: (string, string) -> string)
    ensures TooSmall(RewriteImage(attrs, base, resolve)) == TooSmall(attrs)
  {
    RewriteImageKeepsOthers(attrs, base, resolve);
    OthersKeepSize(RewriteImage(attrs, base, resolve), attrs);
  }

  lemma SizeNamesDiffer()
    ensures "width" != "src" && "width" != "data-src" && "height" != "src" && "height" != "data-src"
  {
    assert "width"[0] == 'w' && "height"[0] == 'h' && "src"[0] == 's' && "data-src"[0] == 'd';
  }

  /** A non-empty data-src becomes src and is removed. */
  function MoveDataSrc(attrs: seq<Attr>): (r: seq<Attr>)
    ensures var ds := GetAttr(attrs, "data-src");
      GetAttr(r, "src") == (if ds != "" then ds else GetAttr(attrs, "src"))
    ensures GetAttr(r, "data-src") == ""
    ensures forall m :: m != "src" && m != "data-src" ==> GetAttr(r, m) == GetAttr(attrs, m)
    ensures UniqueNames(attrs) ==> UniqueNames(r)
  {
    var copy := GetAttr(attrs, "data-src");
    if copy != "" then RemoveAttr(SetAttr(attrs, "src", copy), "data-src") else attrs
  }

  /** The URI the rewrite of a kept image starts from: a non-empty
      data-src, otherwise src. */
  function ImageSource(attrs: seq<Attr>): string
  {
    var ds := GetAttr(attrs, "data-src");
    if ds != "" then ds else GetAttr(attrs, "src")
  }

  /** u resolved k times against base. */
  function ResolvedTimes(base: string, resolve: (string, string) -> string, u: string, k: nat): string
  {
    if k == 0 then u else resolve(base, ResolvedTimes(base, resolve, u, k - 1))
  }

  lemma {:induction false} ResolvedTimesAdd(base: string, resolve: (string, string) -> string, u: string, j: nat, k: nat)
    ensures ResolvedTimes(base, resolve, ResolvedTimes(base, resolve, u, j), k) == ResolvedTimes(base, resolve, u, j + k)
  {
    if k > 0 {
      ResolvedTimesAdd(base, resolve, u, j, k - 1);
    }
  }

  /** What rewriting a kept image one or more times leaves: src is its
      source URI resolved that many times, data-src is gone and every other
      attribute is as before. */
  ghost predicate Rewritten(a2: seq<Attr>, a1: seq<Attr>, base: string, resolve: (string, string) -> string)
  {
    && (forall m :: m != "src" && m != "data-src" ==> GetAttr(a2, m) == GetAttr(a1, m))
    && GetAttr(a2, "data-src") == ""
    && exists k: nat :: 1 <= k && GetAttr(a2, "src") == ResolvedTimes(base, resolve, ImageSource(a1), k)
  }

  /** One rewrite resolves the source exactly once. */
  lemma RewriteImageRewrites(attrs: seq<Attr>, base: string, resolve: (string, string) -> string)
    ensures Rewritten(RewriteImage(attrs, base, resolve), attrs, base, resolve)
    ensures GetAttr(RewriteImage(attrs, base, resolve), "src") == ResolvedTimes(base, resolve, ImageSource(attrs), 1)
  {
    RewriteImageKeepsOthers(attrs, base, resolve);
    assert GetAttr(RewriteImage(attrs, base, resolve), "src") == ResolvedTimes(base, resolve, ImageSource(attrs), 1);
  }

  lemma RewrittenTrans(a3: seq<Attr>, a2: seq<Attr>, a1: seq<Attr>, base: string, resolve: (string, string) -> string)
    requires Rewritten(a3, a2, base, resolve) && Rewritten(a2, a1, base, resolve)
    ensures Rewritten(a3, a1, base, resolve)
  {
    var k1: nat :| 1 <= k1 && GetAttr(a2, "src") == ResolvedTimes(base, resolve, ImageSource(a1), k1);
    var k2: nat :| 1 <= k2 && GetAttr(a3, "src") == ResolvedTimes(base, resolve, ImageSource(a2), k2);
    assert ImageSource(a2) == GetAttr(a2, "src");
    ResolvedTimesAdd(base, resolve, ImageSource(a1), k1, k2);
    assert GetAttr(a3, "src") == ResolvedTimes(base, resolve, ImageSource(a1), k1 + k2);
  }

  lemma RewrittenKeepsSize(a2: seq<Attr>, a1: seq<Attr>, base: string, resolve: (string, string) -> string)
    requires Rewritten(a2, a1, base, resolve)
    ensures TooSmall(a2) == TooSmall(a1)
  {
    SameSizes(a2, a1);
  }

  /** cleanIrrelevantImages changed t1 into t2: child lists only lost
      entries, only images too small by width or height lost their parent,
      and only the other images had their attributes rewritten. */
  ghost predicate ImagesCleaned(t2: Tree, t1: Tree, base: string, resolve: (string, string) -> string)
  {
    && t2.nodes.Keys == t1.nodes.Keys && t2.next == t1.next && t2.docNode == t1.docNode
    && forall id :: id in t1.nodes ==> NodeCleaned(t2.nodes[id], t1.nodes[id], base, resolve)
  }

  /** The same, for one node before (n1) and after (n2). */
  ghost predicate NodeCleaned(n2: Node, n1: Node, base: string, resolve: (string, string) -> string)
  {
    && n2.kind == n1.kind && n2.tag == n1.tag && n2.data == n1.data
    && IsSubseq(n2.children, n1.children)
    && (n2.parent != n1.parent ==>
          n1.kind == Element && n1.tag == "img" && TooSmall(n1.attrs) && n2.parent == None)
    && (n2.attrs != n1.attrs ==>
          n1.kind == Element && n1.tag == "img" && !TooSmall(n1.attrs) &&
          Rewritten(n2.attrs, n1.attrs, base, resolve))
  }

  /** Removing and rewriting images leaves the loose elements alone. */
  lemma ImagesCleanedLooseKept(t2: Tree, t1: Tree, base: string, resolve: (string, string) -> string)
    requires WellFormed(t1) && WellFormed(t2) && ImagesCleaned(t2, t1, base, resolve)
    ensures LooseKept(t2, t1, {})
  {
    forall h | Loose(t1, h) ensures Untouched(t2, t1, h) {
      assert Kids(t1, h) == t1.nodes[h].children;
      forall c | c in t1.nodes[h].children ensures c in t2.nodes && t2.nodes[c].parent == t1.nodes[c].parent {
        assert NodeCleaned(t2.nodes[c], t1.nodes[c], base, resolve);
      }
      assert NodeCleaned(t2.nodes[h], t1.nodes[h], base, resolve);
      ChildrenKept(t2, t1, h);
    }
  }

  lemma ImagesCleanedRefl(t: Tree, base: string, resolve: (string, string) -> string)
    ensures ImagesCleaned(t, t, base, resolve)
  {
    forall id | id in t.nodes ensures NodeCleaned(t.nodes[id], t.nodes[id], base, resolve) {
      SubseqRefl(t.nodes[id].children);
    }
  }

  lemma ImagesCleanedTrans(t3: Tree, t2: Tree, t1: Tree, base: string, resolve: (string, string) -> string)
    requires ImagesCleaned(t3, t2, base, resolve) && ImagesCleaned(t2, t1, base, resolve)
    ensures ImagesCleaned(t3, t1, base, resolve)
  {
    forall id | id in t1.nodes ensures NodeCleaned(t3.nodes[id], t1.nodes[id], base, resolve) {
      NodeCleanedTrans(t3.nodes[id], t2.nodes[id], t1.nodes[id], base, resolve);
    }
  }

  lemma NodeCleanedTrans(n3: Node, n2: Node, n1: Node, base: string, resolve: (string, string) -> string)
    requires NodeCleaned(n3, n2, base, resolve) && NodeCleaned(n2, n1, base, resolve)
    ensures NodeCleaned(n3, n1, base, resolve)
  {
    SubseqTrans(n3.children, n2.children, n1.children);
    if n2.attrs != n1.attrs {
      RewrittenKeepsSize(n2.attrs, n1.attrs, base, resolve);
      if n3.attrs != n2.attrs {
        RewrittenTrans(n3.attrs, n2.attrs, n1.attrs, base, resolve);
      }
    }
  }

  /** The tree after the kept image x is rewritten: a non-empty data-src
      is copied to src and removed, then src is resolved. */
  function ImageRewritten(t: Tree, x: NodeId, base: string, resolve: (string, string) -> string): (r: Tree)
  {
    var t1 := DataSrcMoved(t, x);
    WithAttribute(t1, x, "src", resolve(base, Attribute(t1, x, "src")))
  }

  function DataSrcMoved(t: Tree, x: NodeId): Tree
  {
    var copy := Attribute(t, x, "data-src");
    if copy != "" then WithoutAttribute(WithAttribute(t, x, "src", copy), x, "data-src") else t
  }

  lemma WithAttrsTwice(t: Tree, x: NodeId, a: seq<Attr>, b: seq<Attr>)
    requires x in t.nodes
    ensures WithAttrs(WithAttrs(t, x, a), x, b) == WithAttrs(t, x, b)
  {
    assert WithAttrs(WithAttrs(t, x, a), x, b).nodes == WithAttrs(t, x, b).nodes;
  }

  lemma DataSrcMovedEffect(t: Tree, x: NodeId)
    requires x in t.nodes
    ensures DataSrcMoved(t, x) == WithAttrs(t, x, MoveDataSrc(t.nodes[x].attrs))
  {
    var a := t.nodes[x].attrs;
    var copy := GetAttr(a, "data-src");
    if copy != "" {
      var a1 := SetAttr(a, "src", copy);
      assert WithAttribute(t, x, "src", copy) == WithAttrs(t, x, a1);
      WithAttrsRemove(t, x, a1, "data-src");
    } else {
      WithAttrsSame(t, x);
    }
  }

  /** Only x's attributes change, and they become RewriteImage of the old. */
  lemma ImageRewrittenEffect(t: Tree, x: NodeId, base: string, resolve: (string, string) -> string)
    requires x in t.nodes
    ensures ImageRewritten(t, x, base, resolve) == WithAttrs(t, x, RewriteImage(t.nodes[x].attrs, base, resolve))
  {
    var m := MoveDataSrc(t.nodes[x].attrs);
    DataSrcMovedEffect(t, x);
    var t1 := WithAttrs(t, x, m);
    var u := resolve(base, GetAttr(m, "src"));
    assert Attribute(t1, x, "src") == GetAttr(m, "src");
    assert WithAttribute(t1, x, "src", u) == WithAttrs(t1, x, SetAttr(m, "src", u));
    WithAttrsTwice(t, x, m, SetAttr(m, "src", u));
  }

  lemma ImageRewrittenShape(t: Tree, x: NodeId, base: string, resolve: (string, string) -> string)
    ensures SameShape(ImageRewritten(t, x, base, resolve), t)
  {
    if x in t.nodes {
      ImageRewrittenEffect(t, x, base, resolve);
      WithAttrsShape(t, x, RewriteImage(t.nodes[x].attrs, base, resolve));
    }
  }

  lemma RewriteCleans(t: Tree, x: NodeId, base: string, resolve: (string, string) -> string)
    requires IsTag(t, x, "img") && !TooSmall(t.nodes[x].attrs)
    ensures ImagesCleaned(ImageRewritten(t, x, base, resolve), t, base, resolve)
  {
    RewriteImageRewrites(t.nodes[x].attrs, base, resolve);
    ImageRewrittenEffect(t, x, base, resolve);
    var r := ImageRewritten(t, x, base, resolve);
    forall id | id in t.nodes ensures IsSubseq(r.nodes[id].children, t.nodes[id].children) {
      SubseqRefl(t.nodes[id].children);
    }
  }

  /** A kept image rewritten once stays Rewritten through further cleaning. */
  lemma CleanedStaysRewritten(t2: Tree, t1: Tree, t0: Tree, x: NodeId, base: string, resolve: (string, string) -> string)
    requires ImagesCleaned(t2, t1, base, resolve) && x in t1.nodes && x in t0.nodes
    requires Rewritten(t1.nodes[x].attrs, t0.nodes[x].attrs, base, resolve)
    ensures Rewritten(t2.nodes[x].attrs, t0.nodes[x].attrs, base, resolve)
  {
    if t2.nodes[x].attrs != t1.nodes[x].attrs {
      RewrittenTrans(t2.nodes[x].attrs, t1.nodes[x].attrs, t0.nodes[x].attrs, base, resolve);
    }
  }

  lemma DetachSmallCleans(t: Tree, x: NodeId, base: string, resolve: (string, string) -> string)
    requires IsTag(t, x, "img") && TooSmall(t.nodes[x].attrs)
    ensures ImagesCleaned(Detach(t, x), t, base, resolve)
  {
    DetachEffect(t, x);
    DetachShrinks(t, x);
  }

  // --------------------------------------------- cleanIrrelevantAttributes

  /** An attribute the pass removes: its name does not contain src, href
      or text, or it is an href whose value starts with "javascript:". */
  predicate Removable(a: Attr)
  {
    !AllowedAttrName(a.name) || (IsHrefName(a.name) && StartsWith(a.value, "javascript:"))
  }

  /** The loop over the live NamedNodeMap from index j: a removal shifts
      the next attribute into the current index, which is then passed. */
  function LivePrune(attrs: seq<Attr>, j: nat): (r: seq<Attr>)
    ensures forall a :: a in r ==> a in attrs
    ensures UniqueNames(attrs) ==> UniqueNames(r)
    ensures UniqueNames(attrs) ==> forall a :: a in attrs && !Removable(a) ==> a in r
    decreases |attrs| - j
  {
    if j >= |attrs| then attrs
    else if Removable(attrs[j]) then
      var r := LivePrune(RemoveAttr(attrs, attrs[j].name), j + 1);
      assert UniqueNames(attrs) ==> forall a :: a in attrs && !Removable(a) ==> a.name != attrs[j].name;
      r
    else LivePrune(attrs, j + 1)
  }

  /** A name without the letters r, h and x contains none of the allowed
      words. */
  lemma NotAllowed(name: string)
    requires var l := AsciiLower(name); 'r' !in l && 'h' !in l && 'x' !in l
    ensures !AllowedAttrName(name)
  {
    var l := AsciiLower(name);
    var words := ["src", "data-src", "href", "text"];
    assert words[0][1] == 'r' && words[1][6] == 'r' && words[2][0] == 'h' && words[3][2] == 'x';
    MissingLetter(l, words[0], 1);
    MissingLetter(l, words[1], 6);
    MissingLetter(l, words[2], 0);
    MissingLetter(l, words[3], 2);
  }

  /** Two disallowed attributes in a row: the second one survives, so one
      pass does not remove every disallowed attribute. */
  lemma LivePruneSkips()
    ensures var before := [Attr("style", ""), Attr("class", "")];
      LivePrune(before, 0) == [Attr("class", "")] && Removable(Attr("class", ""))
  {
    var st, cl := Attr("style", ""), Attr("class", "");
    StyleNotAllowed();
    ClassNotAllowed();
    assert "class"[0] != "style"[0];
    assert RemoveAttr([st, cl], "style") == [cl];
    assert LivePrune([cl], 1) == [cl];
  }

  /** A lower-case name without the letters r, h and x is not allowed. */
  lemma LowerNotAllowed(name: string)
    requires forall i :: 0 <= i < |name| ==> 'a' <= name[i] <= 'z'
    requires 'r' !in name && 'h' !in name && 'x' !in name
    ensures !AllowedAttrName(name)
  {
    LowerOfLower(name);
    NotAllowed(name);
  }

  lemma StyleNotAllowed()
    ensures !AllowedAttrName("style")
  {
    LowerNotAllowed("style");
  }

  lemma ClassNotAllowed()
    ensures !AllowedAttrName("class")
  {
    LowerNotAllowed("class");
  }

  /** a2 keeps only attributes of a1 and every one of them that is not
      removable. */
  ghost predicate AttrsPruned(a2: seq<Attr>, a1: seq<Attr>)
  {
    && (forall a :: a in a2 ==> a in a1)
    && (forall a :: a in a1 && !Removable(a) ==> a in a2)
  }

  /** Replacing attributes leaves the shape alone. */
  lemma WithAttrsShape(t: Tree, x: NodeId, attrs: seq<Attr>)
    requires x in t.nodes
    ensures SameShape(WithAttrs(t, x, attrs), t)
  {
    var r := WithAttrs(t, x, attrs);
    forall id | id in t.nodes ensures r.nodes[id] == t.nodes[id].(attrs := r.nodes[id].attrs) {
    }
  }

  lemma WithAttrsSame(t: Tree, x: NodeId)
    requires x in t.nodes
    ensures WithAttrs(t, x, t.nodes[x].attrs) == t
  {
  }

  lemma WithAttrsRemove(t: Tree, x: NodeId, attrs: seq<Attr>, name: string)
    requires x in t.nodes
    ensures WithoutAttribute(WithAttrs(t, x, attrs), x, name) == WithAttrs(t, x, RemoveAttr(attrs, name))
  {
  }

  lemma LivePruneIsPruning(attrs: seq<Attr>)
    requires UniqueNames(attrs)
    ensures AttrsPruned(LivePrune(attrs, 0), attrs)
  {
  }

  /** cleanIrrelevantAttributes has been through the elements visited:
      only their attribute lists changed, and each only lost removable
      attributes. */
  ghost predicate AttrsCleaned(t2: Tree, t1: Tree, visited: seq<NodeId>)
  {
    && SameShape(t2, t1)
    && forall id :: id in t1.nodes && t2.nodes[id].attrs != t1.nodes[id].attrs ==>
         id in visited && AttrsPruned(t2.nodes[id].attrs, t1.nodes[id].attrs)
  }

  /** Attribute edits on nodes that all have a parent leave the loose
      elements alone. */
  lemma AttrEditsLooseKept(t2: Tree, t1: Tree, w: seq<NodeId>)
    requires SameShape(t2, t1)
    requires forall x :: x in w ==> x in t1.nodes && t1.nodes[x].parent.Some?
    requires forall id :: id in t1.nodes && t2.nodes[id].attrs != t1.nodes[id].attrs ==> id in w
    ensures LooseKept(t2, t1, {})
  {
    forall h | Loose(t1, h) ensures Untouched(t2, t1, h) {
      assert h !in w;
    }
  }

  /** t2 is t1 after the live NamedNodeMap loop over el's attributes. */
  ghost predicate LivePruned(t2: Tree, t1: Tree, el: NodeId)
  {
    el in t1.nodes && t2 == WithAttrs(t1, el, LivePrune(t1.nodes[el].attrs, 0))
  }

  lemma AttrsCleanedStep(t0: Tree, cur: Tree, r: Tree, w: seq<NodeId>, k: nat)
    requires k < |w| && WellFormed(cur) && AttrsCleaned(cur, t0, w[..k]) && LivePruned(r, cur, w[k])
    ensures AttrsCleaned(r, t0, w[..k + 1])
  {
    var el := w[k];
    WithAttrsShape(cur, el, LivePrune(cur.nodes[el].attrs, 0));
    assert SameShape(r, t0);
    LivePruneIsPruning(cur.nodes[el].attrs);
    assert w[..k + 1] == w[..k] + [el];
    forall id | id in t0.nodes && r.nodes[id].attrs != t0.nodes[id].attrs
      ensures id in w[..k + 1] && AttrsPruned(r.nodes[id].attrs, t0.nodes[id].attrs)
    {
      if id != el {
        assert r.nodes[id] == cur.nodes[id];
      }
    }
  }

  /** The walk of cleanIrrelevantAttributes has seen a p whose first-level
      text is longer than 20 characters. */
  predicate FoundParagraph(t: Tree, w: seq<NodeId>)
  {
    exists j :: 0 <= j < |w| && IsTag(t, w[j], "p") && |FirstLevelText(t, w[j])| > 20
  }

  /** An img comes in the walk before any such p. */
  predicate ImageBeforeText(t: Tree, w: seq<NodeId>)
  {
    exists k :: 0 <= k < |w| && IsTag(t, w[k], "img") && !FoundParagraph(t, w[..k])
  }

  lemma WalkStep(t: Tree, w: seq<NodeId>, k: nat)
    requires k < |w|
    ensures FoundParagraph(t, w[..k + 1]) ==
      (FoundParagraph(t, w[..k]) || (IsTag(t, w[k], "p") && |FirstLevelText(t, w[k])| > 20))
    ensures ImageBeforeText(t, w[..k + 1]) ==
      (ImageBeforeText(t, w[..k]) || (IsTag(t, w[k], "img") && !FoundParagraph(t, w[..k])))
  {
    var w1 := w[..k + 1];
    assert w1[..k] == w[..k];
    forall j | 0 <= j < k ensures w1[..j] == w[..k][..j] && w1[j] == w[..k][j] {
    }
    if FoundParagraph(t, w1) && !FoundParagraph(t, w[..k]) {
      var j :| 0 <= j < |w1| && IsTag(t, w1[j], "p") && |FirstLevelText(t, w1[j])| > 20;
      assert j == k;
    }
    if ImageBeforeText(t, w1) && !ImageBeforeText(t, w[..k]) {
      var j :| 0 <= j < |w1| && IsTag(t, w1[j], "img") && !FoundParagraph(t, w1[..j]);
      assert j == k;
    }
  }

  // ------------------------------------------------- what clean and killDivs remove

  ghost function Divs(t: Tree): set<NodeId>
  {
    set x | x in t.nodes && IsTag(t, x, "div")
  }

  /** The elements clean(e, tag, minWords) may remove: every tag element
      when tag is table, otherwise the non-pre ones when minWords > 0. */
  ghost function CleanTargets(t: Tree, tag: string, minWords: int): set<NodeId>
  {
    set x | x in t.nodes && MatchesTag(t, x, tag) &&
      (EqualsIgnoreCase(tag, "table") || (0 < minWords && !EqualsIgnoreCase(t.nodes[x].tag, "pre")))
  }
}
