/** How much of the tree a sanitizer pass may change. */
module Frames {
  import opened Wrappers
  import opened Dom
  import opened Queries

  lemma {:induction false} SubseqTrans(a: seq<NodeId>, b: seq<NodeId>, c: seq<NodeId>)
    requires IsSubseq(a, b) && IsSubseq(b, c)
    ensures IsSubseq(a, c)
    decreases |c|
  {
    if a != [] {
      if IsSubseq(b, c[1..]) {
        SubseqTrans(a, b, c[1..]);
      } else if a[0] == b[0] && IsSubseq(a[1..], b[1..]) {
        SubseqTrans(a[1..], b[1..], c[1..]);
      } else {
        SubseqTrans(a, b[1..], c[1..]);
      }
    }
  }

  lemma {:induction false} SubseqMember(a: seq<NodeId>, b: seq<NodeId>, x: NodeId)
    requires IsSubseq(a, b) && x in a
    ensures x in b
    decreases |b|
  {
    if a[0] == b[0] && IsSubseq(a[1..], b[1..]) {
      if x != a[0] { SubseqMember(a[1..], b[1..], x); }
    } else {
      SubseqMember(a, b[1..], x);
    }
  }

  /** Nodes leave child lists, nothing else of the tree changes, and only
      nodes in removable lose (or change) their parent, which is then null. */
  ghost predicate Pruned(t2: Tree, t1: Tree, removable: set<NodeId>)
  {
    && t2.nodes.Keys == t1.nodes.Keys && t2.next == t1.next && t2.docNode == t1.docNode
    && (forall id :: id in t1.nodes ==>
          t2.nodes[id].kind == t1.nodes[id].kind && t2.nodes[id].tag == t1.nodes[id].tag &&
          t2.nodes[id].attrs == t1.nodes[id].attrs && t2.nodes[id].data == t1.nodes[id].data)
    && (forall id :: id in t1.nodes ==> IsSubseq(t2.nodes[id].children, t1.nodes[id].children))
    && (forall id :: id in t1.nodes && t2.nodes[id].parent != t1.nodes[id].parent ==>
          id in removable && t2.nodes[id].parent == None)
  }

  lemma PrunedRefl(t: Tree, removable: set<NodeId>)
    ensures Pruned(t, t, removable)
  {
    forall id | id in t.nodes ensures IsSubseq(t.nodes[id].children, t.nodes[id].children) {
      SubseqRefl(t.nodes[id].children);
    }
  }

  lemma PrunedTrans(t3: Tree, t2: Tree, t1: Tree, removable: set<NodeId>)
    requires Pruned(t3, t2, removable) && Pruned(t2, t1, removable)
    ensures Pruned(t3, t1, removable)
  {
    forall id | id in t1.nodes ensures IsSubseq(t3.nodes[id].children, t1.nodes[id].children) {
      SubseqTrans(t3.nodes[id].children, t2.nodes[id].children, t1.nodes[id].children);
    }
  }

  /** Removing a removable node from its parent prunes the tree. */
  lemma DetachPruned(t: Tree, c: NodeId, removable: set<NodeId>)
    requires c in t.nodes && c in removable
    ensures Pruned(Detach(t, c), t, removable)
  {
    DetachEffect(t, c);
    DetachShrinks(t, c);
  }

  lemma PrunedShrunk(t2: Tree, t1: Tree, removable: set<NodeId>)
    requires Pruned(t2, t1, removable)
    ensures Shrunk(t2, t1)
  {
  }

  /** Old nodes keep their kind, tag, attributes and text; nodes may be
      added, and links may change. */
  ghost predicate Grown(t2: Tree, t1: Tree)
  {
    && t1.nodes.Keys <= t2.nodes.Keys && t1.next <= t2.next && t2.docNode == t1.docNode
    && forall id :: id in t1.nodes ==>
         t2.nodes[id].kind == t1.nodes[id].kind && t2.nodes[id].tag == t1.nodes[id].tag &&
         t2.nodes[id].attrs == t1.nodes[id].attrs && t2.nodes[id].data == t1.nodes[id].data
  }

  /** Old nodes are all still there, with their kind and tag. */
  ghost predicate TagsKept(t2: Tree, t1: Tree)
  {
    && t1.nodes.Keys <= t2.nodes.Keys
    && forall id :: id in t1.nodes ==>
         t2.nodes[id].kind == t1.nodes[id].kind && t2.nodes[id].tag == t1.nodes[id].tag
  }

  lemma TagsKeptTrans(t3: Tree, t2: Tree, t1: Tree)
    requires TagsKept(t3, t2) && TagsKept(t2, t1)
    ensures TagsKept(t3, t1)
  {
  }

  lemma GrownTrans(t3: Tree, t2: Tree, t1: Tree)
    requires Grown(t3, t2) && Grown(t2, t1)
    ensures Grown(t3, t1)
  {
  }

  lemma DetachGrown(t: Tree, c: NodeId)
    ensures Grown(Detach(t, c), t)
  {
    if c in t.nodes { DetachEffect(t, c); }
  }

  /** Appending a node that has no parent: only p's children change, and
      c goes last among them. */
  lemma AppendOrphan(t: Tree, p: NodeId, c: NodeId)
    requires ChildrenPointBack(t) && p in t.nodes && c in t.nodes && p != c && t.nodes[c].parent == None
    ensures Grown(Append(t, p, c), t)
    ensures t.nodes[p].kind in {DocumentNode, Element} ==> Kids(Append(t, p, c), p) == Kids(t, p) + [c]
    ensures forall y :: y != p ==> Kids(Append(t, p, c), y) == Kids(t, y)
  {
    AppendGrown(t, p, c);
    AppendKids(t, p, c, p);
    assert c !in t.nodes[p].children;
    forall y | y != p ensures Kids(Append(t, p, c), y) == Kids(t, y) {
      AppendKids(t, p, c, y);
      if y in t.nodes { assert c !in t.nodes[y].children; }
    }
  }

  lemma AppendGrown(t: Tree, p: NodeId, c: NodeId)
    requires ChildrenPointBack(t)
    ensures Grown(Append(t, p, c), t)
  {
    if p in t.nodes && c in t.nodes && p != c { AppendEffect(t, p, c); }
  }

  lemma NewNodeGrown(t: Tree, kind: Kind, tag: string, data: string)
    requires IdsBelowNext(t)
    ensures Grown(NewNode(t, kind, tag, data), t)
  {
  }

  lemma ClearChildrenGrown(t: Tree, n: NodeId)
    ensures Grown(ClearChildren(t, n), t)
  {
  }

  lemma SetTextContentGrown(t: Tree, e: NodeId, s: Option<string>)
    requires WellFormed(t) && e in t.nodes
    ensures Grown(SetTextContent(t, e, s), t)
  {
    var t1 := ClearChildren(t, e);
    ClearChildrenGrown(t, e);
    ClearChildrenWellFormed(t, e);
    if s.Some? && s.value != "" {
      var t2 := NewNode(t1, Text, "", s.value);
      NewNodeGrown(t1, Text, "", s.value);
      NewNodeWellFormed(t1, Text, "", s.value);
      AppendGrown(t2, e, t1.next);
      GrownTrans(Append(t2, e, t1.next), t2, t1);
      GrownTrans(Append(t2, e, t1.next), t1, t);
    }
  }

  /** Detach each of xs in turn. */
  function DetachAll(t: Tree, xs: seq<NodeId>): Tree
    decreases |xs|
  {
    if xs == [] then t else Detach(DetachAll(t, xs[..|xs| - 1]), xs[|xs| - 1])
  }

  lemma DetachAllSnoc(t: Tree, xs: seq<NodeId>, x: NodeId)
    ensures DetachAll(t, xs + [x]) == Detach(DetachAll(t, xs), x)
  {
    assert (xs + [x])[..|xs|] == xs;
  }

  /** Detaching removable nodes one by one prunes the tree. */
  lemma {:induction false} DetachAllPruned(t: Tree, xs: seq<NodeId>, removable: set<NodeId>)
    requires forall x :: x in xs ==> x in removable
    ensures Pruned(DetachAll(t, xs), t, removable)
    decreases |xs|
  {
    if xs == [] {
      PrunedRefl(t, removable);
    } else {
      var init := xs[..|xs| - 1];
      var x := xs[|xs| - 1];
      assert forall y :: y in init ==> y in xs;
      DetachAllPruned(t, init, removable);
      var mid := DetachAll(t, init);
      if x in mid.nodes {
        DetachPruned(mid, x, removable);
        PrunedTrans(Detach(mid, x), mid, t, removable);
      }
    }
  }

  /** A subsequence of a list without repetitions that still holds every
      entry is the list itself. */
  lemma {:induction false} SubseqAll(a: seq<NodeId>, b: seq<NodeId>)
    requires IsSubseq(a, b) && Distinct(b) && forall c :: c in b ==> c in a
    ensures a == b
    decreases |b|
  {
    if b != [] {
      DistinctCons(b[0], b[1..]);
      assert b == [b[0]] + b[1..];
      assert b[0] in a;
      if a[0] == b[0] && IsSubseq(a[1..], b[1..]) {
        forall c | c in b[1..] ensures c in a[1..] {
          assert c in a && c != a[0];
          assert a == [a[0]] + a[1..];
        }
        SubseqAll(a[1..], b[1..]);
        assert a == [a[0]] + a[1..];
      } else {
        SubseqMember(a, b[1..], b[0]);
        assert false;
      }
    }
  }

  /** A child list that may only have lost entries lost none when every
      old child still has x as its parent. */
  lemma ChildrenKept(t2: Tree, t1: Tree, x: NodeId)
    requires ChildrenPointBack(t1) && ChildrenDistinct(t1) && ParentsListChild(t2)
    requires x in t1.nodes && x in t2.nodes && IsSubseq(t2.nodes[x].children, t1.nodes[x].children)
    requires forall c :: c in t1.nodes[x].children ==> c in t2.nodes && t2.nodes[c].parent == t1.nodes[c].parent
    ensures t2.nodes[x].children == t1.nodes[x].children
  {
    forall c | c in t1.nodes[x].children ensures c in t2.nodes[x].children {
      assert t1.nodes[c].parent == Some(x);
    }
    SubseqAll(t2.nodes[x].children, t1.nodes[x].children);
  }

  // ------------------------------------------------------ detached elements

  /** An element other than an img that has no parent and only text
      children: nothing under the document reaches it. */
  ghost predicate Loose(t: Tree, h: NodeId)
  {
    && IsKind(t, h, Element) && t.nodes[h].tag != "img" && t.nodes[h].parent == None
    && forall c :: c in Kids(t, h) ==> IsKind(t, c, Text)
  }

  /** h's node is the same, and its children keep their kind and text. */
  ghost predicate Untouched(t2: Tree, t1: Tree, h: NodeId)
  {
    && h in t1.nodes && h in t2.nodes && t2.nodes[h] == t1.nodes[h]
    && forall c :: c in Kids(t1, h) ==>
         c in t1.nodes && c in t2.nodes && t2.nodes[c].kind == t1.nodes[c].kind && t2.nodes[c].data == t1.nodes[c].data
  }

  /** Every loose element of t1 outside roots is untouched in t2. */
  ghost predicate LooseKept(t2: Tree, t1: Tree, roots: set<NodeId>)
  {
    forall h :: Loose(t1, h) && h !in roots ==> Untouched(t2, t1, h)
  }

  lemma UntouchedLoose(t2: Tree, t1: Tree, h: NodeId)
    requires Loose(t1, h) && Untouched(t2, t1, h)
    ensures Loose(t2, h) && Kids(t2, h) == Kids(t1, h)
  {
  }

  lemma LooseKeptTrans(t3: Tree, t2: Tree, t1: Tree, a: set<NodeId>, b: set<NodeId>, roots: set<NodeId>)
    requires LooseKept(t3, t2, a) && LooseKept(t2, t1, b) && a <= roots && b <= roots
    ensures LooseKept(t3, t1, roots)
  {
    forall h | Loose(t1, h) && h !in roots ensures Untouched(t3, t1, h) {
      UntouchedLoose(t2, t1, h);
    }
  }

  /** Taking out anything but text nodes leaves the loose elements alone. */
  lemma PrunedLooseKept(t2: Tree, t1: Tree, removable: set<NodeId>)
    requires WellFormed(t1) && WellFormed(t2) && Pruned(t2, t1, removable)
    requires forall x :: x in removable ==> !IsKind(t1, x, Text)
    ensures LooseKept(t2, t1, {})
  {
    forall h | Loose(t1, h) ensures Untouched(t2, t1, h) {
      assert Kids(t1, h) == t1.nodes[h].children;
      ChildrenKept(t2, t1, h);
    }
  }

  /** Every node other than r that had no parent in t1 still has none and
      keeps its child list. */
  ghost predicate OutsideKept(t2: Tree, t1: Tree, r: NodeId)
  {
    forall x :: x in t1.nodes && t1.nodes[x].parent == None && x != r ==>
      x in t2.nodes && t2.nodes[x].parent == None && t2.nodes[x].children == t1.nodes[x].children
  }

  lemma OutsideKeptTrans(t3: Tree, t2: Tree, t1: Tree, r2: NodeId, r1: NodeId)
    requires OutsideKept(t3, t2, r2) && OutsideKept(t2, t1, r1)
    requires r2 == r1 || r2 !in t1.nodes || t1.nodes[r2].parent != None
    ensures OutsideKept(t3, t1, r1)
  {
  }

  /** A pass over r's subtree that keeps the other detached nodes keeps
      every loose element but r. */
  lemma GrownOutsideLooseKept(t2: Tree, t1: Tree, r: NodeId)
    requires ChildrenPointBack(t1) && Grown(t2, t1) && OutsideKept(t2, t1, r)
    ensures LooseKept(t2, t1, {r})
  {
  }

  /** Taking out children of r keeps the other detached nodes. */
  lemma PrunedOutside(t2: Tree, t1: Tree, removable: set<NodeId>, r: NodeId)
    requires WellFormed(t1) && WellFormed(t2) && Pruned(t2, t1, removable)
    requires forall x :: x in removable ==> x in t1.nodes && t1.nodes[x].parent == Some(r)
    ensures OutsideKept(t2, t1, r)
  {
    PrunedElsewhere(t2, t1, removable, r);
  }

  /** Taking out children of r keeps every other child list. */
  lemma PrunedElsewhere(t2: Tree, t1: Tree, removable: set<NodeId>, r: NodeId)
    requires WellFormed(t1) && WellFormed(t2) && Pruned(t2, t1, removable)
    requires forall x :: x in removable ==> x in t1.nodes && t1.nodes[x].parent == Some(r)
    ensures forall y :: y in t1.nodes && y != r ==> t2.nodes[y].children == t1.nodes[y].children
  {
    forall y | y in t1.nodes && y != r
      ensures t2.nodes[y].children == t1.nodes[y].children
    {
      ChildrenKept(t2, t1, y);
    }
  }

  /** Appending a new node or a child r had in t0, to r or to a new node,
      keeps the detached nodes of t0 other than r. */
  lemma AppendOutside(t0: Tree, t: Tree, r: NodeId, p: NodeId, c: NodeId)
    requires ChildrenPointBack(t0) && ChildrenPointBack(t) && OutsideKept(t, t0, r)
    requires p == r || p !in t0.nodes
    requires c !in t0.nodes || t0.nodes[c].parent == Some(r)
    ensures OutsideKept(Append(t, p, c), t0, r)
  {
    if p in t.nodes && c in t.nodes && p != c {
      forall x | x in t0.nodes && t0.nodes[x].parent == None && x != r
        ensures Append(t, p, c).nodes[x].parent == None
        ensures Append(t, p, c).nodes[x].children == t0.nodes[x].children
      {
        AppendAt(t, p, c, x);
        assert c !in t0.nodes[x].children;
      }
    }
  }

  lemma NewNodeOutside(t0: Tree, t: Tree, r: NodeId, kind: Kind, tag: string, data: string)
    requires IdsBelowNext(t) && OutsideKept(t, t0, r)
    ensures OutsideKept(NewNode(t, kind, tag, data), t0, r)
  {
  }
}
