/** The wrapping step of killBrWrapPattern: after the live removeChildren
    loop, the snapshot of e's children is walked; each non-br child is
    appended to the open paragraph, a new p appended to e when none is
    open, and each br closes the open paragraph. */
module Wrap {
  import opened Wrappers
  import opened Dom
  import opened Queries
  import opened Frames
  import opened Live
  import opened Sanitize

  /** The entries of os that are still children of e once the children in
      done have been handled: brs are never moved, the others move to a p. */
  function Pending(t: Tree, os: seq<NodeId>, done: seq<NodeId>): (r: seq<NodeId>)
    ensures forall x :: x in r ==> x in os
    decreases |os|
  {
    if os == [] then []
    else (if IsBr(t, os[0]) || os[0] !in done then [os[0]] else []) + Pending(t, os[1..], done)
  }

  /** The br entries of os, in order. */
  function Brs(t: Tree, os: seq<NodeId>): (r: seq<NodeId>)
    ensures forall x :: x in r <==> x in os && IsBr(t, x)
    decreases |os|
  {
    if os == [] then [] else (if IsBr(t, os[0]) then [os[0]] else []) + Brs(t, os[1..])
  }

  lemma {:induction false} PendingNone(t: Tree, os: seq<NodeId>)
    ensures Pending(t, os, []) == os
  {
    if os != [] { PendingNone(t, os[1..]); }
  }

  lemma {:induction false} PendingAll(t: Tree, os: seq<NodeId>, done: seq<NodeId>)
    requires forall x :: x in os ==> x in done
    ensures Pending(t, os, done) == Brs(t, os)
  {
    if os != [] { PendingAll(t, os[1..], done); }
  }

  /** Handling a child that does not occur in os changes nothing. */
  lemma {:induction false} PendingOther(t: Tree, os: seq<NodeId>, done: seq<NodeId>, c: NodeId)
    requires c !in os
    ensures Pending(t, os, done + [c]) == Pending(t, os, done)
  {
    if os != [] { PendingOther(t, os[1..], done, c); }
  }

  lemma {:induction false} PendingBr(t: Tree, os: seq<NodeId>, done: seq<NodeId>, c: NodeId)
    requires IsBr(t, c)
    ensures Pending(t, os, done + [c]) == Pending(t, os, done)
  {
    if os != [] { PendingBr(t, os[1..], done, c); }
  }

  /** Handling a non-br child takes it out of the pending entries. */
  lemma {:induction false} PendingNonBr(t: Tree, os: seq<NodeId>, done: seq<NodeId>, c: NodeId)
    requires !IsBr(t, c) && Distinct(os) && c !in done
    ensures Pending(t, os, done + [c]) == Without(Pending(t, os, done), c)
  {
    if os != [] {
      var x, rest := os[0], os[1..];
      assert Distinct(rest) by { DistinctCons(x, rest); assert os == [x] + rest; }
      if x == c {
        assert c !in rest by { DistinctCons(x, rest); assert os == [x] + rest; }
        PendingOther(t, rest, done, c);
        assert Without(Pending(t, rest, done), c) == Pending(t, rest, done);
      } else {
        PendingNonBr(t, rest, done, c);
        assert (x in done + [c]) == (x in done);
        var head := if IsBr(t, x) || x !in done then [x] else [];
        WithoutConcat(head, Pending(t, rest, done), c);
        assert Without(head, c) == head;
      }
    }
  }

  /** Detaching the nodes xs one by one leaves them without a parent and
      every other node's parent alone. */
  lemma {:induction false} DetachAllParents(t: Tree, xs: seq<NodeId>, y: NodeId)
    requires y in t.nodes
    ensures Parent(DetachAll(t, xs), y) == if y in xs then None else Parent(t, y)
    decreases |xs|
  {
    if xs != [] {
      var init, x := xs[..|xs| - 1], xs[|xs| - 1];
      DetachAllParents(t, init, y);
      var mid := DetachAll(t, init);
      assert y in xs <==> y in init || y == x by { assert xs == init + [x]; }
      if x in mid.nodes { DetachEffect(mid, x); }
    }
  }

  /** The wrap loop has handled cs[..k]: the paragraphs ps built so far,
      fresh p elements holding the child groups gs, follow e's pending
      children; the unhandled children are children of e or parentless. */
  ghost predicate Layout(t0: Tree, cur: Tree, e: NodeId, cs: seq<NodeId>, k: nat,
                         ps: seq<NodeId>, gs: seq<seq<NodeId>>)
  {
    && k <= |cs| && WellFormed(cur) && Grown(cur, t0) && IsKind(t0, e, Element)
    && Distinct(cs) && e !in cs && (forall j :: 0 <= j < |cs| ==> cs[j] in t0.nodes)
    && |ps| == |gs| && Distinct(ps)
    && (forall i :: 0 <= i < |ps| ==> ps[i] in cur.nodes && ps[i] !in t0.nodes && IsTag(cur, ps[i], "p"))
    && (forall i :: 0 <= i < |ps| ==> Kids(cur, ps[i]) == gs[i])
    && (forall i, x :: 0 <= i < |gs| && x in gs[i] ==> x in cs[..k])
    && Kids(cur, e) == Pending(t0, Odds(cs), cs[..k]) + ps
    && (forall j :: k <= j < |cs| ==> Parent(cur, cs[j]) == None || Parent(cur, cs[j]) == Some(e))
  }

  /** The loop's state: the groups are those Group computes on cs[..k],
      and p is the last paragraph exactly while it is open. */
  ghost predicate WrapState(t0: Tree, cur: Tree, e: NodeId, cs: seq<NodeId>, k: nat,
                            ps: seq<NodeId>, p: Option<NodeId>)
  {
    && k <= |cs|
    && Layout(t0, cur, e, cs, k, ps, Group(t0, cs[..k]).groups)
    && (p.Some? <==> Group(t0, cs[..k]).open)
    && (p.Some? ==> |ps| > 0 && p.value == ps[|ps| - 1])
  }

  lemma GroupStep(t: Tree, cs: seq<NodeId>, k: nat)
    requires k < |cs|
    ensures var g := Group(t, cs[..k]);
      Group(t, cs[..k + 1]) ==
        if IsBr(t, cs[k]) then g.(open := false)
        else if !g.open then Grouping(g.groups + [[cs[k]]], true)
        else Grouping(g.groups[..|g.groups| - 1] + [g.groups[|g.groups| - 1] + [cs[k]]], true)
  {
    assert cs[..k + 1][..k] == cs[..k];
  }

  /** After the live removeChildren loop on e, whose children were cs. */
  lemma WrapInit(t0: Tree, t1: Tree, e: NodeId, cs: seq<NodeId>)
    requires WellFormed(t0) && WellFormed(t1) && IsKind(t0, e, Element) && Kids(t0, e) == cs && e !in cs
    requires Grown(t1, t0) && Kids(t1, e) == Odds(cs)
    requires forall j :: 0 <= j < |cs| ==> cs[j] in t0.nodes && (Parent(t1, cs[j]) == None || Parent(t1, cs[j]) == Some(e))
    ensures WrapState(t0, t1, e, cs, 0, [], None)
  {
    assert cs[..0] == [];
    assert Group(t0, cs[..0]) == Grouping([], false);
    PendingNone(t0, Odds(cs));
    assert Kids(t1, e) == Pending(t0, Odds(cs), cs[..0]) + [];
    assert Distinct(cs);
  }

  lemma DetachAllGrown(t: Tree, xs: seq<NodeId>)
    ensures Grown(DetachAll(t, xs), t)
  {
    DetachAllPruned(t, xs, set x | x in xs);
  }

  lemma InitParents(t0: Tree, e: NodeId, cs: seq<NodeId>)
    requires WellFormed(t0) && IsKind(t0, e, Element) && Kids(t0, e) == cs
    ensures var t1 := DetachAll(t0, Evens(cs));
      forall j :: 0 <= j < |cs| ==> cs[j] in t0.nodes && (Parent(t1, cs[j]) == None || Parent(t1, cs[j]) == Some(e))
  {
    forall j | 0 <= j < |cs|
      ensures var t1 := DetachAll(t0, Evens(cs));
        cs[j] in t0.nodes && (Parent(t1, cs[j]) == None || Parent(t1, cs[j]) == Some(e))
    {
      assert cs[j] in t0.nodes[e].children;
      DetachAllParents(t0, Evens(cs), cs[j]);
    }
  }

  lemma LayoutBr(t0: Tree, cur: Tree, e: NodeId, cs: seq<NodeId>, k: nat, ps: seq<NodeId>, gs: seq<seq<NodeId>>)
    requires Layout(t0, cur, e, cs, k, ps, gs) && k < |cs| && IsBr(t0, cs[k])
    ensures Layout(t0, cur, e, cs, k + 1, ps, gs)
  {
    assert cs[..k + 1] == cs[..k] + [cs[k]];
    PendingBr(t0, Odds(cs), cs[..k], cs[k]);
  }

  /** e.appendChild(doc.createElement("p")): a fresh, empty paragraph at
      the end of e's children; nothing else moves. */
  lemma NewParagraph(cur: Tree, e: NodeId)
    requires WellFormed(cur) && IsKind(cur, e, Element)
    ensures var np := cur.next; var t2 := NewNode(cur, Element, "p", ""); var t3 := Append(t2, e, np);
      && np !in cur.nodes && e in t2.nodes && np in t2.nodes && e != np
      && WellFormed(t3) && Grown(t3, cur) && t3.nodes.Keys == cur.nodes.Keys + {np}
      && Kids(t3, e) == Kids(cur, e) + [np] && Kids(t3, np) == [] && IsTag(t3, np, "p")
      && (forall q :: q in cur.nodes && q != e ==> Kids(t3, q) == Kids(cur, q))
      && (forall x :: x in cur.nodes ==> Parent(t3, x) == Parent(cur, x))
  {
    var np := cur.next;
    var t2 := NewNode(cur, Element, "p", "");
    NewNodeWellFormed(cur, Element, "p", "");
    NewNodeGrown(cur, Element, "p", "");
    NewNodeKeeps(cur, Element, "p", "");
    var t3 := Append(t2, e, np);
    AppendWellFormed(t2, e, np);
    AppendOrphan(t2, e, np);
    GrownTrans(t3, t2, cur);
    forall x | x in cur.nodes ensures Parent(t3, x) == Parent(cur, x) {
      AppendAt(t2, e, np, x);
    }
  }

  /** Layout survives appending a fresh, empty paragraph np to e, given
      only what that append does to the tree. */
  lemma LayoutExtend(t0: Tree, cur: Tree, t3: Tree, e: NodeId, cs: seq<NodeId>, k: nat,
                     ps: seq<NodeId>, gs: seq<seq<NodeId>>, np: NodeId)
    requires Layout(t0, cur, e, cs, k, ps, gs)
    requires np !in cur.nodes && np in t3.nodes && WellFormed(t3) && Grown(t3, cur)
    requires Kids(t3, e) == Kids(cur, e) + [np] && Kids(t3, np) == [] && IsTag(t3, np, "p")
    requires forall q :: q in cur.nodes && q != e ==> Kids(t3, q) == Kids(cur, q)
    requires forall x :: x in cur.nodes ==> Parent(t3, x) == Parent(cur, x)
    ensures Layout(t0, t3, e, cs, k, ps + [np], gs + [[]])
  {
    var ps', gs' := ps + [np], gs + [[]];
    GrownTrans(t3, cur, t0);
    forall i, j | 0 <= i < j < |ps'| ensures ps'[i] != ps'[j] {
      if j == |ps| { assert ps'[i] in cur.nodes; }
    }
    forall i | 0 <= i < |ps'|
      ensures ps'[i] in t3.nodes && ps'[i] !in t0.nodes && IsTag(t3, ps'[i], "p") && Kids(t3, ps'[i]) == gs'[i]
    {
      if i < |ps| { assert ps'[i] == ps[i] && ps[i] in cur.nodes && ps[i] != e; }
    }
    forall i, x | 0 <= i < |gs'| && x in gs'[i] ensures x in cs[..k] {
      assert i < |gs| && gs'[i] == gs[i];
    }
    forall j | k <= j < |cs| ensures Parent(t3, cs[j]) == Parent(cur, cs[j]) {
      assert cs[j] in cur.nodes;
    }
    var pend := Pending(t0, Odds(cs), cs[..k]);
    assert (pend + ps) + [np] == pend + ps';
  }

  lemma LayoutNew(t0: Tree, cur: Tree, e: NodeId, cs: seq<NodeId>, k: nat, ps: seq<NodeId>, gs: seq<seq<NodeId>>)
    requires Layout(t0, cur, e, cs, k, ps, gs)
    ensures var t2 := NewNode(cur, Element, "p", "");
      && cur.next !in cur.nodes && e in t2.nodes && cur.next in t2.nodes && e != cur.next
      && Layout(t0, Append(t2, e, cur.next), e, cs, k, ps + [cur.next], gs + [[]])
  {
    assert e in cur.nodes;
    NewParagraph(cur, e);
    var t3 := Append(NewNode(cur, Element, "p", ""), e, cur.next);
    LayoutExtend(t0, cur, t3, e, cs, k, ps, gs, cur.next);
  }

  lemma OddsDistinct(cs: seq<NodeId>)
    requires Distinct(cs)
    ensures Distinct(Odds(cs))
  {
    var os := Odds(cs);
    forall i, j | 0 <= i < j < |os| ensures os[i] != os[j] {
      assert os[i] == cs[2 * i + 1] && os[j] == cs[2 * j + 1];
    }
  }

  /** Layout survives moving the non-br child c = cs[k] to the end of the
      last paragraph, given only what that move does to the tree. */
  lemma LayoutMove(t0: Tree, cur: Tree, t3: Tree, e: NodeId, cs: seq<NodeId>, k: nat,
                   ps: seq<NodeId>, gs: seq<seq<NodeId>>)
    requires Layout(t0, cur, e, cs, k, ps, gs) && k < |cs| && !IsBr(t0, cs[k]) && |ps| > 0
    requires WellFormed(t3) && Grown(t3, cur)
    requires Kids(t3, e) == Without(Kids(cur, e), cs[k])
    requires var gs' := gs[..|gs| - 1] + [gs[|gs| - 1] + [cs[k]]];
      forall i :: 0 <= i < |ps| ==> Kids(t3, ps[i]) == gs'[i]
    requires forall x :: x in cur.nodes && x != cs[k] ==> Parent(t3, x) == Parent(cur, x)
    ensures Layout(t0, t3, e, cs, k + 1, ps, gs[..|gs| - 1] + [gs[|gs| - 1] + [cs[k]]])
  {
    var c, n := cs[k], |ps|;
    GrownTrans(t3, cur, t0);
    GroupsGrow(cs, k, gs);
    forall i | 0 <= i < n ensures ps[i] in t3.nodes && IsTag(t3, ps[i], "p") {
      assert ps[i] in cur.nodes;
    }
    forall j | k + 1 <= j < |cs| ensures Parent(t3, cs[j]) == Parent(cur, cs[j]) {
      assert cs[j] in cur.nodes && cs[j] != c;
    }
    assert e in cur.nodes && e != ps[n - 1];
    assert c !in ps;
    PendingMove(t0, cs, k, ps, c);
  }

  /** The groups so far hold only handled children, so cs[k] is in none of
      them, and adding it to the last group keeps them within cs[..k + 1]. */
  lemma GroupsGrow(cs: seq<NodeId>, k: nat, gs: seq<seq<NodeId>>)
    requires k < |cs| && Distinct(cs) && |gs| > 0
    requires forall i, x :: 0 <= i < |gs| && x in gs[i] ==> x in cs[..k]
    ensures forall i :: 0 <= i < |gs| ==> cs[k] !in gs[i]
    ensures var gs' := gs[..|gs| - 1] + [gs[|gs| - 1] + [cs[k]]];
      forall i, x :: 0 <= i < |gs'| && x in gs'[i] ==> x in cs[..k + 1]
  {
    var c, n := cs[k], |gs|;
    var gs' := gs[..n - 1] + [gs[n - 1] + [c]];
    assert cs[..k + 1] == cs[..k] + [c];
    assert c !in cs[..k];
    forall i, x | 0 <= i < |gs'| && x in gs'[i] ensures x in cs[..k + 1] {
      if i < n - 1 || x != c { assert x in gs[i]; }
    }
  }

  /** Moving the non-br child cs[k] away from e takes it out of e's
      pending children and leaves the paragraphs after them alone. */
  lemma PendingMove(t0: Tree, cs: seq<NodeId>, k: nat, ps: seq<NodeId>, c: NodeId)
    requires k < |cs| && c == cs[k] && Distinct(cs) && !IsBr(t0, c) && c !in ps
    ensures Without(Pending(t0, Odds(cs), cs[..k]) + ps, c) == Pending(t0, Odds(cs), cs[..k + 1]) + ps
  {
    var pend := Pending(t0, Odds(cs), cs[..k]);
    assert cs[..k + 1] == cs[..k] + [c];
    assert c !in cs[..k];
    WithoutConcat(pend, ps, c);
    OddsDistinct(cs);
    PendingNonBr(t0, Odds(cs), cs[..k], c);
  }

  lemma LayoutJoin(t0: Tree, cur: Tree, e: NodeId, cs: seq<NodeId>, k: nat, ps: seq<NodeId>, gs: seq<seq<NodeId>>)
    requires Layout(t0, cur, e, cs, k, ps, gs) && k < |cs| && !IsBr(t0, cs[k]) && |ps| > 0
    ensures ps[|ps| - 1] in cur.nodes && cs[k] in cur.nodes && ps[|ps| - 1] != cs[k]
    ensures Layout(t0, Append(cur, ps[|ps| - 1], cs[k]), e, cs, k + 1, ps, gs[..|gs| - 1] + [gs[|gs| - 1] + [cs[k]]])
  {
    var pl, c := ps[|ps| - 1], cs[k];
    assert pl in cur.nodes && pl !in t0.nodes && c in t0.nodes;
    var t3 := Append(cur, pl, c);
    AppendWellFormed(cur, pl, c);
    AppendGrown(cur, pl, c);
    AppendEffect(cur, pl, c);
    assert e != pl && e in cur.nodes;
    AppendKids(cur, pl, c, e);
    GroupsGrow(cs, k, gs);
    DistinctNotBefore(cs, k);
    assert forall i :: 0 <= i < |gs| ==> c !in gs[i];
    JoinKids(cur, c, ps, gs);
    LayoutMove(t0, cur, t3, e, cs, k, ps, gs);
  }

  lemma DistinctNotBefore(cs: seq<NodeId>, k: nat)
    requires Distinct(cs) && k < |cs|
    ensures cs[k] !in cs[..k]
  {
  }

  /** Appending c to the last paragraph extends the last group. */
  lemma JoinKids(cur: Tree, c: NodeId, ps: seq<NodeId>, gs: seq<seq<NodeId>>)
    requires ChildrenPointBack(cur) && |ps| == |gs| && |ps| > 0 && Distinct(ps) && c in cur.nodes
    requires forall i :: 0 <= i < |ps| ==> ps[i] in cur.nodes && IsKind(cur, ps[i], Element) && ps[i] != c
    requires forall i :: 0 <= i < |ps| ==> Kids(cur, ps[i]) == gs[i] && c !in gs[i]
    ensures var gs' := gs[..|gs| - 1] + [gs[|gs| - 1] + [c]];
      forall i :: 0 <= i < |ps| ==> Kids(Append(cur, ps[|ps| - 1], c), ps[i]) == gs'[i]
  {
    var pl := ps[|ps| - 1];
    var gs' := gs[..|gs| - 1] + [gs[|gs| - 1] + [c]];
    forall i | 0 <= i < |ps| ensures Kids(Append(cur, pl, c), ps[i]) == gs'[i] {
      AppendKids(cur, pl, c, ps[i]);
      if i < |ps| - 1 { assert ps[i] != pl; }
    }
  }

  /** Every node that t2 has and t1 lacks is an element with the given tag. */
  ghost predicate NewNodesAre(t2: Tree, t1: Tree, tag: string)
  {
    forall x :: x in t2.nodes && x !in t1.nodes ==> IsTag(t2, x, tag)
  }

  lemma NewNodesAreTrans(t3: Tree, t2: Tree, t1: Tree, tag: string)
    requires Grown(t3, t2) && Grown(t2, t1) && NewNodesAre(t3, t2, tag) && NewNodesAre(t2, t1, tag)
    ensures NewNodesAre(t3, t1, tag)
  {
    forall x | x in t3.nodes && x !in t1.nodes ensures IsTag(t3, x, tag) {
      if x in t2.nodes { assert IsTag(t2, x, tag); }
    }
  }

  /** What the wrapping leaves: e's children are the br elements among the
      children that survived the live removal, in order, followed by one
      fresh p element per group of Group, holding exactly that group. */
  ghost predicate Wrapped(t0: Tree, t: Tree, e: NodeId, cs: seq<NodeId>)
  {
    var bs, gs, ks := Brs(t0, Odds(cs)), Group(t0, cs).groups, Kids(t, e);
    && |ks| == |bs| + |gs| && ks[..|bs|] == bs
    && forall i :: 0 <= i < |gs| ==>
         ks[|bs| + i] !in t0.nodes && IsTag(t, ks[|bs| + i], "p") && Kids(t, ks[|bs| + i]) == gs[i]
  }

  lemma WrapDone(t0: Tree, cur: Tree, e: NodeId, cs: seq<NodeId>, ps: seq<NodeId>, p: Option<NodeId>)
    requires WrapState(t0, cur, e, cs, |cs|, ps, p)
    ensures Wrapped(t0, cur, e, cs)
  {
    assert cs[..|cs|] == cs;
    forall x | x in Odds(cs) ensures x in cs {
      var i :| 0 <= i < |Odds(cs)| && Odds(cs)[i] == x;
    }
    PendingAll(t0, Odds(cs), cs);
    var bs := Brs(t0, Odds(cs));
    assert (bs + ps)[..|bs|] == bs;
    forall i | 0 <= i < |ps| ensures (bs + ps)[|bs| + i] == ps[i] { }
  }

  lemma WrapBr(t0: Tree, cur: Tree, e: NodeId, cs: seq<NodeId>, k: nat, ps: seq<NodeId>, p: Option<NodeId>)
    requires WrapState(t0, cur, e, cs, k, ps, p) && k < |cs| && IsBr(t0, cs[k])
    ensures WrapState(t0, cur, e, cs, k + 1, ps, None)
  {
    GroupStep(t0, cs, k);
    LayoutBr(t0, cur, e, cs, k, ps, Group(t0, cs[..k]).groups);
  }

  /** Between opening (or keeping) the paragraph and moving cs[k] into it:
      moving cs[k] to the last paragraph yields Group's groups on cs[..k + 1]. */
  ghost predicate Ready(t0: Tree, cur: Tree, e: NodeId, cs: seq<NodeId>, k: nat,
                        ps: seq<NodeId>, gs: seq<seq<NodeId>>)
  {
    && k < |cs| && !IsBr(t0, cs[k]) && |ps| > 0
    && Layout(t0, cur, e, cs, k, ps, gs)
    && gs[..|gs| - 1] + [gs[|gs| - 1] + [cs[k]]] == Group(t0, cs[..k + 1]).groups
  }

  lemma WrapOpen(t0: Tree, cur: Tree, e: NodeId, cs: seq<NodeId>, k: nat, ps: seq<NodeId>)
    requires WrapState(t0, cur, e, cs, k, ps, None) && k < |cs| && !IsBr(t0, cs[k])
    ensures var t2 := NewNode(cur, Element, "p", "");
      && cur.next !in cur.nodes && e in t2.nodes && cur.next in t2.nodes && e != cur.next
      && Ready(t0, Append(t2, e, cur.next), e, cs, k, ps + [cur.next], Group(t0, cs[..k]).groups + [[]])
  {
    var gs := Group(t0, cs[..k]).groups;
    LayoutNew(t0, cur, e, cs, k, ps, gs);
    var t3 := Append(NewNode(cur, Element, "p", ""), e, cur.next);
    ReadyOpen(t0, t3, e, cs, k, ps + [cur.next]);
  }

  lemma ReadyOpen(t0: Tree, t3: Tree, e: NodeId, cs: seq<NodeId>, k: nat, ps: seq<NodeId>)
    requires k < |cs| && !IsBr(t0, cs[k]) && |ps| > 0 && !Group(t0, cs[..k]).open
    requires Layout(t0, t3, e, cs, k, ps, Group(t0, cs[..k]).groups + [[]])
    ensures Ready(t0, t3, e, cs, k, ps, Group(t0, cs[..k]).groups + [[]])
  {
    var gs := Group(t0, cs[..k]).groups;
    GroupStep(t0, cs, k);
    var gs' := gs + [[]];
    assert gs'[..|gs'| - 1] == gs && gs'[|gs'| - 1] == [];
    assert [] + [cs[k]] == [cs[k]];
  }

  lemma WrapKeep(t0: Tree, cur: Tree, e: NodeId, cs: seq<NodeId>, k: nat, ps: seq<NodeId>, p: NodeId)
    requires WrapState(t0, cur, e, cs, k, ps, Some(p)) && k < |cs| && !IsBr(t0, cs[k])
    ensures Ready(t0, cur, e, cs, k, ps, Group(t0, cs[..k]).groups)
  {
    GroupStep(t0, cs, k);
  }

  lemma WrapJoin(t0: Tree, cur: Tree, e: NodeId, cs: seq<NodeId>, k: nat, ps: seq<NodeId>, gs: seq<seq<NodeId>>)
    requires Ready(t0, cur, e, cs, k, ps, gs)
    ensures ps[|ps| - 1] in cur.nodes && cs[k] in cur.nodes && ps[|ps| - 1] != cs[k]
    ensures WrapState(t0, Append(cur, ps[|ps| - 1], cs[k]), e, cs, k + 1, ps, Some(ps[|ps| - 1]))
  {
    LayoutJoin(t0, cur, e, cs, k, ps, gs);
    GroupStep(t0, cs, k);
  }

  /** createElement(tag) adds one node, an element with that tag. */
  lemma CreateKeeps(t0: Tree, t: Tree, tag: string)
    requires WellFormed(t) && Grown(t, t0) && NewNodesAre(t, t0, tag)
    ensures var r := NewNode(t, Element, tag, "");
      Grown(r, t0) && NewNodesAre(r, t0, tag)
  {
    var r := NewNode(t, Element, tag, "");
    NewNodeGrown(t, Element, tag, "");
    GrownTrans(r, t, t0);
    forall x | x in r.nodes && x !in t0.nodes ensures IsTag(r, x, tag) {
      if x in t.nodes { assert IsTag(t, x, tag); }
    }
  }

  /** appendChild adds no node and keeps every node's kind and tag. */
  lemma AppendKeeps(t0: Tree, t: Tree, p: NodeId, c: NodeId, tag: string)
    requires WellFormed(t) && Grown(t, t0) && NewNodesAre(t, t0, tag)
    ensures var r := Append(t, p, c);
      Grown(r, t0) && NewNodesAre(r, t0, tag)
  {
    var r := Append(t, p, c);
    AppendGrown(t, p, c);
    GrownTrans(r, t, t0);
    forall x | x in r.nodes && x !in t0.nodes ensures IsTag(r, x, tag) {
      assert IsTag(t, x, tag);
    }
  }

  /** The state after the live removeChildren on e, whose children were cs. */
  lemma WrapStart(t0: Tree, t1: Tree, e: NodeId, cs: seq<NodeId>)
    requires WellFormed(t0) && WellFormed(t1)
    requires t1 == DetachAll(t0, Evens(Kids(t0, e))) && Kids(t1, e) == Odds(Kids(t0, e))
    ensures Grown(t1, t0) && NewNodesAre(t1, t0, "p")
    ensures Kids(t0, e) == cs && IsKind(t0, e, Element) && e !in cs ==> WrapState(t0, t1, e, cs, 0, [], None)
  {
    DetachAllGrown(t0, Evens(Kids(t0, e)));
    DetachAllKeys(t0, Evens(Kids(t0, e)));
    if Kids(t0, e) == cs && IsKind(t0, e, Element) && e !in cs {
      InitParents(t0, e, cs);
      WrapInit(t0, t1, e, cs);
    }
  }

  lemma {:induction false} DetachAllKeys(t: Tree, xs: seq<NodeId>)
    ensures DetachAll(t, xs).nodes.Keys == t.nodes.Keys
    decreases |xs|
  {
    if xs != [] { DetachAllKeys(t, xs[..|xs| - 1]); }
  }

  /** The invariant of the walk over the snapshot cs: only fresh p elements
      were added, the open paragraph p is one of them, and, when cs is e's
      original child list, the loop's WrapState. */
  ghost predicate Walk(t0: Tree, t: Tree, e: NodeId, cs: seq<NodeId>, k: nat,
                       ps: seq<NodeId>, p: Option<NodeId>, exact: bool)
  {
    && k <= |cs| && WellFormed(t) && Grown(t, t0) && NewNodesAre(t, t0, "p")
    && e in t0.nodes && (forall x :: x in cs ==> x in t0.nodes)
    && (p.Some? ==> p.value in t.nodes && p.value !in t0.nodes)
    && (exact ==> WrapState(t0, t, e, cs, k, ps, p))
  }

  /** Some entry of cs is a br element. */
  predicate HasBr(t: Tree, cs: seq<NodeId>)
  {
    exists j :: 0 <= j < |cs| && IsBr(t, cs[j])
  }

  lemma HasBrSnoc(t: Tree, cs: seq<NodeId>, x: NodeId)
    ensures HasBr(t, cs + [x]) <==> HasBr(t, cs) || IsBr(t, x)
  {
    var s := cs + [x];
    if IsBr(t, x) { assert IsBr(t, s[|cs|]); }
    if HasBr(t, cs) {
      var j :| 0 <= j < |cs| && IsBr(t, cs[j]);
      assert s[j] == cs[j];
    }
    if HasBr(t, s) {
      var j :| 0 <= j < |s| && IsBr(t, s[j]);
      if j < |cs| { assert s[j] == cs[j]; }
    }
  }

  /** Every node that t2 has and t1 lacks is a text node. */
  ghost predicate NewNodesAreText(t2: Tree, t1: Tree)
  {
    forall x :: x in t2.nodes && x !in t1.nodes ==> IsKind(t2, x, Text)
  }

  /** createTextNode(data) adds one node, a text node. */
  lemma CreateTextKeeps(t0: Tree, t: Tree, data: string)
    requires WellFormed(t) && Grown(t, t0) && NewNodesAreText(t, t0)
    ensures var r := NewNode(t, Text, "", data);
      Grown(r, t0) && NewNodesAreText(r, t0)
  {
    var r := NewNode(t, Text, "", data);
    NewNodeGrown(t, Text, "", data);
    GrownTrans(r, t, t0);
    forall x | x in r.nodes && x !in t0.nodes ensures IsKind(r, x, Text) {
      if x in t.nodes { assert IsKind(t, x, Text); }
    }
  }

  lemma AppendKeepsText(t0: Tree, t: Tree, p: NodeId, c: NodeId)
    requires WellFormed(t) && Grown(t, t0) && NewNodesAreText(t, t0)
    ensures var r := Append(t, p, c);
      Grown(r, t0) && NewNodesAreText(r, t0)
  {
    var r := Append(t, p, c);
    AppendGrown(t, p, c);
    GrownTrans(r, t, t0);
    forall x | x in r.nodes && x !in t0.nodes ensures IsKind(r, x, Text) {
      assert IsKind(t, x, Text);
    }
  }

  lemma NewNodesAreTextTrans(t3: Tree, t2: Tree, t1: Tree)
    requires Grown(t3, t2) && Grown(t2, t1) && NewNodesAreText(t3, t2) && NewNodesAreText(t2, t1)
    ensures NewNodesAreText(t3, t1)
  {
    forall x | x in t3.nodes && x !in t1.nodes ensures IsKind(t3, x, Text) {
      if x in t2.nodes { assert IsKind(t2, x, Text); }
    }
  }
}
