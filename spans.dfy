/** The child list killCodeSpansAndBreaks leaves in an element when it
    does not descend further: which children are put back, and how they
    interleave with the text nodes it creates. */
module Spans {
  import opened Wrappers
  import opened Chars
  import opened Dom
  import opened Queries
  import opened Frames
  import opened Live
  import opened Wrap

  /** A child that is put back after a text node when the walk does not
      descend: an element other than br, span, p and div (a p or div with
      no content seen below it becomes a " " instead). */
  predicate MovesBack(t: Tree, x: NodeId)
  {
    IsKind(t, x, Element) && t.nodes[x].tag != "br" && t.nodes[x].tag != "span" &&
    t.nodes[x].tag != "p" && t.nodes[x].tag != "div"
  }

  /** A child the walk drops by not putting it back. */
  predicate IsBreakOrSpan(t: Tree, x: NodeId)
  {
    IsKind(t, x, Element) && (t.nodes[x].tag == "br" || t.nodes[x].tag == "span")
  }

  /** The entries of cs that are put back, in order. */
  function Moved(t: Tree, cs: seq<NodeId>): (r: seq<NodeId>)
    ensures |r| <= |cs|
    decreases |cs|
  {
    if cs == [] then []
    else Moved(t, cs[..|cs| - 1]) + (if MovesBack(t, cs[|cs| - 1]) then [cs[|cs| - 1]] else [])
  }

  /** Moved keeps exactly the entries that move back. */
  lemma {:induction false} MovedMembers(t: Tree, cs: seq<NodeId>)
    ensures forall x :: x in Moved(t, cs) <==> x in cs && MovesBack(t, x)
    decreases |cs|
  {
    if cs != [] {
      MovedMembers(t, cs[..|cs| - 1]);
      assert cs == cs[..|cs| - 1] + [cs[|cs| - 1]];
    }
  }

  lemma MovedSnoc(t: Tree, cs: seq<NodeId>, k: nat)
    requires k < |cs|
    ensures Moved(t, cs[..k + 1]) == Moved(t, cs[..k]) + (if MovesBack(t, cs[k]) then [cs[k]] else [])
  {
    assert cs[..k + 1][..k] == cs[..k];
  }

  /** s with the entries of ms taken out. */
  function Drop(s: seq<NodeId>, ms: seq<NodeId>): (r: seq<NodeId>)
    ensures |r| <= |s|
  {
    if s == [] then []
    else (if s[0] in ms then [] else [s[0]]) + Drop(s[1..], ms)
  }

  /** Drop keeps exactly the entries of s that are not in ms. */
  lemma {:induction false} DropMembers(s: seq<NodeId>, ms: seq<NodeId>)
    ensures forall x :: x in Drop(s, ms) <==> x in s && x !in ms
  {
    if s != [] {
      DropMembers(s[1..], ms);
      assert s == [s[0]] + s[1..];
    }
  }

  lemma {:induction false} DropNone(s: seq<NodeId>)
    ensures Drop(s, []) == s
  {
    if s != [] {
      DropNone(s[1..]);
      assert s == [s[0]] + s[1..];
    }
  }

  lemma WithoutCons(x: NodeId, d: seq<NodeId>, c: NodeId)
    ensures Without([x] + d, c) == (if x == c then [] else [x]) + Without(d, c)
  {
    assert ([x] + d)[0] == x && ([x] + d)[1..] == d;
  }

  /** Moving c to the end of a list takes it out of the kept part. */
  lemma {:induction false} DropSnoc(s: seq<NodeId>, ms: seq<NodeId>, c: NodeId)
    ensures Without(Drop(s, ms), c) == Drop(s, ms + [c])
  {
    if s != [] {
      DropSnoc(s[1..], ms, c);
      var d := Drop(s[1..], ms);
      assert Drop(s, ms) == (if s[0] in ms then [] else [s[0]]) + d;
      if s[0] !in ms {
        WithoutCons(s[0], d, c);
      } else {
        assert Drop(s, ms) == d;
      }
    }
  }

  /** The text node put before each moved child, then the child. */
  function Pairs(ts: seq<NodeId>, ms: seq<NodeId>): (r: seq<NodeId>)
    requires |ts| == |ms|
    ensures |r| == 2 * |ms|
    decreases |ms|
  {
    if ms == [] then []
    else Pairs(ts[..|ts| - 1], ms[..|ms| - 1]) + [ts[|ts| - 1], ms[|ms| - 1]]
  }

  /** Pairs holds exactly the text nodes and the moved children. */
  lemma {:induction false} PairsMembers(ts: seq<NodeId>, ms: seq<NodeId>)
    requires |ts| == |ms|
    ensures forall x :: x in Pairs(ts, ms) <==> x in ts || x in ms
    decreases |ms|
  {
    if ms != [] {
      PairsMembers(ts[..|ts| - 1], ms[..|ms| - 1]);
      assert ts == ts[..|ts| - 1] + [ts[|ts| - 1]];
      assert ms == ms[..|ms| - 1] + [ms[|ms| - 1]];
    }
  }

  lemma PairsSnoc(ts: seq<NodeId>, ms: seq<NodeId>, x: NodeId, m: NodeId)
    requires |ts| == |ms|
    ensures Pairs(ts + [x], ms + [m]) == Pairs(ts, ms) + [x, m]
  {
    assert (ts + [x])[..|ts|] == ts;
    assert (ms + [m])[..|ms|] == ms;
  }

  /** The state of the walk over the snapshot cs of e's children after k
      entries: e holds the odd children the live removeChildren left,
      less those moved to the end, then a text node and a moved child for
      each child moved; the even children not moved have no parent; every
      other node keeps its children; and the flag is whether the last
      child moved has children. */
  ghost predicate SpanState(t0: Tree, t: Tree, e: NodeId, cs: seq<NodeId>, k: nat,
                            texts: seq<NodeId>, hasChild: bool)
  {
    k <= |cs| && Walked(t0, t, e, cs, Moved(t0, cs[..k]), texts, hasChild)
  }

  /** SpanState for the list ms of children moved so far. */
  ghost predicate Walked(t0: Tree, t: Tree, e: NodeId, cs: seq<NodeId>, ms: seq<NodeId>,
                         texts: seq<NodeId>, hasChild: bool)
  {
    && |texts| == |ms|
    && Kids(t, e) == Drop(Odds(cs), ms) + Pairs(texts, ms)
    && (forall x :: x in texts ==> x !in t0.nodes && IsKind(t, x, Text))
    && (forall c :: c in Evens(cs) && c !in ms ==> Parent(t, c) == None)
    && (forall y :: y in t0.nodes && y != e ==> Kids(t, y) == Kids(t0, y))
    && (hasChild <==> ms != [] && Kids(t0, ms[|ms| - 1]) != [])
  }

  /** What killCodeSpansAndBreaks leaves when it does not descend: the
      state after the whole walk, then at most one last text node. */
  ghost predicate SpansKilled(t0: Tree, t: Tree, e: NodeId, texts: seq<NodeId>,
                              rest: seq<NodeId>, hasChild: bool)
  {
    var cs := Kids(t0, e);
    var ms := Moved(t0, cs);
    && |texts| == |ms| && |rest| <= 1
    && Kids(t, e) == Drop(Odds(cs), ms) + Pairs(texts, ms) + rest
    && (forall x :: x in texts + rest ==> x !in t0.nodes && IsKind(t, x, Text))
    && (forall c :: c in Evens(cs) && !MovesBack(t0, c) ==> Parent(t, c) == None)
    && (forall y :: y in t0.nodes && y != e ==> Kids(t, y) == Kids(t0, y))
    && (hasChild <==> (ms != [] && Kids(t0, ms[|ms| - 1]) != []) ||
                      (rest != [] && HasVisible(Data(t, rest[0]))))
  }

  /** A br or span child at an odd position is never removed: the live
      removeChildren skipped it and the walk only drops such children by
      not putting them back. */
  lemma OddBreaksStay(t0: Tree, t: Tree, e: NodeId, texts: seq<NodeId>, rest: seq<NodeId>, hasChild: bool)
    requires SpansKilled(t0, t, e, texts, rest, hasChild)
    ensures forall c :: c in Odds(Kids(t0, e)) && IsBreakOrSpan(t0, c) ==> c in Kids(t, e)
  {
    var cs := Kids(t0, e);
    MovedMembers(t0, cs);
    DropMembers(Odds(cs), Moved(t0, cs));
  }

  /** A br or span child at an even position is gone: the live
      removeChildren detached it and the walk did not put it back. */
  lemma EvenBreaksGone(t0: Tree, t: Tree, e: NodeId, texts: seq<NodeId>, rest: seq<NodeId>, hasChild: bool)
    requires ChildrenPointBack(t) && SpansKilled(t0, t, e, texts, rest, hasChild)
    ensures forall c :: c in Evens(Kids(t0, e)) && IsBreakOrSpan(t0, c) ==> c !in Kids(t, e)
  {
    forall c | c in Evens(Kids(t0, e)) && IsBreakOrSpan(t0, c) ensures c !in Kids(t, e) {
      if c in Kids(t, e) {
        KidParent(t, e, c);
      }
    }
  }

  /** Taking out c leaves a tail without c as it was. */
  lemma {:induction false} WithoutFree(a: seq<NodeId>, b: seq<NodeId>, c: NodeId)
    requires c !in b
    ensures Without(a + b, c) == Without(a, c) + b
  {
    if a == [] {
      assert a + b == b;
    } else {
      var ab := a + b;
      assert ab[0] == a[0] && ab[1..] == a[1..] + b;
      WithoutFree(a[1..], b, c);
      if a[0] == c {
        assert Without(ab, c) == Without(a[1..] + b, c);
        assert Without(a, c) == Without(a[1..], c);
      } else {
        assert Without(ab, c) == [a[0]] + Without(a[1..] + b, c);
        assert Without(a, c) == [a[0]] + Without(a[1..], c);
      }
    }
  }

  /** The state right after the live removeChildren. */
  lemma SpanStart(t0: Tree, t: Tree, e: NodeId, cs: seq<NodeId>)
    requires Kids(t, e) == Odds(cs)
    requires forall y :: y in t0.nodes && y != e ==> Kids(t, y) == Kids(t0, y)
    requires forall c :: c in Evens(cs) ==> Parent(t, c) == None
    ensures SpanState(t0, t, e, cs, 0, [], false)
  {
    assert cs[..0] == [];
    DropNone(Odds(cs));
  }

  /** A child that is not put back leaves the tree as it was. */
  lemma SpanKeep(t0: Tree, t: Tree, e: NodeId, cs: seq<NodeId>, k: nat, texts: seq<NodeId>, hasChild: bool)
    requires SpanState(t0, t, e, cs, k, texts, hasChild) && k < |cs| && !MovesBack(t0, cs[k])
    ensures SpanState(t0, t, e, cs, k + 1, texts, hasChild)
  {
    MovedSnoc(t0, cs, k);
    assert Moved(t0, cs[..k + 1]) == Moved(t0, cs[..k]);
  }

  /** Moving c behind the new text node x at the end of e's list. */
  lemma MoveKids(o: seq<NodeId>, ms: seq<NodeId>, texts: seq<NodeId>, x: NodeId, c: NodeId)
    requires |texts| == |ms| && c !in ms && c !in texts && x != c
    ensures Without(Drop(o, ms) + Pairs(texts, ms) + [x], c) + [c] ==
            Drop(o, ms + [c]) + Pairs(texts + [x], ms + [c])
  {
    var a := Drop(o, ms);
    var b := Pairs(texts, ms) + [x];
    PairsMembers(texts, ms);
    assert Drop(o, ms) + Pairs(texts, ms) + [x] == a + b;
    WithoutFree(a, b, c);
    DropSnoc(o, ms, c);
    PairsSnoc(texts, ms, x, c);
  }

  /** A child put back: t1 is the tree after appending the new text node
      x to e, and the child itself is then appended. */
  lemma SpanMove(t0: Tree, cur: Tree, t1: Tree, e: NodeId, cs: seq<NodeId>, k: nat,
                 texts: seq<NodeId>, hasChild: bool, x: NodeId)
    requires WellFormed(t0) && cs == Kids(t0, e)
    requires SpanState(t0, cur, e, cs, k, texts, hasChild) && k < |cs| && MovesBack(t0, cs[k])
    requires t0.nodes.Keys <= cur.nodes.Keys && cur.nodes.Keys <= t1.nodes.Keys
    requires ChildrenPointBack(t1) && IsKind(t1, e, Element) && e != cs[k]
    requires x !in cur.nodes && IsKind(t1, x, Text)
    requires Kids(t1, e) == Kids(cur, e) + [x]
    requires forall y :: y in cur.nodes && y != e ==> Kids(t1, y) == Kids(cur, y)
    requires forall y :: y in cur.nodes ==> Parent(t1, y) == Parent(cur, y) && (IsKind(cur, y, Text) ==> IsKind(t1, y, Text))
    ensures var c := cs[k]; var t2 := Append(t1, e, c);
      SpanState(t0, t2, e, cs, k + 1, texts + [x], Kids(t0, c) != []) && Kids(t2, c) == Kids(t0, c)
  {
    var c := cs[k];
    var t2 := Append(t1, e, c);
    var ms := Moved(t0, cs[..k]);
    MovedSnoc(t0, cs, k);
    assert Moved(t0, cs[..k + 1]) == ms + [c];
    KidParent(t0, e, c);
    MovedMembers(t0, cs[..k]);
    assert c !in ms by {
      assert forall j :: 0 <= j < k ==> cs[j] != c;
    }
    SpanMoveWalked(t0, cur, t1, e, cs, ms, texts, hasChild, x, c);
  }

  lemma SpanMoveWalked(t0: Tree, cur: Tree, t1: Tree, e: NodeId, cs: seq<NodeId>, ms: seq<NodeId>,
                       texts: seq<NodeId>, hasChild: bool, x: NodeId, c: NodeId)
    requires WellFormed(t0) && cs == Kids(t0, e) && c in cs && c !in ms
    requires Walked(t0, cur, e, cs, ms, texts, hasChild)
    requires t0.nodes.Keys <= cur.nodes.Keys && cur.nodes.Keys <= t1.nodes.Keys
    requires ChildrenPointBack(t1) && IsKind(t1, e, Element) && e != c
    requires x !in cur.nodes && IsKind(t1, x, Text)
    requires Kids(t1, e) == Kids(cur, e) + [x]
    requires forall y :: y in cur.nodes && y != e ==> Kids(t1, y) == Kids(cur, y)
    requires forall y :: y in cur.nodes ==> Parent(t1, y) == Parent(cur, y) && (IsKind(cur, y, Text) ==> IsKind(t1, y, Text))
    ensures var t2 := Append(t1, e, c);
      Walked(t0, t2, e, cs, ms + [c], texts + [x], Kids(t0, c) != []) && Kids(t2, c) == Kids(t0, c)
  {
    KidParent(t0, e, c);
    assert c !in texts;
    SpanMoveKids(Odds(cs), ms, texts, t1, e, x, c);
    AppendBackElsewhere(t0, t1, e, c);
    EvensIn(t0, e, cs);
    AppendBackKeeps(t0, cur, t1, e, c, texts, x, Evens(cs), ms);
  }

  lemma SpanMoveKids(o: seq<NodeId>, ms: seq<NodeId>, texts: seq<NodeId>, t1: Tree, e: NodeId, x: NodeId, c: NodeId)
    requires |texts| == |ms| && c !in ms && c !in texts && x != c
    requires ChildrenPointBack(t1) && IsKind(t1, e, Element) && c in t1.nodes && e != c
    requires Kids(t1, e) == Drop(o, ms) + Pairs(texts, ms) + [x]
    ensures Kids(Append(t1, e, c), e) == Drop(o, ms + [c]) + Pairs(texts + [x], ms + [c])
  {
    AppendKids(t1, e, c, e);
    MoveKids(o, ms, texts, x, c);
  }

  /** The children of e are nodes of t0. */
  lemma EvensIn(t0: Tree, e: NodeId, cs: seq<NodeId>)
    requires WellFormed(t0) && cs == Kids(t0, e)
    ensures forall z :: z in Evens(cs) ==> z in t0.nodes
  {
    forall z | z in Evens(cs) ensures z in t0.nodes {
      var i :| 0 <= i < |Evens(cs)| && Evens(cs)[i] == z;
      assert cs[2 * i] == z;
    }
  }

  /** Appending e's child c to e leaves every other child list of t0. */
  lemma AppendBackElsewhere(t0: Tree, t1: Tree, e: NodeId, c: NodeId)
    requires ChildrenPointBack(t0) && c in t0.nodes && t0.nodes[c].parent == Some(e)
    requires ChildrenPointBack(t1) && e in t1.nodes && c in t1.nodes && e != c
    requires forall y :: y in t0.nodes && y != e ==> Kids(t1, y) == Kids(t0, y)
    ensures forall y :: y in t0.nodes && y != e ==> Kids(Append(t1, e, c), y) == Kids(t0, y)
  {
    forall y | y in t0.nodes && y != e ensures Kids(Append(t1, e, c), y) == Kids(t0, y) {
      assert c in Kids(t0, y) ==> c in t0.nodes[y].children;
      AppendKids(t1, e, c, y);
    }
  }

  /** Appending c keeps text nodes text and leaves the parents of the
      other nodes of xs. */
  lemma AppendBackKeeps(t0: Tree, cur: Tree, t1: Tree, e: NodeId, c: NodeId, texts: seq<NodeId>, x: NodeId,
                        xs: seq<NodeId>, ms: seq<NodeId>)
    requires ChildrenPointBack(t1) && e in t1.nodes && c in t1.nodes && e != c
    requires cur.nodes.Keys <= t1.nodes.Keys && x !in cur.nodes && IsKind(t1, x, Text)
    requires forall z :: z in texts ==> z !in t0.nodes && IsKind(cur, z, Text)
    requires forall z :: z in xs ==> z in cur.nodes
    requires forall z :: z in xs && z !in ms ==> Parent(cur, z) == None
    requires x !in t0.nodes
    requires forall y :: y in cur.nodes ==> Parent(t1, y) == Parent(cur, y) && (IsKind(cur, y, Text) ==> IsKind(t1, y, Text))
    ensures forall z :: z in texts + [x] ==> z !in t0.nodes && IsKind(Append(t1, e, c), z, Text)
    ensures forall z :: z in xs && z !in ms + [c] ==> Parent(Append(t1, e, c), z) == None
  {
    forall z | z in texts + [x] ensures IsKind(Append(t1, e, c), z, Text) {
      AppendAt(t1, e, c, z);
    }
    forall z | z in xs && z !in ms + [c] ensures Parent(Append(t1, e, c), z) == None {
      AppendAt(t1, e, c, z);
    }
  }

  /** The last text node rest[0] appended to e, and nothing else changed. */
  ghost predicate SpanLast(cur: Tree, t: Tree, e: NodeId, rest: seq<NodeId>)
  {
    && |rest| == 1 && rest[0] !in cur.nodes && IsKind(t, rest[0], Text)
    && Kids(t, e) == Kids(cur, e) + rest
    && (forall y :: y in cur.nodes && y != e ==> Kids(t, y) == Kids(cur, y))
    && (forall y :: y in cur.nodes ==> Parent(t, y) == Parent(cur, y) && (IsKind(cur, y, Text) ==> IsKind(t, y, Text)))
  }

  /** The end of the walk: cur is the tree after the last child, t the
      tree after the last text node (rest) if there was one. */
  lemma SpanDone(t0: Tree, cur: Tree, t: Tree, e: NodeId, texts: seq<NodeId>, rest: seq<NodeId>,
                 hc0: bool, hasChild: bool)
    requires ChildrenPointBack(t0) && SpanState(t0, cur, e, Kids(t0, e), |Kids(t0, e)|, texts, hc0)
    requires t0.nodes.Keys <= cur.nodes.Keys
    requires rest == [] ==> t == cur && hasChild == hc0
    requires rest != [] ==> SpanLast(cur, t, e, rest) && hasChild == (hc0 || HasVisible(Data(t, rest[0])))
    ensures SpansKilled(t0, t, e, texts, rest, hasChild)
  {
    var cs := Kids(t0, e);
    assert cs[..|cs|] == cs;
    var ms := Moved(t0, cs);
    EvensMembers(cs);
    MovedMembers(t0, cs);
    assert forall z :: z in Evens(cs) && !MovesBack(t0, z) ==> z !in ms;
    if rest == [] {
      assert Kids(t, e) == Drop(Odds(cs), ms) + Pairs(texts, ms) + rest;
    } else {
      SpanDoneText(t0, cur, t, e, cs, ms, texts, rest, hc0);
    }
  }

  lemma SpanDoneText(t0: Tree, cur: Tree, t: Tree, e: NodeId, cs: seq<NodeId>, ms: seq<NodeId>,
                     texts: seq<NodeId>, rest: seq<NodeId>, hc0: bool)
    requires Walked(t0, cur, e, cs, ms, texts, hc0) && t0.nodes.Keys <= cur.nodes.Keys
    requires ChildrenPointBack(t0) && cs == Kids(t0, e) && SpanLast(cur, t, e, rest)
    ensures Kids(t, e) == Drop(Odds(cs), ms) + Pairs(texts, ms) + rest
    ensures forall x :: x in texts + rest ==> x !in t0.nodes && IsKind(t, x, Text)
    ensures forall c :: c in Evens(cs) && c !in ms ==> Parent(t, c) == None
    ensures forall y :: y in t0.nodes && y != e ==> Kids(t, y) == Kids(t0, y)
  {
    EvensMembers(cs);
    forall c | c in Evens(cs) ensures c in cur.nodes {
      KidParent(t0, e, c);
    }
  }

  /** e.appendChild(doc.createTextNode(data)) on t: one new text node x,
      the last child of e, and nothing else changed but e's child list;
      relative to an earlier tree t0 only text nodes are new and no other
      detached node of t0 is touched. */
  lemma TextAppended(t0: Tree, t: Tree, e: NodeId, data: string)
    requires WellFormed(t) && Grown(t, t0) && NewNodesAreText(t, t0)
    requires ChildrenPointBack(t0) && e in t0.nodes && OutsideKept(t, t0, e)
    ensures var x := t.next; var r := Append(NewNode(t, Text, "", data), e, x);
      && Grown(r, t) && Grown(r, t0) && NewNodesAreText(r, t0) && OutsideKept(r, t0, e)
      && x !in t.nodes && IsKind(r, x, Text) && Data(r, x) == data
      && (IsKind(t, e, Element) ==> Kids(r, e) == Kids(t, e) + [x])
      && (forall y :: y in t.nodes && y != e ==> Kids(r, y) == Kids(t, y))
      && (forall y :: y in t.nodes ==> Parent(r, y) == Parent(t, y) && (IsKind(t, y, Text) ==> IsKind(r, y, Text)))
  {
    var x := t.next;
    var tn := NewNode(t, Text, "", data);
    NewNodeWellFormed(t, Text, "", data);
    CreateTextKeeps(t0, t, data);
    NewNodeOutside(t0, t, e, Text, "", data);
    AppendKeepsText(t0, tn, e, x);
    AppendOutside(t0, tn, e, e, x);
    TextAppendedKids(t, e, data);
  }

  lemma TextAppendedKids(t: Tree, e: NodeId, data: string)
    requires WellFormed(t) && e in t.nodes
    ensures var x := t.next; var r := Append(NewNode(t, Text, "", data), e, x);
      && Grown(r, t) && x !in t.nodes && IsKind(r, x, Text) && Data(r, x) == data
      && (IsKind(t, e, Element) ==> Kids(r, e) == Kids(t, e) + [x])
      && (forall y :: y in t.nodes && y != e ==> Kids(r, y) == Kids(t, y))
      && (forall y :: y in t.nodes ==> Parent(r, y) == Parent(t, y) && (IsKind(t, y, Text) ==> IsKind(r, y, Text)))
  {
    var x := t.next;
    var tn := NewNode(t, Text, "", data);
    NewNodeWellFormed(t, Text, "", data);
    NewNodeGrown(t, Text, "", data);
    AppendOrphan(tn, e, x);
    var r := Append(tn, e, x);
    GrownTrans(r, tn, t);
    forall y | y in t.nodes && y != e ensures Kids(r, y) == Kids(t, y) {
      assert tn.nodes[y] == t.nodes[y];
    }
    forall y | y in t.nodes ensures Parent(r, y) == Parent(t, y) {
      AppendEffect(tn, e, x);
      assert y != x && tn.nodes[y] == t.nodes[y];
    }
  }
}
