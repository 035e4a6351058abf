/** Index loops over live lists: a NodeList or child list that reflects
    every removal at once, so a removal shifts the following entries down
    by one while the index moves on. */
module Live {
  import opened Wrappers
  import opened Chars
  import opened Dom
  import opened Queries
  import opened Frames

  /** The entries at even positions 0, 2, 4, ... */
  function Evens(s: seq<NodeId>): (r: seq<NodeId>)
    ensures |r| == (|s| + 1) / 2 && forall i :: 0 <= i < |r| ==> r[i] == s[2 * i]
  {
    seq((|s| + 1) / 2, i requires 0 <= i < (|s| + 1) / 2 => s[2 * i])
  }

  /** The entries at odd positions 1, 3, 5, ... */
  function Odds(s: seq<NodeId>): (r: seq<NodeId>)
    ensures |r| == |s| / 2 && forall i :: 0 <= i < |r| ==> r[i] == s[2 * i + 1]
  {
    seq(|s| / 2, i requires 0 <= i < |s| / 2 => s[2 * i + 1])
  }

  /** Every entry is at an even or an odd position, not both. */
  lemma EvensOddsPartition(s: seq<NodeId>)
    requires Distinct(s)
    ensures forall x :: x in s <==> x in Evens(s) || x in Odds(s)
    ensures forall x :: x in Evens(s) ==> x !in Odds(s)
  {
    forall x | x in s ensures x in Evens(s) || x in Odds(s) {
      var k :| 0 <= k < |s| && s[k] == x;
      if k % 2 == 0 { assert Evens(s)[k / 2] == x; } else { assert Odds(s)[k / 2] == x; }
    }
    forall a, b | 0 <= a < |Evens(s)| && 0 <= b < |Odds(s)| ensures Evens(s)[a] != Odds(s)[b] {
      assert 2 * a != 2 * b + 1;
    }
  }

  lemma EvensOddsStep(s: seq<NodeId>, k: nat)
    requires k % 2 == 0 && k < |s|
    ensures Evens(s[..k + 1]) == Evens(s[..k]) + [s[k]]
    ensures k + 2 <= |s| ==> Evens(s[..k + 2]) == Evens(s[..k]) + [s[k]]
    ensures k + 2 <= |s| ==> Odds(s[..k + 2]) == Odds(s[..k]) + [s[k + 1]]
    ensures Odds(s[..k + 1]) == Odds(s[..k])
  {
  }

  /** The state of the live removeChildren loop after i rounds: the first
      Bound(i) original children have been dealt with, the even ones
      detached and the odd ones kept in front. */
  ghost predicate LiveState(t0: Tree, t: Tree, n: NodeId, cs: seq<NodeId>, i: nat)
  {
    && 2 * i <= |cs| + 1
    && Kids(t, n) == Odds(cs[..Bound(i, |cs|)]) + cs[Bound(i, |cs|)..]
    && t == DetachAll(t0, Evens(cs[..Bound(i, |cs|)]))
  }

  lemma LiveDone(t0: Tree, t: Tree, n: NodeId, cs: seq<NodeId>, i: nat)
    requires LiveState(t0, t, n, cs, i) && i >= |Kids(t, n)|
    ensures t == DetachAll(t0, Evens(cs)) && Kids(t, n) == Odds(cs)
  {
    assert cs[..Bound(i, |cs|)] == cs;

  }

  /** Removing a removable node during a loop over a live list keeps the
      tree pruned and does not lengthen the list. */
  lemma LiveDetach(t0: Tree, cur: Tree, x: NodeId, removable: set<NodeId>, root: NodeId, tag: string)
    requires x in cur.nodes && x in removable && Pruned(cur, t0, removable)
    ensures Pruned(Detach(cur, x), t0, removable)
    ensures |ElementsByTag(Detach(cur, x), root, tag)| <= |ElementsByTag(cur, root, tag)|
  {
    DetachPruned(cur, x, removable);
    PrunedTrans(Detach(cur, x), cur, t0, removable);
    DetachShrinks(cur, x);
    ElementsByTagShrinks(Detach(cur, x), cur, root, tag);
  }

  function Bound(i: nat, len: nat): nat
  {
    if 2 * i <= len then 2 * i else len
  }

  /** The child list after one removal, in terms of the original list. */
  lemma OddsShift(cs: seq<NodeId>, ks: seq<NodeId>, i: nat)
    requires 2 * i < |cs| && ks == Odds(cs[..2 * i]) + cs[2 * i..]
    ensures i < |ks| && ks[i] == cs[2 * i]
    ensures ks[..i] + ks[i + 1..] == Odds(cs[..Bound(i + 1, |cs|)]) + cs[Bound(i + 1, |cs|)..]
  {
    var k := 2 * i;
    var o := Odds(cs[..k]);
    assert |o| == i;
    assert ks[..i] == o;
    assert ks[i + 1..] == cs[k + 1..];
    EvensOddsStep(cs, k);
    if k + 2 <= |cs| {
      assert cs[k + 1..] == [cs[k + 1]] + cs[k + 2..];
      assert o + [cs[k + 1]] + cs[k + 2..] == o + ([cs[k + 1]] + cs[k + 2..]);
    } else {
      assert cs[..|cs|] == cs[..k + 1];
      assert cs[k + 1..] == [];
    }
  }

  /** One round of the live removeChildren loop. */
  lemma LiveRemovalStep(t0: Tree, cur: Tree, n: NodeId, cs: seq<NodeId>, i: nat)
    requires WellFormed(cur) && LiveState(t0, cur, n, cs, i) && i < |Kids(cur, n)|
    ensures Kids(cur, n)[i] in cur.nodes
    ensures LiveState(t0, Detach(cur, Kids(cur, n)[i]), n, cs, i + 1)
  {
    var k := 2 * i;
    assert Bound(i, |cs|) == k && k < |cs|;
    var b := if k + 2 <= |cs| then k + 2 else k + 1;
    assert b == Bound(i + 1, |cs|) && b <= |cs|;
    OddsShift(cs, Kids(cur, n), i);
    var x := Kids(cur, n)[i];
    DetachKids(cur, n, i);
    EvensOddsStep(cs, k);
    assert Evens(cs[..b]) == Evens(cs[..k]) + [x];
    DetachAllSnoc(t0, Evens(cs[..k]), x);
    assert Detach(cur, x) == DetachAll(t0, Evens(cs[..b]));
    assert Kids(Detach(cur, x), n) == Odds(cs[..b]) + cs[b..];
  }

  /** A listed child points back to its parent. */
  lemma KidParent(t: Tree, e: NodeId, c: NodeId)
    requires ChildrenPointBack(t) && c in Kids(t, e)
    ensures c in t.nodes && t.nodes[c].parent == Some(e)
  {
  }

  /** Every entry at an even position is an entry. */
  lemma EvensMembers(cs: seq<NodeId>)
    ensures forall z :: z in Evens(cs) ==> z in cs
  {
    forall z | z in Evens(cs) ensures z in cs {
      var i :| 0 <= i < |Evens(cs)| && Evens(cs)[i] == z;
      assert cs[2 * i] == z;
    }
  }

  /** The live removeChildren on n leaves every other detached node alone
      and every other child list as it was, and the children it took out
      have no parent. */
  lemma RemoveChildrenOutside(t: Tree, n: NodeId)
    requires WellFormed(t) && WellFormed(DetachAll(t, Evens(Kids(t, n))))
    requires Kids(DetachAll(t, Evens(Kids(t, n))), n) == Odds(Kids(t, n))
    ensures var r := DetachAll(t, Evens(Kids(t, n)));
      && r.nodes.Keys == t.nodes.Keys && OutsideKept(r, t, n)
      && (forall y :: y in t.nodes && y != n ==> Kids(r, y) == Kids(t, y))
      && (forall c :: c in Evens(Kids(t, n)) ==> Parent(r, c) == None)
  {
    var cs := Kids(t, n);
    var r := DetachAll(t, Evens(cs));
    var s := RemoveChildrenPruned(t, n);
    PrunedOutside(r, t, s, n);
    PrunedElsewhere(r, t, s, n);
    if cs != [] {
      EvensOddsPartition(cs);
      forall c | c in Evens(cs) ensures Parent(r, c) == None {
        PrunedLeft(r, t, s, n, c);
      }
    }
  }

  /** The removed children form a set of children of n that the
      detaching prunes. */
  lemma RemoveChildrenPruned(t: Tree, n: NodeId) returns (s: set<NodeId>)
    requires WellFormed(t)
    ensures Pruned(DetachAll(t, Evens(Kids(t, n))), t, s)
    ensures forall x :: x in Evens(Kids(t, n)) ==> x in s
    ensures forall x :: x in s ==> x in t.nodes && t.nodes[x].parent == Some(n)
  {
    var cs := Kids(t, n);
    s := set x | x in Evens(cs);
    DetachAllPruned(t, Evens(cs), s);
    EvensMembers(cs);
    forall x | x in s ensures x in t.nodes && t.nodes[x].parent == Some(n) {
      KidParent(t, n, x);
    }
  }

  /** A child of n that n no longer lists has lost its parent. */
  lemma PrunedLeft(r: Tree, t: Tree, s: set<NodeId>, n: NodeId, c: NodeId)
    requires WellFormed(r) && Pruned(r, t, s) && Kids(t, n) != []
    requires c in t.nodes && t.nodes[c].parent == Some(n) && c !in Kids(r, n)
    ensures Parent(r, c) == None
  {
  }

  // ------------------------------------- index loops over getElementsByTagName

  /** What decides whether the entry at the index goes. */
  datatype RemovalTest =
    | CleanTest(tag: string, minWords: int)   // clean(e, tag, minWords)
    | TitleTest(title: string)                // one heading tag of removeDuplicateTitle

  /** The test on x in the current tree: a table by its td count, another
      clean target by its textLength and tag, a heading by its first-level
      text. */
  predicate Drops(t: Tree, x: NodeId, test: RemovalTest)
  {
    match test
    case CleanTest(tag, minWords) =>
      if EqualsIgnoreCase(tag, "table") then |ElementsByTag(t, x, "td")| < minWords
      else x in t.nodes && TextLength(t, x) < minWords && !EqualsIgnoreCase(t.nodes[x].tag, "pre")
    case TitleTest(title) => FirstLevelText(t, x) == title
  }

  /** The index loop over the live list of tag elements under root, from
      index i on: the list is read again from the current tree at every
      round, its i-th entry is detached when the test holds, and the index
      moves on either way, so an entry that a removal shifts into the index
      just passed is never visited. */
  ghost function LiveRemoval(t: Tree, root: NodeId, tag: string, test: RemovalTest, i: nat): Tree
    decreases |ElementsByTag(t, root, tag)| - i
  {
    var ls := ElementsByTag(t, root, tag);
    if i >= |ls| then t
    else
      var t' := RemovalRound(t, ls[i], test);
      assert MatchesTag(t, ls[i], tag);
      DetachShrinks(t, ls[i]);
      ElementsByTagShrinks(Detach(t, ls[i]), t, root, tag);
      LiveRemoval(t', root, tag, test, i + 1)
  }

  /** One round of the loop moves LiveRemoval on by one index. */
  lemma LiveRemovalAdvance(t: Tree, t': Tree, root: NodeId, tag: string, test: RemovalTest, i: nat, i': nat)
    requires i < |ElementsByTag(t, root, tag)| && i' == i + 1
    requires t' == RemovalRound(t, ElementsByTag(t, root, tag)[i], test)
    ensures LiveRemoval(t', root, tag, test, i') == LiveRemoval(t, root, tag, test, i)
  {
  }

  /** The tree after the round on the listed entry x. */
  function RemovalRound(t: Tree, x: NodeId, test: RemovalTest): Tree
  {
    if Drops(t, x, test) then Detach(t, x) else t
  }

  lemma LiveRemovalDone(t: Tree, root: NodeId, tag: string, test: RemovalTest, i: nat)
    requires i >= |ElementsByTag(t, root, tag)|
    ensures LiveRemoval(t, root, tag, test, i) == t
  {
  }

  /** A div (node 1) whose only children are two h1 elements (nodes 2 and
      3) with no text. */
  function SiblingHeadings(): (t: Tree)
    ensures Kids(t, 1) == [2, 3]
  {
    Tree(map[0 := Node(DocumentNode, "", [], "", [1], None),
             1 := Node(Element, "div", [], "", [2, 3], Some(0)),
             2 := Node(Element, "h1", [], "", [], Some(1)),
             3 := Node(Element, "h1", [], "", [], Some(1))],
         4, 0)
  }

  /** With two adjacent copies of the title, the loop removes the first;
      the second shifts into index 0, which has been passed, so it stays
      in place although its text is the title. */
  lemma AdjacentCopySkipped()
    ensures var t := SiblingHeadings();
      && ElementsByTag(t, 1, "h1") == [2, 3]
      && Drops(t, 3, TitleTest(""))
      && LiveRemoval(t, 1, "h1", TitleTest(""), 0) == Detach(t, 2)
      && Kids(Detach(t, 2), 1) == [3] && Parent(Detach(t, 2), 3) == Some(1)
  {
    var t := SiblingHeadings();
    assert Kids(t, 2) == [] && Kids(t, 3) == [];
    assert ByTagAt(t, 2, "h1", 4) == [2];
    assert ByTagAt(t, 3, "h1", 4) == [3];
    assert ByTagIn(t, [3], "h1", 4) == [3];
    assert ElementsByTag(t, 1, "h1") == [2, 3];
    assert FirstLevelText(t, 2) == "";
    var t1 := Detach(t, 2);
    DetachEffect(t, 2);
    assert t1.nodes[1].children == [3] by {
      assert Without([2, 3], 2) == [3];
    }
    assert Kids(t1, 3) == [];
    assert ByTagAt(t1, 3, "h1", 4) == [3];
    assert ByTagIn(t1, [3], "h1", 4) == [3];
    assert ElementsByTag(t1, 1, "h1") == [3];
    assert LiveRemoval(t1, 1, "h1", TitleTest(""), 1) == t1;
  }
}
