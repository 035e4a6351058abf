/** FastNodeUtils.removeChildren: every child loses its parent link, then
    the child list is emptied in one step. */
module FastNodeUtils {
  import opened Wrappers
  import opened Dom

  method RemoveChildren(doc: Document, n: NodeId)
    requires doc.Valid() && n in doc.tree.nodes
    modifies doc
    ensures doc.Valid() && doc.tree == ClearChildren(old(doc.tree), n)
  {
    var t0 := doc.tree;
    var cs := t0.nodes[n].children;
    var i := 0;
    while i < |cs|
      invariant 0 <= i <= |cs|
      invariant doc.tree.next == t0.next && doc.tree.docNode == t0.docNode
      invariant doc.tree.nodes.Keys == t0.nodes.Keys
      invariant forall id :: id in t0.nodes ==>
        doc.tree.nodes[id] == if id in cs[..i] then t0.nodes[id].(parent := None) else t0.nodes[id]
    {
      var c := cs[i];
      assert c in t0.nodes;
      assert forall id :: id in cs[..i + 1] <==> id in cs[..i] || id == c by {
        assert cs[..i + 1] == cs[..i] + [c];
      }
      doc.tree := SetParent(doc.tree, c, None);
      i := i + 1;
    }
    assert cs[..i] == cs;
    OrphansThenClear(t0, n, doc.tree);
    doc.tree := SetChildren(doc.tree, n, []);
    ClearChildrenWellFormed(t0, n);
  }

  /** Emptying n's list once its children are orphaned is ClearChildren. */
  lemma OrphansThenClear(t0: Tree, n: NodeId, t1: Tree)
    requires n in t0.nodes
    requires t1.next == t0.next && t1.docNode == t0.docNode && t1.nodes.Keys == t0.nodes.Keys
    requires forall id :: id in t0.nodes ==>
      t1.nodes[id] == if id in t0.nodes[n].children then t0.nodes[id].(parent := None) else t0.nodes[id]
    ensures SetChildren(t1, n, []) == ClearChildren(t0, n)
  {
    var r, c := SetChildren(t1, n, []), ClearChildren(t0, n);
    forall id | id in t0.nodes ensures r.nodes[id] == c.nodes[id] {
    }
    assert r.nodes == c.nodes;
  }

  /** The node has no children left. */
  lemma ClearedHasNoChildren(t: Tree, n: NodeId)
    requires n in t.nodes
    ensures ClearChildren(t, n).nodes[n].children == []
  {
  }

  /** Every former child has no parent. */
  lemma FormerChildrenOrphaned(t: Tree, n: NodeId)
    requires n in t.nodes
    ensures forall c :: c in t.nodes[n].children && c in t.nodes ==> ClearChildren(t, n).nodes[c].parent == None
  {
  }

  /** Nothing else changes: every other field of every node, and the
      children (so the subtrees) of every node but n. */
  lemma ClearChildrenFrame(t: Tree, n: NodeId)
    requires n in t.nodes
    ensures var r := ClearChildren(t, n);
      && r.next == t.next && r.docNode == t.docNode && r.nodes.Keys == t.nodes.Keys
      && (forall id :: id in t.nodes ==>
            r.nodes[id].kind == t.nodes[id].kind && r.nodes[id].tag == t.nodes[id].tag &&
            r.nodes[id].attrs == t.nodes[id].attrs && r.nodes[id].data == t.nodes[id].data)
      && (forall id :: id in t.nodes && id != n ==> r.nodes[id].children == t.nodes[id].children)
      && (forall id :: id in t.nodes && id !in t.nodes[n].children ==> r.nodes[id].parent == t.nodes[id].parent)
  {
  }

  /** A second call changes nothing. */
  lemma ClearChildrenIdempotent(t: Tree, n: NodeId)
    requires n in t.nodes
    ensures ClearChildren(ClearChildren(t, n), n) == ClearChildren(t, n)
  {
    var r := ClearChildren(t, n);
    assert ClearChildren(r, n).nodes == r.nodes;
  }
}
