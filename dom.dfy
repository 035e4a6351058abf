/** The W3C DOM the extractor runs on, as an arena: node ids map to node
    records holding kind, tag, attribute list, text data, ordered children
    and parent. The primitive mutations (removeChild, appendChild,
    createElement, setAttribute, ...) are functions from tree to tree; the
    Document class applies them in place. */
module Dom {
  import opened Wrappers

  type NodeId = nat

  datatype Kind = DocumentNode | Element | Text | Comment

  datatype Attr = Attr(name: string, value: string)

  /** tag is meaningful for elements, data for text and comment nodes. */
  datatype Node = Node(kind: Kind, tag: string, attrs: seq<Attr>, data: string,
                       children: seq<NodeId>, parent: Option<NodeId>)

  /** All ids in use are below next; docNode is the Document node. */
  datatype Tree = Tree(nodes: map<NodeId, Node>, next: nat, docNode: NodeId)

  // ---------------------------------------------------------------- attributes

  /** getAttribute: the value, or "" when the attribute is absent. */
  function GetAttr(attrs: seq<Attr>, name: string): (v: string)
    ensures (forall i :: 0 <= i < |attrs| ==> attrs[i].name != name) ==> v == ""
  {
    if attrs == [] then ""
    else if attrs[0].name == name then attrs[0].value
    else GetAttr(attrs[1..], name)
  }

  /** setAttribute: replace the value in place, or add the attribute last. */
  function SetAttr(attrs: seq<Attr>, name: string, value: string): (r: seq<Attr>)
    ensures GetAttr(r, name) == value
    ensures forall m :: m != name ==> GetAttr(r, m) == GetAttr(attrs, m)
    ensures forall a :: a in r ==> a.name == name || a in attrs
    ensures UniqueNames(attrs) ==> UniqueNames(r)
  {
    if attrs == [] then [Attr(name, value)]
    else if attrs[0].name == name then
      UniqueCons(attrs[0], attrs[1..]);
      UniqueCons(Attr(name, value), attrs[1..]);
      [Attr(name, value)] + attrs[1..]
    else
      var rest := SetAttr(attrs[1..], name, value);
      UniqueCons(attrs[0], attrs[1..]);
      UniqueCons(attrs[0], rest);
      [attrs[0]] + rest
  }

  lemma UniqueCons(a: Attr, rest: seq<Attr>)
    ensures UniqueNames([a] + rest) <==> (forall b :: b in rest ==> b.name != a.name) && UniqueNames(rest)
  {
    var s := [a] + rest;
    if UniqueNames(s) {
      forall i, j | 0 <= i < j < |rest| ensures rest[i].name != rest[j].name {
        assert s[i + 1] == rest[i] && s[j + 1] == rest[j];
      }
      forall b | b in rest ensures b.name != a.name {
        var k :| 0 <= k < |rest| && rest[k] == b;
        assert s[0] == a && s[k + 1] == b;
      }
    }
    if (forall b :: b in rest ==> b.name != a.name) && UniqueNames(rest) {
      forall i, j | 0 <= i < j < |s| ensures s[i].name != s[j].name {
        if i == 0 { assert s[j] in rest; } else { assert s[i] == rest[i - 1] && s[j] == rest[j - 1]; }
      }
    }
  }

  /** removeAttribute / removeNamedItem: drop the attribute of that name. */
  function RemoveAttr(attrs: seq<Attr>, name: string): (r: seq<Attr>)
    ensures GetAttr(r, name) == "" && forall a :: a in r ==> a.name != name
    ensures forall m :: m != name ==> GetAttr(r, m) == GetAttr(attrs, m)
    ensures forall a :: a in r <==> a in attrs && a.name != name
    ensures |r| <= |attrs|
    ensures UniqueNames(attrs) ==> UniqueNames(r)
  {
    if attrs == [] then []
    else if attrs[0].name == name then
      UniqueCons(attrs[0], attrs[1..]);
      RemoveAttr(attrs[1..], name)
    else
      var rest := RemoveAttr(attrs[1..], name);
      UniqueCons(attrs[0], attrs[1..]);
      UniqueCons(attrs[0], rest);
      [attrs[0]] + rest
  }

  /** At most one value per name. */
  predicate UniqueNames(attrs: seq<Attr>)
  {
    forall i, j :: 0 <= i < j < |attrs| ==> attrs[i].name != attrs[j].name
  }

  // ---------------------------------------------------------------- child lists

  predicate Distinct(s: seq<NodeId>)
  {
    forall i, j :: 0 <= i < j < |s| ==> s[i] != s[j]
  }

  /** The list with every occurrence of x taken out. */
  function Without(s: seq<NodeId>, x: NodeId): (r: seq<NodeId>)
    ensures forall y :: y in r <==> y in s && y != x
    ensures Distinct(s) ==> Distinct(r)
    ensures x !in s ==> r == s
    ensures |r| <= |s|
  {
    if s == [] then []
    else if s[0] == x then Without(s[1..], x)
    else
      var rest := Without(s[1..], x);
      assert Distinct(s) ==> s[0] !in s[1..];
      DistinctCons(s[0], rest);
      [s[0]] + rest
  }

  lemma DistinctCons(a: NodeId, r: seq<NodeId>)
    ensures Distinct([a] + r) <==> a !in r && Distinct(r)
  {
    var s := [a] + r;
    if a !in r && Distinct(r) {
      forall i, j | 0 <= i < j < |s| ensures s[i] != s[j] {
        if i == 0 { assert s[j] in r; } else { assert s[i] == r[i - 1] && s[j] == r[j - 1]; }
      }
    }
    if Distinct([a] + r) {
      forall i, j | 0 <= i < j < |r| ensures r[i] != r[j] {
        assert ([a] + r)[i + 1] == r[i] && ([a] + r)[j + 1] == r[j];
      }
      forall k | 0 <= k < |r| ensures r[k] != a {
        assert s[0] == a && s[k + 1] == r[k];
      }
    }
  }

  /** In a list without repetitions, removing x removes the one position of x. */
  lemma {:induction false} WithoutAt(s: seq<NodeId>, k: nat)
    requires Distinct(s) && k < |s|
    ensures Without(s, s[k]) == s[..k] + s[k + 1..]
  {
    var t := s[1..];
    assert s == [s[0]] + t;
    DistinctCons(s[0], t);
    if k > 0 {
      assert s[0] != s[k] && t[k - 1] == s[k];
      WithoutAt(t, k - 1);
      assert Without(s, s[k]) == [s[0]] + (t[..k - 1] + t[k..]);
      assert t[..k - 1] == s[1..k] && t[k..] == s[k + 1..];
      assert s[..k] == [s[0]] + s[1..k];
    }
  }

  lemma {:induction false} WithoutConcat(a: seq<NodeId>, b: seq<NodeId>, x: NodeId)
    ensures Without(a + b, x) == Without(a, x) + Without(b, x)
  {
    if a != [] {
      WithoutConcat(a[1..], b, x);
      assert (a + b)[1..] == a[1..] + b;
    } else {
      assert a + b == b;
    }
  }

  // ---------------------------------------------------------------- the tree

  /** What the W3C DOM guarantees of every tree: ids below next, a Document
      node, children that point back to their parent and occur once, parents
      that list their children, one value per attribute name. */
  ghost predicate WellFormed(t: Tree)
  {
    IdsBelowNext(t) && HasDocNode(t) && ChildrenPointBack(t) && ChildrenDistinct(t) &&
    ParentsListChild(t) && AttrNamesUnique(t)
  }

  ghost predicate IdsBelowNext(t: Tree)
  {
    forall id :: id in t.nodes ==> id < t.next
  }

  ghost predicate HasDocNode(t: Tree)
  {
    t.docNode in t.nodes && t.nodes[t.docNode].kind == DocumentNode
  }

  ghost predicate ChildrenPointBack(t: Tree)
  {
    forall id, x :: id in t.nodes && x in t.nodes[id].children ==>
      x in t.nodes && t.nodes[x].parent == Some(id)
  }

  ghost predicate ChildrenDistinct(t: Tree)
  {
    forall id :: id in t.nodes ==> Distinct(t.nodes[id].children)
  }

  ghost predicate ParentsListChild(t: Tree)
  {
    forall id :: id in t.nodes && t.nodes[id].parent.Some? ==>
      t.nodes[id].parent.value in t.nodes && id in t.nodes[t.nodes[id].parent.value].children
  }

  ghost predicate AttrNamesUnique(t: Tree)
  {
    forall id :: id in t.nodes ==> UniqueNames(t.nodes[id].attrs)
  }

  predicate IsKind(t: Tree, x: NodeId, k: Kind)
  {
    x in t.nodes && t.nodes[x].kind == k
  }

  /** An element whose tag name is exactly tag (getTagName().equals). */
  predicate IsTag(t: Tree, x: NodeId, tag: string)
  {
    IsKind(t, x, Element) && t.nodes[x].tag == tag
  }

  function Parent(t: Tree, x: NodeId): Option<NodeId>
  {
    if x in t.nodes then t.nodes[x].parent else None
  }

  /** getChildNodes; text and comment nodes have none. */
  function Kids(t: Tree, x: NodeId): seq<NodeId>
  {
    if x in t.nodes && t.nodes[x].kind in {DocumentNode, Element} then t.nodes[x].children else []
  }

  /** parent.removeChild(c) where parent is c's parent: c leaves its
      parent's child list and has no parent afterwards. */
  function Detach(t: Tree, c: NodeId): (r: Tree)
    ensures r.next == t.next && r.docNode == t.docNode && r.nodes.Keys == t.nodes.Keys
  {
    if c !in t.nodes then t
    else
      var p := t.nodes[c].parent;
      var n1 := if p.Some? && p.value in t.nodes
                then t.nodes[p.value := t.nodes[p.value].(children := Without(t.nodes[p.value].children, c))]
                else t.nodes;
      t.(nodes := n1[c := n1[c].(parent := None)])
  }

  /** Detaching the k-th child of n removes exactly that entry from n's list. */
  lemma DetachKids(t: Tree, n: NodeId, k: nat)
    requires WellFormed(t) && k < |Kids(t, n)|
    ensures Kids(t, n)[k] in t.nodes
    ensures Kids(Detach(t, Kids(t, n)[k]), n) == Kids(t, n)[..k] + Kids(t, n)[k + 1..]
  {
    var c := Kids(t, n)[k];
    assert c in t.nodes[n].children;
    assert t.nodes[c].parent == Some(n);
    DetachEffect(t, c);
    WithoutAt(t.nodes[n].children, k);
  }

  /** Only c's parent field and its parent's child list change. */
  lemma DetachEffect(t: Tree, c: NodeId)
    requires c in t.nodes
    ensures var r := Detach(t, c);
      && r.nodes[c].parent == None
      && (forall id :: id in t.nodes ==>
            r.nodes[id].kind == t.nodes[id].kind && r.nodes[id].tag == t.nodes[id].tag &&
            r.nodes[id].attrs == t.nodes[id].attrs && r.nodes[id].data == t.nodes[id].data)
      && (forall id :: id in t.nodes && id != c ==> r.nodes[id].parent == t.nodes[id].parent)
      && (forall id :: id in t.nodes && Some(id) != t.nodes[c].parent ==>
            r.nodes[id].children == t.nodes[id].children)
      && (t.nodes[c].parent.Some? && t.nodes[c].parent.value in t.nodes ==>
            var p := t.nodes[c].parent.value;
            r.nodes[p].children == Without(t.nodes[p].children, c))
  {
    var r := Detach(t, c);
    var p := t.nodes[c].parent;
    var n1 := if p.Some? && p.value in t.nodes
              then t.nodes[p.value := t.nodes[p.value].(children := Without(t.nodes[p.value].children, c))]
              else t.nodes;
    assert r.nodes == n1[c := n1[c].(parent := None)];
    forall id | id in t.nodes
      ensures r.nodes[id].kind == t.nodes[id].kind && r.nodes[id].tag == t.nodes[id].tag &&
              r.nodes[id].attrs == t.nodes[id].attrs && r.nodes[id].data == t.nodes[id].data
      ensures id != c ==> r.nodes[id].parent == t.nodes[id].parent
      ensures Some(id) != p ==> r.nodes[id].children == t.nodes[id].children
    {
      var n := if p.Some? && p.value == id then t.nodes[id].(children := Without(t.nodes[id].children, c)) else t.nodes[id];
      assert n1[id] == n;
      assert r.nodes[id] == if id == c then n.(parent := None) else n;
    }
  }

  /** Detach seen from one node. */
  lemma DetachAt(t: Tree, c: NodeId, id: NodeId)
    requires c in t.nodes && id in t.nodes
    ensures var r := Detach(t, c);
      && r.nodes[id].kind == t.nodes[id].kind && r.nodes[id].tag == t.nodes[id].tag
      && r.nodes[id].attrs == t.nodes[id].attrs && r.nodes[id].data == t.nodes[id].data
      && r.nodes[id].parent == (if id == c then None else t.nodes[id].parent)
      && r.nodes[id].children == (if Some(id) == t.nodes[c].parent then Without(t.nodes[id].children, c)
                                  else t.nodes[id].children)
  {
    var r := Detach(t, c);
    var p := t.nodes[c].parent;
    var n1 := if p.Some? && p.value in t.nodes
              then t.nodes[p.value := t.nodes[p.value].(children := Without(t.nodes[p.value].children, c))]
              else t.nodes;
    assert r.nodes == n1[c := n1[c].(parent := None)];
    var n := if p.Some? && p.value == id then t.nodes[id].(children := Without(t.nodes[id].children, c)) else t.nodes[id];
    assert n1[id] == n;
    assert r.nodes[id] == if id == c then n.(parent := None) else n;
  }

  lemma DetachWellFormed(t: Tree, c: NodeId)
    requires WellFormed(t) && c in t.nodes
    ensures WellFormed(Detach(t, c))
    ensures forall id :: id in t.nodes ==> c !in Detach(t, c).nodes[id].children
  {
    var r := Detach(t, c);
    DetachEffect(t, c);
    var pc := t.nodes[c].parent;
    forall id, x | id in r.nodes && x in r.nodes[id].children
      ensures x in r.nodes && r.nodes[x].parent == Some(id)
    {
      assert x in t.nodes[id].children;
      assert x == c ==> pc == Some(id);
    }
    forall id | id in r.nodes && r.nodes[id].parent.Some?
      ensures r.nodes[id].parent.value in r.nodes && id in r.nodes[r.nodes[id].parent.value].children
    {
      assert id != c;
    }
    forall id | id in t.nodes ensures c !in r.nodes[id].children {
      if c in t.nodes[id].children {
        assert pc == Some(id);
      }
    }
  }

  function SetChildren(t: Tree, id: NodeId, cs: seq<NodeId>): (r: Tree)
    requires id in t.nodes
    ensures r.next == t.next && r.docNode == t.docNode && r.nodes.Keys == t.nodes.Keys
    ensures r.nodes[id] == t.nodes[id].(children := cs)
    ensures forall x :: x in t.nodes && x != id ==> r.nodes[x] == t.nodes[x]
  {
    t.(nodes := t.nodes[id := t.nodes[id].(children := cs)])
  }

  function SetParent(t: Tree, id: NodeId, p: Option<NodeId>): (r: Tree)
    requires id in t.nodes
    ensures r.next == t.next && r.docNode == t.docNode && r.nodes.Keys == t.nodes.Keys
    ensures r.nodes[id] == t.nodes[id].(parent := p)
    ensures forall x :: x in t.nodes && x != id ==> r.nodes[x] == t.nodes[x]
  {
    t.(nodes := t.nodes[id := t.nodes[id].(parent := p)])
  }

  /** appendChild(c) on p: c is first removed from its old parent, then
      added as p's last child. */
  function Append(t: Tree, p: NodeId, c: NodeId): (r: Tree)
    ensures r.next == t.next && r.docNode == t.docNode && r.nodes.Keys == t.nodes.Keys
  {
    if p in t.nodes && c in t.nodes && p != c then
      Attach(Detach(t, c), p, c)
    else t
  }

  lemma AppendEffect(t: Tree, p: NodeId, c: NodeId)
    requires ChildrenPointBack(t) && p in t.nodes && c in t.nodes && p != c
    ensures var r := Append(t, p, c);
      && r.nodes[c].parent == Some(p)
      && r.nodes[p].children == Without(t.nodes[p].children, c) + [c]
      && (forall id :: id in t.nodes ==>
            r.nodes[id].kind == t.nodes[id].kind && r.nodes[id].tag == t.nodes[id].tag &&
            r.nodes[id].attrs == t.nodes[id].attrs && r.nodes[id].data == t.nodes[id].data)
      && (forall id :: id in t.nodes && id != c ==> r.nodes[id].parent == t.nodes[id].parent)
      && (forall id :: id in t.nodes && id != p && Some(id) != t.nodes[c].parent ==>
            r.nodes[id].children == t.nodes[id].children)
      && (t.nodes[c].parent.Some? && t.nodes[c].parent.value != p && t.nodes[c].parent.value in t.nodes ==>
            var q := t.nodes[c].parent.value;
            r.nodes[q].children == Without(t.nodes[q].children, c))
  {
    var t1 := Detach(t, c);
    DetachEffect(t, c);
    assert t1.nodes[p].children == Without(t.nodes[p].children, c) by {
      if t.nodes[c].parent != Some(p) {
        assert c !in t.nodes[p].children;
      }
    }
    assert t1.nodes[c].parent == None;
    forall id | id in t.nodes
      ensures var r := Append(t, p, c);
        r.nodes[id].kind == t.nodes[id].kind && r.nodes[id].tag == t.nodes[id].tag &&
        r.nodes[id].attrs == t.nodes[id].attrs && r.nodes[id].data == t.nodes[id].data &&
        (id != c ==> r.nodes[id].parent == t.nodes[id].parent) &&
        (id != p && Some(id) != t.nodes[c].parent ==> r.nodes[id].children == t.nodes[id].children) &&
        (id != p && Some(id) == t.nodes[c].parent ==> r.nodes[id].children == t1.nodes[id].children)
    {
      AttachAt(t1, p, c, id);
    }
    AttachAt(t1, p, c, c);
    AttachAt(t1, p, c, p);
  }

  /** appendChild(c) on p, seen from the child list of any node q:
      c leaves it, and joins it at the end when q is p. */
  lemma AppendKids(t: Tree, p: NodeId, c: NodeId, q: NodeId)
    requires ChildrenPointBack(t) && p in t.nodes && c in t.nodes && p != c
    ensures q != p ==> Kids(Append(t, p, c), q) == Without(Kids(t, q), c)
    ensures q == p && t.nodes[p].kind in {DocumentNode, Element} ==>
      Kids(Append(t, p, c), q) == Without(Kids(t, q), c) + [c]
  {
    if q in t.nodes { AppendAt(t, p, c, q); }
  }

  /** appendChild(c) on p seen from one node: c leaves every child list
      and joins p's at the end. */
  lemma AppendAt(t: Tree, p: NodeId, c: NodeId, id: NodeId)
    requires ChildrenPointBack(t) && p in t.nodes && c in t.nodes && p != c && id in t.nodes
    ensures var r := Append(t, p, c);
      && r.nodes[id].kind == t.nodes[id].kind && r.nodes[id].tag == t.nodes[id].tag
      && r.nodes[id].attrs == t.nodes[id].attrs && r.nodes[id].data == t.nodes[id].data
      && r.nodes[id].parent == (if id == c then Some(p) else t.nodes[id].parent)
      && r.nodes[id].children == (if id == p then Without(t.nodes[p].children, c) + [c]
                                  else Without(t.nodes[id].children, c))
  {
    var t1 := Detach(t, c);
    DetachAt(t, c, id);
    DetachAt(t, c, c);
    AttachAt(t1, p, c, id);
    if Some(id) != t.nodes[c].parent {
      assert c !in t.nodes[id].children;
    }
  }

  lemma AppendWellFormed(t: Tree, p: NodeId, c: NodeId)
    requires WellFormed(t) && p in t.nodes && c in t.nodes && p != c
    ensures WellFormed(Append(t, p, c))
  {
    var t1 := Detach(t, c);
    DetachEffect(t, c);
    DetachWellFormed(t, c);
    AttachWellFormed(t1, p, c);
  }

  /** Appending a node that has no parent keeps the tree well formed. */
  lemma AttachWellFormed(t1: Tree, p: NodeId, c: NodeId)
    requires WellFormed(t1) && p in t1.nodes && c in t1.nodes && p != c
    requires t1.nodes[c].parent == None
    ensures WellFormed(Attach(t1, p, c))
  {
    var r := Attach(t1, p, c);
    AttachDistinct(t1, p, c);
    AttachPointBack(t1, p, c);
    AttachParentsList(t1, p, c);
    assert AttrNamesUnique(r) by {
      forall id | id in r.nodes ensures UniqueNames(r.nodes[id].attrs) {
        assert r.nodes[id].attrs == t1.nodes[id].attrs;
      }
    }
  }

  /** The second half of appendChild: c, which has no parent, goes last
      among p's children. */
  function Attach(t1: Tree, p: NodeId, c: NodeId): (r: Tree)
    requires p in t1.nodes && c in t1.nodes
    ensures r.next == t1.next && r.docNode == t1.docNode && r.nodes.Keys == t1.nodes.Keys
  {
    SetParent(SetChildren(t1, p, t1.nodes[p].children + [c]), c, Some(p))
  }

  lemma AttachAt(t1: Tree, p: NodeId, c: NodeId, id: NodeId)
    requires p in t1.nodes && c in t1.nodes && p != c && id in t1.nodes
    ensures var r := Attach(t1, p, c);
      && r.nodes[id].kind == t1.nodes[id].kind && r.nodes[id].tag == t1.nodes[id].tag
      && r.nodes[id].attrs == t1.nodes[id].attrs && r.nodes[id].data == t1.nodes[id].data
      && r.nodes[id].children == (if id == p then t1.nodes[p].children + [c] else t1.nodes[id].children)
      && r.nodes[id].parent == (if id == c then Some(p) else t1.nodes[id].parent)
  {
  }

  lemma DistinctSnoc(s: seq<NodeId>, x: NodeId)
    requires Distinct(s) && x !in s
    ensures Distinct(s + [x])
  {
    var s' := s + [x];
    forall i, j | 0 <= i < j < |s'| ensures s'[i] != s'[j] {
      assert s'[i] == s[i];
      if j < |s| { assert s'[j] == s[j]; } else { assert s[i] in s; }
    }
  }

  lemma AttachDistinct(t1: Tree, p: NodeId, c: NodeId)
    requires ChildrenPointBack(t1) && ChildrenDistinct(t1) && p in t1.nodes && c in t1.nodes && p != c
    requires t1.nodes[c].parent == None
    ensures ChildrenDistinct(Attach(t1, p, c))
  {
    var r := Attach(t1, p, c);
    var cs := t1.nodes[p].children;
    assert c !in cs;
    DistinctSnoc(cs, c);
    forall id | id in r.nodes ensures Distinct(r.nodes[id].children) {
      if id != p { assert r.nodes[id].children == t1.nodes[id].children; }
    }
  }

  lemma AttachPointBack(t1: Tree, p: NodeId, c: NodeId)
    requires ChildrenPointBack(t1) && p in t1.nodes && c in t1.nodes && p != c
    requires t1.nodes[c].parent == None
    ensures ChildrenPointBack(Attach(t1, p, c))
  {
    var r := Attach(t1, p, c);
    forall id, x | id in r.nodes && x in r.nodes[id].children
      ensures x in r.nodes && r.nodes[x].parent == Some(id)
    {
      AttachAt(t1, p, c, id);
      if x != c || id != p {
        assert x in t1.nodes[id].children;
        AttachAt(t1, p, c, x);
      }
    }
  }

  lemma AttachParentsList(t1: Tree, p: NodeId, c: NodeId)
    requires ParentsListChild(t1) && p in t1.nodes && c in t1.nodes && p != c
    requires t1.nodes[c].parent == None
    ensures ParentsListChild(Attach(t1, p, c))
  {
    var r := Attach(t1, p, c);
    forall id | id in r.nodes && r.nodes[id].parent.Some?
      ensures r.nodes[id].parent.value in r.nodes && id in r.nodes[r.nodes[id].parent.value].children
    {
      if id != c {
        var q := t1.nodes[id].parent.value;
        assert id in t1.nodes[q].children;
      }
    }
  }

  /** createElement / createTextNode: a fresh node with no parent. */
  function NewNode(t: Tree, kind: Kind, tag: string, data: string): (r: Tree)
    ensures r.next == t.next + 1 && r.docNode == t.docNode
    ensures r.nodes == t.nodes[t.next := Node(kind, tag, [], data, [], None)]
  {
    t.(nodes := t.nodes[t.next := Node(kind, tag, [], data, [], None)], next := t.next + 1)
  }

  /** A new node changes no old node. */
  lemma NewNodeKeeps(t: Tree, kind: Kind, tag: string, data: string)
    requires IdsBelowNext(t)
    ensures var r := NewNode(t, kind, tag, data);
      forall q :: q in t.nodes ==> r.nodes[q] == t.nodes[q]
  {
  }

  lemma NewNodeWellFormed(t: Tree, kind: Kind, tag: string, data: string)
    requires WellFormed(t)
    ensures WellFormed(NewNode(t, kind, tag, data)) && t.next !in t.nodes
  {
    var r := NewNode(t, kind, tag, data);
    forall id, x | id in r.nodes && x in r.nodes[id].children
      ensures x in r.nodes && r.nodes[x].parent == Some(id)
    {
      assert id != t.next && x in t.nodes[id].children;
      assert x in t.nodes && x != t.next;
      assert r.nodes[x] == t.nodes[x];
    }
  }

  /** setAttribute on node n. */
  function WithAttribute(t: Tree, n: NodeId, name: string, value: string): (r: Tree)
    ensures r.next == t.next && r.docNode == t.docNode && r.nodes.Keys == t.nodes.Keys
  {
    if n in t.nodes then WithAttrs(t, n, SetAttr(t.nodes[n].attrs, name, value)) else t
  }

  /** The tree with node x's attribute list replaced. */
  function WithAttrs(t: Tree, x: NodeId, attrs: seq<Attr>): (r: Tree)
    requires x in t.nodes
    ensures r.next == t.next && r.docNode == t.docNode && r.nodes.Keys == t.nodes.Keys
  {
    t.(nodes := t.nodes[x := t.nodes[x].(attrs := attrs)])
  }

  /** removeAttribute / removeNamedItem on node n. */
  function WithoutAttribute(t: Tree, n: NodeId, name: string): (r: Tree)
    ensures r.next == t.next && r.docNode == t.docNode && r.nodes.Keys == t.nodes.Keys
  {
    if n in t.nodes then WithAttrs(t, n, RemoveAttr(t.nodes[n].attrs, name)) else t
  }

  /** Replacing one node's attribute list by one with unique names keeps
      the tree well formed. */
  lemma AttrsEditWellFormed(t: Tree, n: NodeId, attrs: seq<Attr>)
    requires WellFormed(t) && n in t.nodes && UniqueNames(attrs)
    ensures WellFormed(WithAttrs(t, n, attrs))
  {
    var r := WithAttrs(t, n, attrs);
    forall id | id in t.nodes
      ensures r.nodes[id].children == t.nodes[id].children && r.nodes[id].parent == t.nodes[id].parent
      ensures r.nodes[id].kind == t.nodes[id].kind && UniqueNames(r.nodes[id].attrs)
    {
    }
  }

  lemma AttributeEditsWellFormed(t: Tree, n: NodeId, name: string, value: string)
    requires WellFormed(t)
    ensures WellFormed(WithAttribute(t, n, name, value)) && WellFormed(WithoutAttribute(t, n, name))
  {
    if n in t.nodes {
      AttrsEditWellFormed(t, n, SetAttr(t.nodes[n].attrs, name, value));
      AttrsEditWellFormed(t, n, RemoveAttr(t.nodes[n].attrs, name));
    }
  }

  /** n loses all its children at once; each former child has no parent. */
  function ClearChildren(t: Tree, n: NodeId): (r: Tree)
    ensures r.next == t.next && r.docNode == t.docNode && r.nodes.Keys == t.nodes.Keys
  {
    if n !in t.nodes then t
    else
      var cs := t.nodes[n].children;
      t.(nodes := map id | id in t.nodes ::
           var a := if id in cs then t.nodes[id].(parent := None) else t.nodes[id];
           if id == n then a.(children := []) else a)
  }

  /** What ClearChildren does to one node: n has no children, its former
      children have no parent, and nothing else changes. */
  lemma ClearChildrenAt(t: Tree, n: NodeId, id: NodeId)
    requires n in t.nodes && id in t.nodes
    ensures var r := ClearChildren(t, n);
      && r.nodes[id].kind == t.nodes[id].kind && r.nodes[id].tag == t.nodes[id].tag
      && r.nodes[id].attrs == t.nodes[id].attrs && r.nodes[id].data == t.nodes[id].data
      && r.nodes[id].children == (if id == n then [] else t.nodes[id].children)
      && r.nodes[id].parent == (if id in t.nodes[n].children then None else t.nodes[id].parent)
  {
  }

  lemma ClearChildrenWellFormed(t: Tree, n: NodeId)
    requires WellFormed(t) && n in t.nodes
    ensures WellFormed(ClearChildren(t, n))
  {
    var r := ClearChildren(t, n);
    ClearChildrenPointBack(t, n);
    ClearChildrenParentsList(t, n);
    forall id | id in r.nodes ensures UniqueNames(r.nodes[id].attrs) && Distinct(r.nodes[id].children) {
      ClearChildrenAt(t, n, id);
    }
  }

  lemma ClearChildrenPointBack(t: Tree, n: NodeId)
    requires ChildrenPointBack(t) && n in t.nodes
    ensures ChildrenPointBack(ClearChildren(t, n))
  {
    var r := ClearChildren(t, n);
    forall id, x | id in r.nodes && x in r.nodes[id].children
      ensures x in r.nodes && r.nodes[x].parent == Some(id)
    {
      ClearChildrenAt(t, n, id);
      assert id != n && x in t.nodes[id].children;
      assert t.nodes[x].parent == Some(id);
      if x in t.nodes[n].children { assert false; }
      ClearChildrenAt(t, n, x);
    }
  }

  lemma ClearChildrenParentsList(t: Tree, n: NodeId)
    requires ParentsListChild(t) && n in t.nodes
    ensures ParentsListChild(ClearChildren(t, n))
  {
    var r := ClearChildren(t, n);
    forall id | id in r.nodes && r.nodes[id].parent.Some?
      ensures r.nodes[id].parent.value in r.nodes && id in r.nodes[r.nodes[id].parent.value].children
    {
      ClearChildrenAt(t, n, id);
      var q := t.nodes[id].parent.value;
      assert id in t.nodes[q].children;
      assert q != n;
      ClearChildrenAt(t, n, q);
    }
  }

  /** setTextContent: the children are removed, and a non-empty (non-null)
      string becomes a single new Text child. */
  function SetTextContent(t: Tree, e: NodeId, s: Option<string>): (r: Tree)
  {
    var t1 := ClearChildren(t, e);
    if s.Some? && s.value != "" then Append(NewNode(t1, Text, "", s.value), e, t1.next) else t1
  }

  /** setTextContent seen from one node's child list: e holds the new Text
      node alone (or nothing), every other node keeps its children. */
  lemma SetTextContentKids(t: Tree, e: NodeId, s: Option<string>, y: NodeId)
    requires ChildrenPointBack(t) && IdsBelowNext(t) && IsKind(t, e, Element) && y in t.nodes
    ensures var r := SetTextContent(t, e, s);
      && (y != e ==> Kids(r, y) == Kids(t, y))
      && (y == e && s.Some? && s.value != "" ==>
            Kids(r, e) == [t.next] && IsKind(r, t.next, Text) && r.nodes[t.next].data == s.value)
      && (y == e && (s.None? || s.value == "") ==> Kids(r, e) == [])
  {
    var t1 := ClearChildren(t, e);
    ClearChildrenAt(t, e, y);
    ClearChildrenPointBack(t, e);
    if s.Some? && s.value != "" {
      var x := t1.next;
      var t2 := NewNode(t1, Text, "", s.value);
      NewNodePointBack(t1, Text, "", s.value);
      assert t2.nodes[y] == t1.nodes[y];
      AppendKids(t2, e, x, y);
      assert x !in t.nodes;
      assert x !in Kids(t, y);
      AppendEffect(t2, e, x);
    }
  }

  lemma NewNodePointBack(t: Tree, kind: Kind, tag: string, data: string)
    requires ChildrenPointBack(t) && IdsBelowNext(t)
    ensures ChildrenPointBack(NewNode(t, kind, tag, data)) && t.next !in t.nodes
  {
    var r := NewNode(t, kind, tag, data);
    forall id, x | id in r.nodes && x in r.nodes[id].children
      ensures x in r.nodes && r.nodes[x].parent == Some(id)
    {
      assert id != t.next && x in t.nodes[id].children;
      assert x in t.nodes && x != t.next;
      assert r.nodes[x] == t.nodes[x];
    }
  }

  lemma SetTextContentWellFormed(t: Tree, e: NodeId, s: Option<string>)
    requires WellFormed(t) && e in t.nodes
    ensures WellFormed(SetTextContent(t, e, s))
  {
    var t1 := ClearChildren(t, e);
    ClearChildrenWellFormed(t, e);
    if s.Some? && s.value != "" {
      NewNodeWellFormed(t1, Text, "", s.value);
      AppendWellFormed(NewNode(t1, Text, "", s.value), e, t1.next);
    }
  }

  /** The document whose tree the extractor reads and rewrites in place. */
  class Document {
    var tree: Tree
    const baseUri: string

    ghost predicate Valid()
      reads this
    {
      WellFormed(tree)
    }

    constructor (t: Tree, baseUri: string)
      requires WellFormed(t)
      ensures Valid() && tree == t && this.baseUri == baseUri
    {
      tree := t;
      this.baseUri := baseUri;
    }

    method CreateElement(tag: string) returns (e: NodeId)
      requires Valid()
      modifies this
      ensures Valid() && e == old(tree).next && e !in old(tree).nodes
      ensures tree == NewNode(old(tree), Element, tag, "")
    {
      NewNodeWellFormed(tree, Element, tag, "");
      e := tree.next;
      tree := NewNode(tree, Element, tag, "");
    }

    method CreateTextNode(data: string) returns (x: NodeId)
      requires Valid()
      modifies this
      ensures Valid() && x == old(tree).next && x !in old(tree).nodes
      ensures tree == NewNode(old(tree), Text, "", data)
    {
      NewNodeWellFormed(tree, Text, "", data);
      x := tree.next;
      tree := NewNode(tree, Text, "", data);
    }

    method AppendChild(p: NodeId, c: NodeId)
      requires Valid() && p in tree.nodes && c in tree.nodes && p != c
      modifies this
      ensures Valid() && tree == Append(old(tree), p, c)
    {
      AppendWellFormed(tree, p, c);
      tree := Append(tree, p, c);
    }

    /** c.getParentNode().removeChild(c). */
    method RemoveFromParent(c: NodeId)
      requires Valid() && c in tree.nodes
      modifies this
      ensures Valid() && tree == Detach(old(tree), c)
    {
      DetachWellFormed(tree, c);
      tree := Detach(tree, c);
    }

    method SetAttribute(n: NodeId, name: string, value: string)
      requires Valid()
      modifies this
      ensures Valid() && tree == WithAttribute(old(tree), n, name, value)
    {
      AttributeEditsWellFormed(tree, n, name, value);
      tree := WithAttribute(tree, n, name, value);
    }

    method RemoveAttribute(n: NodeId, name: string)
      requires Valid()
      modifies this
      ensures Valid() && tree == WithoutAttribute(old(tree), n, name)
    {
      AttributeEditsWellFormed(tree, n, name, "");
      tree := WithoutAttribute(tree, n, name);
    }

    method SetText(e: NodeId, s: Option<string>)
      requires Valid() && e in tree.nodes
      modifies this
      ensures Valid() && tree == SetTextContent(old(tree), e, s)
    {
      SetTextContentWellFormed(tree, e, s);
      tree := SetTextContent(tree, e, s);
    }
  }
}
