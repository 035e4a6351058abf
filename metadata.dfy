/** The meta-tag readers: the og:title and og:image of the last matching
    meta element, and the description of the first matching one. */
module Metadata {
  import opened Wrappers
  import opened Dom
  import opened Queries

  /** getAttribute on a node: "" when absent. */
  function Attribute(t: Tree, x: NodeId, name: string): string
  {
    if x in t.nodes then GetAttr(t.nodes[x].attrs, name) else ""
  }

  /** The content of the last element of ms whose property is prop. */
  function LastContent(t: Tree, ms: seq<NodeId>, prop: string): (r: Option<string>)
    ensures r.None? <==> forall i :: 0 <= i < |ms| ==> Attribute(t, ms[i], "property") != prop
    ensures r.Some? ==> exists i :: 0 <= i < |ms| && Attribute(t, ms[i], "property") == prop &&
                          r.value == Attribute(t, ms[i], "content") &&
                          forall j :: i < j < |ms| ==> Attribute(t, ms[j], "property") != prop
    decreases |ms|
  {
    if ms == [] then None
    else
      var last := ms[|ms| - 1];
      if Attribute(t, last, "property") == prop then Some(Attribute(t, last, "content"))
      else
        var r := LastContent(t, ms[..|ms| - 1], prop);
        assert forall i :: 0 <= i < |ms| - 1 ==> ms[..|ms| - 1][i] == ms[i];
        r
  }

  function Metas(t: Tree): seq<NodeId>
  {
    ElementsByTag(t, t.docNode, "meta")
  }

  /** getTitle: the last og:title; when there is none or it is empty and
      the page has a title element, item(0).getNodeValue() of that element,
      which is null. */
  function Title(t: Tree): Option<string>
  {
    var og := LastContent(t, Metas(t), "og:title");
    if (og.None? || og.value == "") && |ElementsByTag(t, t.docNode, "title")| > 0 then None
    else og
  }

  /** A title, when there is one, always comes from an og:title meta; the
      title element never supplies one. */
  lemma TitleComesFromOgTitle(t: Tree)
    ensures Title(t).Some? ==>
      exists m :: m in Metas(t) && Attribute(t, m, "property") == "og:title" &&
                  Attribute(t, m, "content") == Title(t).value
    ensures Title(t).Some? && Title(t).value == "" ==> |ElementsByTag(t, t.docNode, "title")| == 0
  {
  }

  /** The test getDescription applies to one meta element. */
  predicate Describes(t: Tree, m: NodeId)
  {
    Attribute(t, m, "property") == "og:description" || Attribute(t, m, "name") == "description"
  }

  /** The position of the first meta of ms, from position i on, that
      describes; |ms| when there is none. */
  function FirstDescribing(t: Tree, ms: seq<NodeId>, i: nat): (k: nat)
    requires i <= |ms|
    ensures i <= k <= |ms|
    ensures forall j :: i <= j < k ==> !Describes(t, ms[j])
    ensures k < |ms| ==> Describes(t, ms[k])
    decreases |ms| - i
  {
    if i == |ms| || Describes(t, ms[i]) then i else FirstDescribing(t, ms, i + 1)
  }

  /** getDescription: the content of the first meta that describes. */
  function FirstDescription(t: Tree, ms: seq<NodeId>): (r: Option<string>)
    ensures r.None? <==> forall i :: 0 <= i < |ms| ==> !Describes(t, ms[i])
    ensures r.Some? ==> exists i :: 0 <= i < |ms| && Describes(t, ms[i]) &&
                          r.value == Attribute(t, ms[i], "content") &&
                          forall j :: 0 <= j < i ==> !Describes(t, ms[j])
  {
    var k := FirstDescribing(t, ms, 0);
    if k < |ms| then Some(Attribute(t, ms[k], "content")) else None
  }

  function Description(t: Tree): Option<string>
  {
    FirstDescription(t, Metas(t))
  }

  /** getMainImage: the last og:image, dropped when an image came before
      the text. */
  function MainImage(t: Tree, imageBeforeText: bool): (r: Option<string>)
    ensures imageBeforeText ==> r.None?
    ensures !imageBeforeText ==> r == LastContent(t, Metas(t), "og:image")
  {
    var url := LastContent(t, Metas(t), "og:image");
    if url.Some? && imageBeforeText then None else url
  }
}
