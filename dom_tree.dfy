/** The minimal element tree that the path upsert and the array converters work on:
    an element has a tag name, an ordered list of attributes (looked up by name),
    an ordered list of child elements and its own character data. The document
    node is an element-shaped container named "#document" whose children are the
    document's top-level elements. */
module DomTree {

  datatype Option<T> = None | Some(value: T)

  /** An attribute node: a name and its string value. */
  datatype Attr = Attr(name: string, value: string)

  /** An element node. `text` is the element's character data. */
  datatype Element = Element(tag: string, attrs: seq<Attr>, children: seq<Element>, text: string)

  /** The node name the DOM gives a document node. */
  const DocumentTag: string := "#document"

  /** The document node holding `nodes` as its children. */
  function DocumentNode(nodes: seq<Element>): Element
  {
    Element(DocumentTag, [], nodes, "")
  }

  /** A freshly created element: no attributes, no children, no text. */
  function EmptyElement(tag: string): Element
  {
    Element(tag, [], [], "")
  }

  /** Position of the first attribute called `name`, or |attrs| when there is none. */
  function AttrIndex(attrs: seq<Attr>, name: string): (i: nat)
    ensures i <= |attrs|
    ensures forall j :: 0 <= j < i ==> attrs[j].name != name
    ensures i < |attrs| ==> attrs[i].name == name
  {
    if attrs == [] then 0
    else if attrs[0].name == name then 0
    else 1 + AttrIndex(attrs[1..], name)
  }

  /** The value of attribute `name` (getAttribute), if the element has one. */
  function GetAttr(attrs: seq<Attr>, name: string): (r: Option<string>)
    ensures r.Some? <==> exists j :: 0 <= j < |attrs| && attrs[j].name == name
  {
    var i := AttrIndex(attrs, name);
    if i < |attrs| then Some(attrs[i].value) else None
  }

  /** No two attributes of one element share a name, as in the DOM. */
  predicate UniqueNames(attrs: seq<Attr>)
  {
    forall i, j :: 0 <= i < j < |attrs| ==> attrs[i].name != attrs[j].name
  }

  /** Every element of the tree has attributes with unique names. */
  predicate WellNamed(e: Element)
    decreases e
  {
    UniqueNames(e.attrs) && forall i :: 0 <= i < |e.children| ==> WellNamed(e.children[i])
  }

  /** setAttribute: overwrites the value of an existing attribute in place,
      otherwise appends a new attribute. The names already there stay where they
      are, and at most the one new name is added, so names stay unique. */
  function SetAttr(attrs: seq<Attr>, name: string, value: string): (r: seq<Attr>)
    ensures |attrs| <= |r| <= |attrs| + 1
    ensures forall j :: 0 <= j < |attrs| ==> r[j].name == attrs[j].name
    ensures |r| == |attrs| + 1 ==> r[|attrs|] == Attr(name, value)
    ensures UniqueNames(attrs) ==> UniqueNames(r)
  {
    var i := AttrIndex(attrs, name);
    if i < |attrs| then attrs[i := Attr(name, value)] else attrs + [Attr(name, value)]
  }

  /** Two attribute lists with the same names at the same positions find every name at the same place. */
  lemma AttrIndexByNames(a: seq<Attr>, b: seq<Attr>, name: string)
    requires |a| == |b|
    requires forall j :: 0 <= j < |a| ==> a[j].name == b[j].name
    ensures AttrIndex(a, name) == AttrIndex(b, name)
  {
  }

  /** After setAttribute, getAttribute of the same name reads the new value. */
  lemma SetThenGet(attrs: seq<Attr>, name: string, value: string)
    ensures GetAttr(SetAttr(attrs, name, value), name) == Some(value)
  {
    var i := AttrIndex(attrs, name);
    var r := SetAttr(attrs, name, value);
    if i < |attrs| {
      AttrIndexByNames(attrs, r, name);
    } else {
      assert r[|attrs|].name == name;
    }
  }

  /** setAttribute leaves every other attribute as it was. */
  lemma SetKeepsOthers(attrs: seq<Attr>, name: string, value: string, other: string)
    requires other != name
    ensures GetAttr(SetAttr(attrs, name, value), other) == GetAttr(attrs, other)
  {
    var i := AttrIndex(attrs, name);
    var r := SetAttr(attrs, name, value);
    if i < |attrs| {
      AttrIndexByNames(attrs, r, other);
    } else {
      assert r[..|attrs|] == attrs;
    }
  }

  /** Setting an attribute twice is the same as setting it once to the second value. */
  lemma SetTwice(attrs: seq<Attr>, name: string, v1: string, v2: string)
    ensures SetAttr(SetAttr(attrs, name, v1), name, v2) == SetAttr(attrs, name, v2)
  {
    var i := AttrIndex(attrs, name);
    var r := SetAttr(attrs, name, v1);
    if i < |attrs| {
      AttrIndexByNames(attrs, r, name);
    } else {
      assert r[|attrs|].name == name;
    }
  }

  /** Setting an attribute to the value it already has changes nothing. */
  lemma SetExisting(attrs: seq<Attr>, name: string, value: string)
    requires GetAttr(attrs, name) == Some(value)
    ensures SetAttr(attrs, name, value) == attrs
  {
    var i := AttrIndex(attrs, name);
    assert attrs[i] == Attr(name, value);
  }
}
