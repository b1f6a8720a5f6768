/** The documented addXPath cases, stated on the model: each lemma parses a
    concrete path expression and upserts it into a concrete document. The client
    methods at the end drive the mutable Document the way a caller does. */
module UpsertScenarios {
  import opened DomTree
  import opened PathExpression
  import opened PathUpsert

  function Leaf(tag: string, text: string): Element
  {
    Element(tag, [], [], text)
  }

  function Holder(tag: string, children: seq<Element>): Element
  {
    Element(tag, [], children, "")
  }

  function Plain(name: string): Step
  {
    ElementStep(name, NoPredicate)
  }

  /** An expression that does not start at the document root is rejected with a
      message naming it. */
  lemma InvalidExpression()
    ensures Parse("[1]/foo") == Err(InvalidPath("[1]/foo"))
    ensures Parse("[1]/foo").error.Message() == "XPath [1]/foo is not valid."
  {
    RejectsRelativePath();
  }

  // Facts about a concrete chain are stated about a parameter `s0` required to
  // equal it: the verifier then unfolds the chain's definition only as far as
  // each goal needs, instead of expanding the whole literal up front.

  function PlainChain(): seq<Step>
  {
    [Plain("path"), Plain("to"), Plain("node")]
  }

  lemma PlainChainWellFormed(s0: seq<Step>)
    requires s0 == PlainChain()
    ensures WellFormedPath(s0) && RenderablePath(s0)
  {
    assert IsName("path") && IsName("to") && IsName("node");
  }

  lemma PlainChainRenders(s0: seq<Step>)
    requires s0 == PlainChain()
    ensures Render(s0) == "/path/to/node"
  {
  }

  lemma ParsePlainChain()
    ensures Parse("/path/to/node") == Ok(PlainChain())
  {
    PlainChainWellFormed(PlainChain());
    PlainChainRenders(PlainChain());
    ParseRender(PlainChain());
  }

  function AttributeChain(): seq<Step>
  {
    [Plain("path"), Plain("to"), Plain("node"), Plain("with"), AttributeStep("attribute")]
  }

  lemma AttributeChainWellFormed(s0: seq<Step>)
    requires s0 == AttributeChain()
    ensures WellFormedPath(s0) && RenderablePath(s0)
  {
    assert IsName("path") && IsName("to") && IsName("node") && IsName("with") && IsName("attribute");
  }

  lemma AttributeChainRenders(s0: seq<Step>)
    requires s0 == AttributeChain()
    ensures Render(s0) == "/path/to/node/with/@attribute"
  {
  }

  lemma ParseAttributeChain()
    ensures Parse("/path/to/node/with/@attribute") == Ok(AttributeChain())
  {
    AttributeChainWellFormed(AttributeChain());
    AttributeChainRenders(AttributeChain());
    ParseRender(AttributeChain());
  }

  function IndexedChain(): seq<Step>
  {
    [Plain("root"), Plain("parent"), ElementStep("child", Position(3))]
  }

  lemma IndexedChainWellFormed(s0: seq<Step>)
    requires s0 == IndexedChain()
    ensures WellFormedPath(s0) && RenderablePath(s0)
  {
    assert IsName("root") && IsName("parent") && IsName("child");
  }

  lemma IndexedChainRenders(s0: seq<Step>)
    requires s0 == IndexedChain()
    ensures Render(s0) == "/root/parent/child[3]"
  {
  }

  lemma ParseIndexedChain()
    ensures Parse("/root/parent/child[3]") == Ok(IndexedChain())
  {
    IndexedChainWellFormed(IndexedChain());
    IndexedChainRenders(IndexedChain());
    ParseRender(IndexedChain());
  }

  function ChildEqualsChain(): seq<Step>
  {
    [Plain("root"), ElementStep("parent", ChildEquals("child1", "child 1 value")), Plain("child2")]
  }

  /** The comparison of the test expression, with a space on each side of '='
      and double quotes. */
  lemma ChildComparisonText()
    ensures ComparisonText("child1", 1, 1, '"', "child 1 value") == "child1 = \"child 1 value\""
  {
    assert Spaces(1) == " ";
  }

  lemma ChildEqualsChainPieces()
    ensures "/root/parent[child1 = \"child 1 value\"]/child2"
         == "/root/parent[" + "child1 = \"child 1 value\"" + "]/child2"
    ensures "/root/parent[" == "/" + ("root" + ("/" + ("parent" + "[")))
    ensures "]/child2" == "]" + ("/" + "child2")
  {
  }

  lemma ChildEqualsChainText()
    ensures "/root/parent[child1 = \"child 1 value\"]/child2"
         == "/" + ("root" + ("/" + ("parent" + ("[" + (ComparisonText("child1", 1, 1, '"', "child 1 value") + "]" + ("/" + "child2"))))))
  {
    ChildComparisonText();
    ChildEqualsChainPieces();
  }

  /** `/root/parent[child = 'v']/last`, one space on each side of '=', parses to
      its three steps, for any names and any value the quote can enclose. */
  lemma ParseChildEqualsPath(root: string, parent: string, child: string, q: char, v: string, last: string)
    requires IsName(root) && IsName(parent) && IsName(child) && IsName(last) && CanQuote(q, v)
    ensures Parse("/" + (root + ("/" + (parent + ("[" + (ComparisonText(child, 1, 1, q, v) + "]" + ("/" + last)))))))
         == Ok([Plain(root), ElementStep(parent, ChildEquals(child, v)), Plain(last)])
  {
    var p := ChildEquals(child, v);
    var c := ComparisonText(child, 1, 1, q, v);
    var tail := "[" + (c + "]" + ("/" + last));
    var more := parent + tail;
    var e := "/" + (root + ("/" + more));
    ParseChildEqualsText(child, 1, 1, q, v, "/" + last);
    ParseTailBracket(c + "]" + ("/" + last), p, "/" + last);
    ParseElementStep(parent, tail, p, "/" + last);
    ParseStepText(Plain(last), "");
    assert StepText(Plain(last)) + "" == last;
    ParseStepsUnfold(last, Plain(last), "");
    ParseStepsUnfold(more, ElementStep(parent, p), "/" + last);
    assert ("/" + last)[1..] == last;
    ParseStepText(Plain(root), "/" + more);
    assert StepText(Plain(root)) == root;
    assert e[1..] == root + ("/" + more);
    ParseStepsUnfold(e[1..], Plain(root), "/" + more);
    assert ("/" + more)[1..] == more;
    assert [Plain(root)] + ([ElementStep(parent, p)] + [Plain(last)]) == [Plain(root), ElementStep(parent, p), Plain(last)];
  }

  lemma ParseChildEqualsChain()
    ensures Parse("/root/parent[child1 = \"child 1 value\"]/child2") == Ok(ChildEqualsChain())
  {
    ParseChildEqualsPath("root", "parent", "child1", '"', "child 1 value", "child2");
    ChildEqualsChainText();
  }

  function AttributeEqualsChain(): seq<Step>
  {
    [Plain("root"), ElementStep("parent", AttributeEquals("attr", "foo")), Plain("child")]
  }

  lemma AttributeEqualsChainWellFormed(s0: seq<Step>)
    requires s0 == AttributeEqualsChain()
    ensures WellFormedPath(s0) && RenderablePath(s0)
  {
    assert IsName("root") && IsName("parent") && IsName("attr") && IsName("child");
    assert Quotable("foo");
  }

  lemma AttributeEqualsChainRenders(s0: seq<Step>)
    requires s0 == AttributeEqualsChain()
    ensures Render(s0) == "/root/parent[@attr='foo']/child"
  {
    var parent := ElementStep("parent", AttributeEquals("attr", "foo"));
    var last := [Plain("child")];
    assert Render(last) == "/child";
    assert Quoted("foo") == "'foo'";
    assert StepText(parent) == "parent[@attr='foo']";
    RenderCons(parent, last);
    assert s0 == [Plain("root")] + ([parent] + last);
    RenderCons(Plain("root"), [parent] + last);
    assert StepText(Plain("root")) == "root";
    AttributeEqualsChainText();
  }

  lemma AttributeEqualsChainText()
    ensures "/" + "root" + ("/" + "parent[@attr='foo']" + "/child") == "/root/parent[@attr='foo']/child"
  {
  }

  lemma ParseAttributeEqualsChain()
    ensures Parse("/root/parent[@attr='foo']/child") == Ok(AttributeEqualsChain())
  {
    AttributeEqualsChainWellFormed(AttributeEqualsChain());
    AttributeEqualsChainRenders(AttributeEqualsChain());
    ParseRender(AttributeEqualsChain());
  }

  // ---------------------------------------------------------------------------
  // The upserts of those cases, for any names and values

  /** One predicate-free element step per name. */
  function Plains(names: seq<string>): (r: seq<Step>)
    ensures |r| == |names| && forall i :: 0 <= i < |names| ==> r[i] == Plain(names[i])
  {
    if names == [] then [] else [Plain(names[0])] + Plains(names[1..])
  }

  predicate AllNames(names: seq<string>)
  {
    forall i :: 0 <= i < |names| ==> IsName(names[i])
  }

  /** `leaf` below a chain of otherwise empty elements named `names`, outermost first. */
  function Nested(names: seq<string>, leaf: Element): Element
    decreases |names|
  {
    if names == [] then leaf else Holder(names[0], [Nested(names[1..], leaf)])
  }

  lemma PlainsSplit(names: seq<string>)
    requires |names| > 1
    ensures Plains(names) == [Plain(names[0])] + Plains(names[1..])
  {
  }

  /** Below an element without children, a path of plain steps creates the
      whole chain and writes the value into its last element. */
  lemma {:induction false} ApplyPlainChain(e: Element, names: seq<string>, v: string)
    requires e.children == [] && |names| > 0 && AllNames(names)
    ensures Walkable(Plains(names))
    ensures ApplyPath(e, Plains(names), v)
         == e.(children := [Nested(names[..|names| - 1], Leaf(names[|names| - 1], v))])
    decreases |names|
  {
    var n := names[0];
    var leaf := Leaf(names[|names| - 1], v);
    PlainsWalkable(names);
    if |names| > 1 {
      var rest := names[1..];
      var more := Plains(rest);
      PlainsSplit(names);
      assert Plains(names) == [Plain(n)] + more;
      ApplyPlainStep(e, n, more, v);
      ApplyPlainChain(EmptyElement(n), rest, v);
      assert |rest| - 1 == |names| - 2 && rest[|rest| - 1] == names[|names| - 1];
      NestedHead(names, leaf);
      assert ApplyPath(EmptyElement(n), more, v) == Holder(n, [Nested(rest[..|names| - 2], leaf)]);
    } else {
      assert Plains(names) == [Plain(n)];
      ApplyPlainLast(e, n, v);
      assert Nested(names[..0], leaf) == leaf;
    }
  }

  /** A last plain step below an element without children creates its only child, holding the value. */
  lemma ApplyPlainLast(e: Element, n: string, v: string)
    requires e.children == [] && IsName(n)
    ensures Walkable([Plain(n)])
    ensures ApplyPath(e, [Plain(n)], v) == e.(children := [Leaf(n, v)])
  {
    assert Resolve([], n, NoPredicate) == ([EmptyElement(n)], 0);
  }

  lemma PlainsWalkable(names: seq<string>)
    requires |names| > 0 && AllNames(names)
    ensures Walkable(Plains(names))
  {
    var steps := Plains(names);
    forall i | 0 <= i < |steps| ensures WellFormedStep(steps[i]) && steps[i].ElementStep? {
      assert steps[i] == Plain(names[i]);
    }
  }

  /** A chain of two or more names starts with a holder of the rest of the chain. */
  lemma NestedHead(names: seq<string>, leaf: Element)
    requires |names| > 1
    ensures Nested(names[..|names| - 1], leaf) == Holder(names[0], [Nested(names[1..][..|names| - 2], leaf)])
  {
    var front := names[..|names| - 1];
    assert front[0] == names[0] && front[1..] == names[1..][..|names| - 2];
  }

  /** addXPath of plain steps on an empty document builds the chain. */
  lemma PlainChainOnEmptyDocument(names: seq<string>, v: string)
    requires |names| > 0 && AllNames(names)
    ensures WellFormedPath(Plains(names))
    ensures Upsert([], Plains(names), v) == [Nested(names[..|names| - 1], Leaf(names[|names| - 1], v))]
  {
    ApplyPlainChain(DocumentNode([]), names, v);
  }

  /** Below an element without children, plain steps followed by @attr create
      the chain and set the attribute on its last element. */
  lemma AttributeChainWalkable(names: seq<string>, attr: string)
    requires |names| > 0 && AllNames(names) && IsName(attr)
    ensures Walkable(Plains(names) + [AttributeStep(attr)])
  {
    var steps := Plains(names) + [AttributeStep(attr)];
    forall i | 0 <= i < |steps| ensures WellFormedStep(steps[i]) && (i < |steps| - 1 ==> steps[i].ElementStep?) {
      if i < |names| {
        assert steps[i] == Plain(names[i]);
      }
    }
  }

  /** A plain step below an element without children creates its only child and
      walks the rest of the path from there. */
  lemma {:induction false} ApplyPlainStep(e: Element, n: string, more: seq<Step>, v: string)
    requires e.children == [] && |more| > 0
    requires Walkable([Plain(n)] + more)
    ensures Walkable(more)
    ensures ApplyPath(e, [Plain(n)] + more, v) == e.(children := [ApplyPath(EmptyElement(n), more, v)])
  {
    var steps := [Plain(n)] + more;
    assert steps[1..] == more;
    WalkableSuffix(steps, 1);
    assert Resolve([], n, NoPredicate) == ([EmptyElement(n)], 0);
  }

  lemma {:induction false} ApplyAttributeChain(e: Element, names: seq<string>, attr: string, v: string)
    requires e.children == [] && |names| > 0 && AllNames(names) && IsName(attr)
    requires Walkable(Plains(names) + [AttributeStep(attr)])
    ensures ApplyPath(e, Plains(names) + [AttributeStep(attr)], v)
         == e.(children := [Nested(names[..|names| - 1], Element(names[|names| - 1], [Attr(attr, v)], [], ""))])
    decreases |names|
  {
    var n := names[0];
    var last := Element(names[|names| - 1], [Attr(attr, v)], [], "");
    var more := Plains(names[1..]) + [AttributeStep(attr)];
    assert Plains(names) + [AttributeStep(attr)] == [Plain(n)] + more;
    ApplyPlainStep(e, n, more, v);
    if |names| > 1 {
      AttributeChainWalkable(names[1..], attr);
      ApplyAttributeChain(EmptyElement(n), names[1..], attr, v);
      assert names[1..][|names| - 2] == names[|names| - 1];
      NestedHead(names, last);
      assert ApplyPath(EmptyElement(n), more, v) == Holder(n, [Nested(names[1..][..|names| - 2], last)]);
    } else {
      assert more == [AttributeStep(attr)];
      SetAttrOnBare(n, attr, v);
      assert Nested(names[..0], last) == last;
    }
  }

  /** An attribute step on an element without attributes gives it just that attribute. */
  lemma SetAttrOnBare(n: string, attr: string, v: string)
    requires IsName(attr)
    ensures Walkable([AttributeStep(attr)])
    ensures ApplyPath(EmptyElement(n), [AttributeStep(attr)], v) == Element(n, [Attr(attr, v)], [], "")
  {
    assert SetAttr([], attr, v) == [Attr(attr, v)];
  }

  lemma AttributeChainOnEmptyDocument(names: seq<string>, attr: string, v: string)
    requires |names| > 0 && AllNames(names) && IsName(attr)
    ensures WellFormedPath(Plains(names) + [AttributeStep(attr)])
    ensures Upsert([], Plains(names) + [AttributeStep(attr)], v)
         == [Nested(names[..|names| - 1], Element(names[|names| - 1], [Attr(attr, v)], [], ""))]
  {
    AttributeChainWalkable(names, attr);
    ApplyAttributeChain(DocumentNode([]), names, attr, v);
  }

  /** `/root/parent/child[n]` on an empty document: n - 1 empty siblings precede
      the child that receives the value. */
  lemma IndexedChainOnEmptyDocument(root: string, parent: string, child: string, n: nat, v: string)
    requires IsName(root) && IsName(parent) && IsName(child) && n >= 1
    ensures WellFormedPath([Plain(root), Plain(parent), ElementStep(child, Position(n))])
    ensures Upsert([], [Plain(root), Plain(parent), ElementStep(child, Position(n))], v)
         == [Holder(root, [Holder(parent, Pad(child, n - 1) + [Leaf(child, v)])])]
  {
    var last := [ElementStep(child, Position(n))];
    var mid := [Plain(parent)] + last;
    assert [Plain(root), Plain(parent), ElementStep(child, Position(n))] == [Plain(root)] + mid;
    IndexedLast(parent, child, n, v);
    PlainPrefixWalkable(parent, last);
    PlainPrefixWalkable(root, mid);
    ApplyPlainStep(EmptyElement(root), parent, last, v);
    ApplyPlainStep(DocumentNode([]), root, mid, v);
  }

  lemma PlainPrefixWalkable(n: string, more: seq<Step>)
    requires IsName(n) && Walkable(more)
    ensures Walkable([Plain(n)] + more)
  {
    var steps := [Plain(n)] + more;
    forall i | 1 <= i < |steps| ensures steps[i] == more[i - 1] {
    }
  }

  /** A last index step below an element without children pads it with n - 1
      empty siblings before the one receiving the value. */
  lemma IndexedLast(parent: string, child: string, n: nat, v: string)
    requires IsName(child) && n >= 1
    ensures Walkable([ElementStep(child, Position(n))])
    ensures ApplyPath(EmptyElement(parent), [ElementStep(child, Position(n))], v)
         == Holder(parent, Pad(child, n - 1) + [Leaf(child, v)])
  {
    assert Resolve([], child, Position(n)) == (Pad(child, n), n - 1);
    assert Pad(child, n)[n - 1 := Leaf(child, v)] == Pad(child, n - 1) + [Leaf(child, v)];
  }

  /** `/root/parent[c = 'cv']/last` on an empty document: the parent is created
      seeded with the compared child, and the last step adds a sibling to it. */
  lemma ChildEqualsChainOnEmptyDocument(root: string, parent: string, c: string, cv: string, last: string, v: string)
    requires IsName(root) && IsName(parent) && IsName(c) && IsName(last) && c != last
    ensures WellFormedPath([Plain(root), ElementStep(parent, ChildEquals(c, cv)), Plain(last)])
    ensures Upsert([], [Plain(root), ElementStep(parent, ChildEquals(c, cv)), Plain(last)], v)
         == [Holder(root, [Holder(parent, [Leaf(c, cv), Leaf(last, v)])])]
  {
    var p := ChildEquals(c, cv);
    var s := [Plain(root), ElementStep(parent, p), Plain(last)];
    var seeded := Holder(parent, [Leaf(c, cv)]);
    assert s[1..][1..] == [Plain(last)];
    assert Resolve([], parent, p) == ([seeded], 0);
    assert FirstMatch(seeded.children, last, NoPredicate) == 1 by {
      assert seeded.children[1..] == [];
    }
    assert Find(seeded.children, last, NoPredicate) == None;
    assert seeded.children + [EmptyElement(last)] == [Leaf(c, cv), EmptyElement(last)];
    assert Resolve(seeded.children, last, NoPredicate) == ([Leaf(c, cv), EmptyElement(last)], 1);
    var inner := Holder(parent, [Leaf(c, cv), Leaf(last, v)]);
    assert ApplyPath(seeded, s[1..][1..], v) == inner;
    assert ApplyPath(EmptyElement(root), s[1..], v) == Holder(root, [inner]);
    assert Resolve([], root, NoPredicate) == ([EmptyElement(root)], 0);
  }

  /** `/root/parent[@a = 'av']/last` on an empty document: the parent is created
      carrying the attribute. */
  lemma AttributeEqualsChainOnEmptyDocument(root: string, parent: string, a: string, av: string, last: string, v: string)
    requires IsName(root) && IsName(parent) && IsName(a) && IsName(last)
    ensures WellFormedPath([Plain(root), ElementStep(parent, AttributeEquals(a, av)), Plain(last)])
    ensures Upsert([], [Plain(root), ElementStep(parent, AttributeEquals(a, av)), Plain(last)], v)
         == [Holder(root, [Element(parent, [Attr(a, av)], [Leaf(last, v)], "")])]
  {
    var p := AttributeEquals(a, av);
    var s := [Plain(root), ElementStep(parent, p), Plain(last)];
    assert s[1..][1..] == [Plain(last)];
    var seeded := Element(parent, [Attr(a, av)], [], "");
    assert Resolve([], parent, p) == ([seeded], 0);
    assert Resolve([], last, NoPredicate) == ([EmptyElement(last)], 0);
    var inner := seeded.(children := [Leaf(last, v)]);
    assert ApplyPath(seeded, s[1..][1..], v) == inner;
    assert ApplyPath(EmptyElement(root), s[1..], v) == Holder(root, [inner]);
    assert Resolve([], root, NoPredicate) == ([EmptyElement(root)], 0);
  }

  /** The same path on `<root><parent a="av"/></root>` reuses the parent that
      already carries the attribute instead of creating a second one. */
  lemma AttributeEqualsChainReusesElement(root: string, parent: string, a: string, av: string, last: string, v: string)
    requires IsName(root) && IsName(parent) && IsName(a) && IsName(last)
    ensures WellFormedPath([Plain(root), ElementStep(parent, AttributeEquals(a, av)), Plain(last)])
    ensures Upsert([Holder(root, [Element(parent, [Attr(a, av)], [], "")])],
                   [Plain(root), ElementStep(parent, AttributeEquals(a, av)), Plain(last)], v)
         == [Holder(root, [Element(parent, [Attr(a, av)], [Leaf(last, v)], "")])]
  {
    var p := AttributeEquals(a, av);
    var s := [Plain(root), ElementStep(parent, p), Plain(last)];
    var existing := Element(parent, [Attr(a, av)], [], "");
    assert s[1..][1..] == [Plain(last)];
    assert GetAttr(existing.attrs, a) == Some(av);
    assert Resolve([existing], parent, p) == ([existing], 0);
    assert Resolve([], last, NoPredicate) == ([EmptyElement(last)], 0);
    var inner := existing.(children := [Leaf(last, v)]);
    assert ApplyPath(existing, s[1..][1..], v) == inner;
    assert ApplyPath(Holder(root, [existing]), s[1..], v) == Holder(root, [inner]);
    assert Resolve([Holder(root, [existing])], root, NoPredicate) == ([Holder(root, [existing])], 0);
  }
  // ---------------------------------------------------------------------------
  // The documented cases: the upsert of each parsed expression, then the
  // mutable Document driven as a caller does

  lemma WritePlainChain(v: string)
    ensures Upsert([], PlainChain(), v) == [Holder("path", [Holder("to", [Leaf("node", v)])])]
  {
    var names := ["path", "to", "node"];
    assert IsName("path") && IsName("to") && IsName("node");
    assert Plains(names) == PlainChain();
    PlainChainOnEmptyDocument(names, v);
    var leaf := Leaf("node", v);
    assert names[..2] == ["path", "to"] && names[..2][1..] == ["to"] && ["to"][1..] == [];
    assert Nested(["to"], leaf) == Holder("to", [leaf]);
    assert Nested(["path", "to"], leaf) == Holder("path", [Holder("to", [leaf])]);
  }

  /** The second write of the same expression only replaces the value. */
  lemma RewritePlainChain()
    ensures Upsert(Upsert([], PlainChain(), "value"), PlainChain(), "new value")
         == [Holder("path", [Holder("to", [Leaf("node", "new value")])])]
  {
    PlainChainWellFormed(PlainChain());
    assert Stable(PlainChain());
    UpsertIdempotent([], PlainChain(), "value", "new value");
    WritePlainChain("new value");
  }

  /** Four plain steps and an attribute step on an empty document. */
  lemma {:induction false} FourStepAttributeChain(a: string, b: string, c: string, d: string, attr: string, v: string)
    requires AllNames([a, b, c, d]) && IsName(attr)
    ensures WellFormedPath(Plains([a, b, c, d]) + [AttributeStep(attr)])
    ensures Upsert([], Plains([a, b, c, d]) + [AttributeStep(attr)], v)
         == [Holder(a, [Holder(b, [Holder(c, [Element(d, [Attr(attr, v)], [], "")])])])]
  {
    var names := [a, b, c, d];
    AttributeChainOnEmptyDocument(names, attr, v);
    var leaf := Element(d, [Attr(attr, v)], [], "");
    assert names[..3] == [a, b, c];
    assert [a, b, c][1..] == [b, c] && [b, c][1..] == [c] && [c][1..] == [];
    assert Nested([c], leaf) == Holder(c, [leaf]);
    assert Nested([b, c], leaf) == Holder(b, [Holder(c, [leaf])]);
  }

  lemma WriteAttributeChain()
    ensures WellFormedPath(AttributeChain())
    ensures Upsert([], AttributeChain(), "value")
         == [Holder("path", [Holder("to", [Holder("node", [Element("with", [Attr("attribute", "value")], [], "")])])])]
  {
    var names := ["path", "to", "node", "with"];
    assert IsName("path") && IsName("to") && IsName("node") && IsName("with") && IsName("attribute");
    assert AllNames(names);
    assert Plains(names) + [AttributeStep("attribute")] == AttributeChain();
    FourStepAttributeChain("path", "to", "node", "with", "attribute", "value");
  }

  lemma WriteIndexedChain()
    ensures Upsert([], IndexedChain(), "value")
         == [Holder("root", [Holder("parent", [Leaf("child", ""), Leaf("child", ""), Leaf("child", "value")])])]
  {
    assert IsName("root") && IsName("parent") && IsName("child");
    IndexedChainOnEmptyDocument("root", "parent", "child", 3, "value");
    var p := Pad("child", 2);
    assert |p| == 2 && p[0] == Leaf("child", "") && p[1] == Leaf("child", "");
    assert p + [Leaf("child", "value")] == [Leaf("child", ""), Leaf("child", ""), Leaf("child", "value")];
  }

  lemma WriteChildEqualsChain()
    ensures Upsert([], ChildEqualsChain(), "child 2 value")
         == [Holder("root", [Holder("parent", [Leaf("child1", "child 1 value"), Leaf("child2", "child 2 value")])])]
  {
    assert IsName("root") && IsName("parent") && IsName("child1") && IsName("child2");
    ChildEqualsChainOnEmptyDocument("root", "parent", "child1", "child 1 value", "child2", "child 2 value");
  }

  /** `<root><parent attr="foo" /></root>`, with `children` under the parent. */
  function ParentWithAttr(children: seq<Element>): seq<Element>
  {
    [Holder("root", [Element("parent", [Attr("attr", "foo")], children, "")])]
  }

  lemma WriteAttributeEqualsChain()
    ensures Upsert([], AttributeEqualsChain(), "value") == ParentWithAttr([Leaf("child", "value")])
  {
    assert IsName("root") && IsName("parent") && IsName("attr") && IsName("child");
    AttributeEqualsChainOnEmptyDocument("root", "parent", "attr", "foo", "child", "value");
  }

  lemma WriteAttributeEqualsChainIntoLoaded()
    ensures Upsert(ParentWithAttr([]), AttributeEqualsChain(), "value") == ParentWithAttr([Leaf("child", "value")])
  {
    assert IsName("root") && IsName("parent") && IsName("attr") && IsName("child");
    AttributeEqualsChainReusesElement("root", "parent", "attr", "foo", "child", "value");
  }

  method AddXPathInvalidExpression() returns (doc: Document, r: Result<()>)
    ensures r.Err? && r.error.Message() == "XPath [1]/foo is not valid."
    ensures doc.nodes == []
  {
    doc := new Document();
    InvalidExpression();
    r := doc.AddXPath("[1]/foo", "");
  }

  method AddXPathWithAttribute() returns (doc: Document)
    ensures doc.nodes == [Holder("path", [Holder("to", [Holder("node", [Element("with", [Attr("attribute", "value")], [], "")])])])]
  {
    doc := new Document();
    ParseAttributeChain();
    WriteAttributeChain();
    var r := doc.AddXPath("/path/to/node/with/@attribute", "value");
  }

  method AddXPathExistingElement() returns (doc: Document)
    ensures doc.nodes == [Holder("path", [Holder("to", [Leaf("node", "value")])])]
  {
    doc := new Document();
    ParsePlainChain();
    WritePlainChain("value");
    var r := doc.AddXPath("/path/to/node", "value");
  }

  /** The second write replaces the value and creates nothing. */
  method AddXPathTwice() returns (doc: Document)
    ensures doc.nodes == [Holder("path", [Holder("to", [Leaf("node", "new value")])])]
  {
    doc := new Document();
    ParsePlainChain();
    RewritePlainChain();
    var r := doc.AddXPath("/path/to/node", "value");
    r := doc.AddXPath("/path/to/node", "new value");
  }

  method AddXPathChildElementWithValue() returns (doc: Document)
    ensures doc.nodes == [Holder("root", [Holder("parent", [Leaf("child1", "child 1 value"), Leaf("child2", "child 2 value")])])]
  {
    doc := new Document();
    ParseChildEqualsChain();
    WriteChildEqualsChain();
    var r := doc.AddXPath("/root/parent[child1 = \"child 1 value\"]/child2", "child 2 value");
  }

  method AddXPathWithNumericIndex() returns (doc: Document)
    ensures doc.nodes == [Holder("root", [Holder("parent", [Leaf("child", ""), Leaf("child", ""), Leaf("child", "value")])])]
  {
    doc := new Document();
    ParseIndexedChain();
    WriteIndexedChain();
    var r := doc.AddXPath("/root/parent/child[3]", "value");
  }

  method AddXPathWithAttributeValue() returns (doc: Document)
    ensures doc.nodes == ParentWithAttr([Leaf("child", "value")])
  {
    doc := new Document();
    ParseAttributeEqualsChain();
    WriteAttributeEqualsChain();
    var r := doc.AddXPath("/root/parent[@attr='foo']/child", "value");
  }

  /** On a loaded `<root><parent attr="foo" /></root>` the existing parent is reused. */
  method AddXPathWithAttributeValueExists() returns (doc: Document)
    ensures doc.nodes == ParentWithAttr([Leaf("child", "value")])
  {
    doc := new Document.Holding(ParentWithAttr([]));
    ParseAttributeEqualsChain();
    WriteAttributeEqualsChainIntoLoaded();
    var r := doc.AddXPath("/root/parent[@attr='foo']/child", "value");
  }
}
