/** The two converters between nested key/value data and element trees:
    `fromArray` builds the top-level elements of a fresh document from an
    ordered mapping, and `toArray` builds the ordered mapping back from the
    document's top-level elements. The mapping keys follow the PHP array
    convention of the library: a key starting with '@' is an attribute, any
    other key names child elements. */
module ArrayConversion {
  import opened DomTree

  /** A structured value: a scalar (element text or attribute value), an
      ordered mapping, or a sequence of values sharing one element key. */
  datatype Value = Scalar(text: string) | Mapping(entries: seq<Entry>) | List(items: seq<Value>)

  /** One key/value pair of an ordered mapping. */
  datatype Entry = Entry(key: string, value: Value)

  /** The prefix that marks a mapping key as an attribute. */
  const AttributePrefix: char := '@'

  predicate IsAttributeKey(key: string)
  {
    |key| > 0 && key[0] == AttributePrefix
  }

  /** The keys of a mapping, as a set. */
  function KeySet(es: seq<Entry>): set<string>
  {
    set i | 0 <= i < |es| :: es[i].key
  }

  /** Mapping keys are unique, as the keys of a PHP array are. */
  predicate DistinctKeys(es: seq<Entry>)
  {
    forall i, j :: 0 <= i < j < |es| ==> es[i].key != es[j].key
  }

  // ---------------------------------------------------------------------
  // fromArray
  // ---------------------------------------------------------------------

  /** An entry that sets an attribute: an '@' key holding a scalar. */
  predicate IsAttributeEntry(e: Entry)
  {
    IsAttributeKey(e.key) && e.value.Scalar?
  }

  /** The attribute an attribute entry sets: named by the key without its
      prefix, valued by the scalar. */
  function AttrOf(e: Entry): (a: Attr)
    requires IsAttributeEntry(e)
    ensures [AttributePrefix] + a.name == e.key && a.value == e.value.text
  {
    Attr(e.key[1..], e.value.text)
  }

  /** The attributes a mapping sets on its element: one per attribute entry,
      in key order, and nothing else (AttributesOfMembers and AttributesOfAppend). */
  function AttributesOf(es: seq<Entry>): (r: seq<Attr>)
  {
    if es == [] then []
    else (if IsAttributeEntry(es[0]) then [AttrOf(es[0])] else []) + AttributesOf(es[1..])
  }

  /** The elements that the entry `tag => v` creates: one element with text
      for a scalar, one element with attributes and children for a mapping,
      and one sibling per item, all called `tag`, for a sequence. */
  function ElementsFor(tag: string, v: Value): (r: seq<Element>)
    decreases v, 1
    ensures forall i :: 0 <= i < |r| ==> r[i].tag == tag
    ensures !v.List? ==> |r| == 1
  {
    match v
    case Scalar(t) => [Element(tag, [], [], t)]
    case Mapping(es) => [Element(tag, AttributesOf(es), ChildrenOf(es), "")]
    case List(items) => ListElements(tag, items)
  }

  /** The child elements a mapping creates: the elements of every non-attribute
      key, in key order. */
  function ChildrenOf(es: seq<Entry>): (r: seq<Element>)
    decreases es, 0
    ensures forall i :: 0 <= i < |r| ==> !IsAttributeKey(r[i].tag) && r[i].tag in KeySet(es)
  {
    if es == [] then []
    else
      KeySetCons(es);
      (if IsAttributeKey(es[0].key) then [] else ElementsFor(es[0].key, es[0].value)) + ChildrenOf(es[1..])
  }

  /** The siblings a sequence creates under one tag, in sequence order. */
  function ListElements(tag: string, items: seq<Value>): (r: seq<Element>)
    decreases items, 0
    ensures forall i :: 0 <= i < |r| ==> r[i].tag == tag
  {
    if items == [] then [] else ElementsFor(tag, items[0]) + ListElements(tag, items[1..])
  }

  /** fromArray: the top-level elements of the new document. The empty mapping
      gives a document with no root element. */
  function FromArray(es: seq<Entry>): (nodes: seq<Element>)
    ensures forall i :: 0 <= i < |nodes| ==> !IsAttributeKey(nodes[i].tag) && nodes[i].tag in KeySet(es)
  {
    ChildrenOf(es)
  }

  // ---------------------------------------------------------------------
  // toArray
  // ---------------------------------------------------------------------

  /** An element with neither attributes nor child elements collapses to its text. */
  predicate Collapses(e: Element)
  {
    e.attrs == [] && e.children == []
  }

  /** buildValue: a collapsing element is its text; any other element is the
      mapping of its attributes ('@' keys) followed by its children grouped
      by tag. */
  function ToValue(e: Element): (v: Value)
    decreases e, 1
    ensures v.Scalar? <==> Collapses(e)
    ensures !v.List?
  {
    if Collapses(e) then Scalar(e.text)
    else Mapping(AttributeEntries(e.attrs) + Group(Pairs(e.children)))
  }

  /** Each child paired with its tag, in document order. */
  function Pairs(cs: seq<Element>): (r: seq<Entry>)
    decreases cs, 0
    ensures |r| == |cs|
    ensures forall i :: 0 <= i < |r| ==> r[i].key == cs[i].tag
  {
    if cs == [] then [] else [Entry(cs[0].tag, ToValue(cs[0]))] + Pairs(cs[1..])
  }

  /** The '@name => value' entries of an attribute list, in attribute order. */
  function AttributeEntries(attrs: seq<Attr>): (r: seq<Entry>)
    ensures |r| == |attrs|
    ensures forall i :: 0 <= i < |r| ==> IsAttributeKey(r[i].key) && r[i].value == Scalar(attrs[i].value)
  {
    if attrs == [] then [] else [Entry([AttributePrefix] + attrs[0].name, Scalar(attrs[0].value))] + AttributeEntries(attrs[1..])
  }

  /** The values paired with `key`, in order. */
  function ValuesWithKey(pairs: seq<Entry>, key: string): (r: seq<Value>)
  {
    if pairs == [] then []
    else (if pairs[0].key == key then [pairs[0].value] else []) + ValuesWithKey(pairs[1..], key)
  }

  /** The pairs whose key is not `key`, in order. */
  function WithoutKey(pairs: seq<Entry>, key: string): (r: seq<Entry>)
    ensures |r| <= |pairs|
  {
    if pairs == [] then []
    else (if pairs[0].key == key then [] else [pairs[0]]) + WithoutKey(pairs[1..], key)
  }

  /** One occurrence of a tag gives its value; several give the sequence of values. */
  function Collect(vs: seq<Value>): Value
  {
    if |vs| == 1 then vs[0] else List(vs)
  }

  /** Groups pairs by key in first-seen key order: one entry per distinct key,
      holding every value paired with that key (see GroupKeys). */
  function Group(pairs: seq<Entry>): (r: seq<Entry>)
    decreases |pairs|
  {
    if pairs == [] then []
    else
      var key := pairs[0].key;
      [Entry(key, Collect(ValuesWithKey(pairs, key)))] + Group(WithoutKey(pairs[1..], key))
  }

  /** The position of the first pair keyed `key`, or |pairs| when there is none. */
  function FirstIndex(pairs: seq<Entry>, key: string): (n: nat)
    ensures n <= |pairs|
    ensures n < |pairs| ==> pairs[n].key == key
    ensures forall i :: 0 <= i < n ==> pairs[i].key != key
  {
    if pairs == [] then 0
    else if pairs[0].key == key then 0
    else 1 + FirstIndex(pairs[1..], key)
  }

  /** toArray: the mapping from each top-level tag to its value; the empty
      mapping when the document has no root. */
  function ToArray(nodes: seq<Element>): (es: seq<Entry>)
    ensures DistinctKeys(es)
    ensures KeySet(es) == Tags(nodes)
  {
    GroupKeys(Pairs(nodes));
    PairsKeySet(nodes);
    Group(Pairs(nodes))
  }

  /** The tags of a sequence of elements, as a set. */
  function Tags(nodes: seq<Element>): set<string>
  {
    set i | 0 <= i < |nodes| :: nodes[i].tag
  }

  // ---------------------------------------------------------------------
  // Helper facts about the list functions
  // ---------------------------------------------------------------------

  lemma {:induction false} KeySetCons(es: seq<Entry>)
    requires es != []
    ensures KeySet(es) == {es[0].key} + KeySet(es[1..])
  {
    forall k | k in KeySet(es) ensures k in {es[0].key} + KeySet(es[1..]) {
      var i :| 0 <= i < |es| && es[i].key == k;
      if i > 0 {
        assert es[1..][i - 1].key == k;
      }
    }
    forall k | k in KeySet(es[1..]) ensures k in KeySet(es) {
      var i :| 0 <= i < |es[1..]| && es[1..][i].key == k;
      assert es[i + 1].key == k;
    }
  }

  /** The keys of the pairs are the tags of the children. */
  lemma PairsKeySet(cs: seq<Element>)
    ensures KeySet(Pairs(cs)) == Tags(cs)
  {
    var ps := Pairs(cs);
    forall k | k in KeySet(ps) ensures k in Tags(cs) {
      var i :| 0 <= i < |ps| && ps[i].key == k;
      assert cs[i].tag == k;
    }
    forall k | k in Tags(cs) ensures k in KeySet(ps) {
      var i :| 0 <= i < |cs| && cs[i].tag == k;
      assert ps[i].key == k;
    }
  }

  lemma {:induction false} KeySetAppend(a: seq<Entry>, b: seq<Entry>)
    ensures KeySet(a + b) == KeySet(a) + KeySet(b)
  {
    forall k | k in KeySet(a + b) ensures k in KeySet(a) + KeySet(b) {
      var i :| 0 <= i < |a + b| && (a + b)[i].key == k;
      if i >= |a| {
        assert b[i - |a|].key == k;
      }
    }
    forall k | k in KeySet(a) ensures k in KeySet(a + b) {
      var i :| 0 <= i < |a| && a[i].key == k;
      assert (a + b)[i].key == k;
    }
    forall k | k in KeySet(b) ensures k in KeySet(a + b) {
      var i :| 0 <= i < |b| && b[i].key == k;
      assert (a + b)[i + |a|].key == k;
    }
  }

  lemma {:induction false} KeySetSingle(e: Entry)
    ensures KeySet([e]) == {e.key}
  {
    assert [e][0].key == e.key;
  }

  /** A key has values exactly when it occurs. */
  lemma {:induction false} ValuesPresent(pairs: seq<Entry>, key: string)
    ensures ValuesWithKey(pairs, key) == [] <==> key !in KeySet(pairs)
  {
    if pairs != [] {
      KeySetCons(pairs);
      ValuesPresent(pairs[1..], key);
    }
  }

  /** Removing a key removes exactly that key from the key set. */
  lemma {:induction false} WithoutKeySet(pairs: seq<Entry>, key: string)
    ensures KeySet(WithoutKey(pairs, key)) == KeySet(pairs) - {key}
  {
    if pairs != [] {
      var head := if pairs[0].key == key then [] else [pairs[0]];
      KeySetCons(pairs);
      WithoutKeySet(pairs[1..], key);
      KeySetAppend(head, WithoutKey(pairs[1..], key));
      KeySetSingle(pairs[0]);
    }
  }

  /** toArray's grouping: one entry per distinct key, the same keys as the
      pairs, in the order in which each key is first seen, and each entry
      holds every value paired with its key, in order. */
  lemma {:induction false} GroupKeys(pairs: seq<Entry>)
    ensures DistinctKeys(Group(pairs))
    ensures KeySet(Group(pairs)) == KeySet(pairs)
    ensures forall i, j :: 0 <= i < j < |Group(pairs)| ==>
              FirstIndex(pairs, Group(pairs)[i].key) < FirstIndex(pairs, Group(pairs)[j].key)
    ensures forall i :: 0 <= i < |Group(pairs)| ==>
              Group(pairs)[i].value == Collect(ValuesWithKey(pairs, Group(pairs)[i].key))
  {
    GroupKeySet(pairs);
    GroupDistinct(pairs);
    GroupOrder(pairs);
    GroupValues(pairs);
  }

  lemma {:induction false} GroupOrder(pairs: seq<Entry>)
    decreases |pairs|
    ensures forall i, j :: 0 <= i < j < |Group(pairs)| ==>
              FirstIndex(pairs, Group(pairs)[i].key) < FirstIndex(pairs, Group(pairs)[j].key)
  {
    if pairs != [] {
      var key := pairs[0].key;
      var rest := WithoutKey(pairs[1..], key);
      var r := Group(pairs);
      assert r == [Entry(key, Collect(ValuesWithKey(pairs, key)))] + Group(rest);
      GroupOrder(rest);
      GroupKeySet(rest);
      WithoutKeySet(pairs[1..], key);
      forall i, j | 0 <= i < j < |r| ensures FirstIndex(pairs, r[i].key) < FirstIndex(pairs, r[j].key) {
        var g := Group(rest);
        var b := g[j - 1];
        assert r[j] == b;
        KeyInSet(g, j - 1);
        FirstIndexTail(pairs, b.key);
        if i > 0 {
          var a := g[i - 1];
          assert r[i] == a;
          KeyInSet(g, i - 1);
          FirstIndexTail(pairs, a.key);
          assert FirstIndex(rest, a.key) < FirstIndex(rest, b.key);
          WithoutKeyOrder(pairs[1..], key, a.key, b.key);
        }
      }
    }
  }

  lemma KeyInSet(es: seq<Entry>, i: nat)
    requires i < |es|
    ensures es[i].key in KeySet(es)
  {
  }

  /** Past a pair with another key, the first position of `key` is one further on. */
  lemma FirstIndexTail(pairs: seq<Entry>, key: string)
    requires pairs != [] && pairs[0].key != key
    ensures FirstIndex(pairs, key) == 1 + FirstIndex(pairs[1..], key)
  {
  }

  /** Dropping one key keeps the first-seen order of the other keys. */
  lemma {:induction false} WithoutKeyOrder(ps: seq<Entry>, key: string, a: string, b: string)
    requires a != key && b != key
    requires FirstIndex(WithoutKey(ps, key), a) < FirstIndex(WithoutKey(ps, key), b)
    ensures FirstIndex(ps, a) < FirstIndex(ps, b)
  {
    var w := WithoutKey(ps, key);
    if ps != [] && ps[0].key != a {
      if ps[0].key == key {
        assert w == WithoutKey(ps[1..], key);
      } else {
        assert w == [ps[0]] + WithoutKey(ps[1..], key);
        assert w[1..] == WithoutKey(ps[1..], key);
      }
      WithoutKeyOrder(ps[1..], key, a, b);
    }
  }

  lemma {:induction false} GroupKeySet(pairs: seq<Entry>)
    decreases |pairs|
    ensures KeySet(Group(pairs)) == KeySet(pairs)
  {
    if pairs != [] {
      var key := pairs[0].key;
      var rest := WithoutKey(pairs[1..], key);
      var first := Entry(key, Collect(ValuesWithKey(pairs, key)));
      GroupKeySet(rest);
      WithoutKeySet(pairs[1..], key);
      KeySetCons(pairs);
      KeySetAppend([first], Group(rest));
      KeySetSingle(first);
    }
  }

  lemma {:induction false} GroupDistinct(pairs: seq<Entry>)
    decreases |pairs|
    ensures DistinctKeys(Group(pairs))
  {
    if pairs != [] {
      var key := pairs[0].key;
      var rest := WithoutKey(pairs[1..], key);
      var first := Entry(key, Collect(ValuesWithKey(pairs, key)));
      assert Group(pairs) == [first] + Group(rest);
      GroupDistinct(rest);
      GroupKeySet(rest);
      WithoutKeySet(pairs[1..], key);
      DistinctCons(first, Group(rest));
    }
  }

  lemma {:induction false} DistinctCons(first: Entry, rest: seq<Entry>)
    requires DistinctKeys(rest) && first.key !in KeySet(rest)
    ensures DistinctKeys([first] + rest)
  {
    var r := [first] + rest;
    forall i, j | 0 <= i < j < |r| ensures r[i].key != r[j].key {
      assert r[j] == rest[j - 1];
      if i > 0 {
        assert r[i] == rest[i - 1];
      } else {
        assert rest[j - 1].key in KeySet(rest);
      }
    }
  }

  lemma {:induction false} GroupValues(pairs: seq<Entry>)
    decreases |pairs|
    ensures forall i :: 0 <= i < |Group(pairs)| ==>
              Group(pairs)[i].value == Collect(ValuesWithKey(pairs, Group(pairs)[i].key))
  {
    if pairs != [] {
      var key := pairs[0].key;
      var rest := WithoutKey(pairs[1..], key);
      var r := Group(pairs);
      GroupValues(rest);
      GroupKeySet(rest);
      WithoutKeySet(pairs[1..], key);
      forall i | 1 <= i < |r| ensures r[i].value == Collect(ValuesWithKey(pairs, r[i].key)) {
        var g := Group(rest)[i - 1];
        assert r[i] == g;
        assert g.value == Collect(ValuesWithKey(rest, g.key));
        assert g.key in KeySet(Group(rest));
        OtherKeyValues(pairs, rest, g.key);
      }
    }
  }

  /** A key left after removing the first pair's key has the same values in
      the remaining pairs as in all of them. */
  lemma OtherKeyValues(pairs: seq<Entry>, rest: seq<Entry>, k: string)
    requires pairs != [] && rest == WithoutKey(pairs[1..], pairs[0].key)
    requires k in KeySet(pairs[1..]) - {pairs[0].key}
    ensures ValuesWithKey(rest, k) == ValuesWithKey(pairs, k)
  {
    ValuesWithoutKey(pairs[1..], pairs[0].key, k);
    assert ValuesWithKey(pairs, k) == [] + ValuesWithKey(pairs[1..], k);
  }

  /** Removing one key does not change the values of any other key. */
  lemma {:induction false} ValuesWithoutKey(pairs: seq<Entry>, gone: string, key: string)
    requires key != gone
    ensures ValuesWithKey(WithoutKey(pairs, gone), key) == ValuesWithKey(pairs, key)
  {
    if pairs != [] {
      ValuesWithoutKey(pairs[1..], gone, key);
      ValuesAppend(if pairs[0].key == gone then [] else [pairs[0]], WithoutKey(pairs[1..], gone), key);
    }
  }

  lemma {:induction false} ValuesAppend(a: seq<Entry>, b: seq<Entry>, key: string)
    ensures ValuesWithKey(a + b, key) == ValuesWithKey(a, key) + ValuesWithKey(b, key)
  {
    if a == [] {
      assert a + b == b;
    } else {
      var head := if a[0].key == key then [a[0].value] else [];
      assert (a + b)[0] == a[0];
      assert (a + b)[1..] == a[1..] + b;
      ValuesAppend(a[1..], b, key);
      assert ValuesWithKey(a + b, key) == head + (ValuesWithKey(a[1..], key) + ValuesWithKey(b, key));
    }
  }

  // ---------------------------------------------------------------------
  // Canonical shapes: where the two converters are inverse to each other
  // ---------------------------------------------------------------------

  /** A value an element key can hold so that toArray gives it back: a
      scalar, a non-empty canonical mapping, or a sequence of at least two
      scalars and canonical mappings (an empty mapping would come back as the
      empty scalar, and a one-item sequence as its item). */
  predicate CanonicalValue(v: Value)
    decreases v, 1
  {
    match v
    case Scalar(_) => true
    case Mapping(es) => es != [] && CanonicalEntries(es)
    case List(items) =>
      |items| >= 2 && forall i :: 0 <= i < |items| ==> !items[i].List? && CanonicalValue(items[i])
  }

  /** A canonical mapping: unique keys, attribute keys first (toArray writes
      attributes before children), scalar attribute values and canonical
      element values. */
  predicate CanonicalEntries(es: seq<Entry>)
    decreases es, 0
  {
    DistinctKeys(es)
    && (forall i, j :: 0 <= i < j < |es| && IsAttributeKey(es[j].key) ==> IsAttributeKey(es[i].key))
    && (forall i :: 0 <= i < |es| ==>
          if IsAttributeKey(es[i].key) then es[i].value.Scalar? else CanonicalValue(es[i].value))
  }

  /** A top-level mapping fromArray can turn into a document: canonical and
      holding element keys only. */
  predicate CanonicalDocument(es: seq<Entry>)
  {
    CanonicalEntries(es) && forall i :: 0 <= i < |es| ==> !IsAttributeKey(es[i].key)
  }

  /** Siblings that share a tag are adjacent, so grouping them by tag keeps
      the document order. */
  predicate TagsContiguous(cs: seq<Element>)
  {
    forall i, j, k :: 0 <= i < j < k < |cs| && cs[i].tag == cs[k].tag ==> cs[j].tag == cs[i].tag
  }

  /** A tree toArray reads without loss: no tag looks like an attribute key,
      attribute names are unique (as on a DOM element), only collapsing
      elements carry text, and same-tag siblings are adjacent. */
  predicate CanonicalElement(e: Element)
    decreases e
  {
    !IsAttributeKey(e.tag)
    && UniqueNames(e.attrs)
    && (!Collapses(e) ==> e.text == "")
    && TagsContiguous(e.children)
    && forall i :: 0 <= i < |e.children| ==> CanonicalElement(e.children[i])
  }

  predicate CanonicalNodes(nodes: seq<Element>)
  {
    TagsContiguous(nodes) && forall i :: 0 <= i < |nodes| ==> CanonicalElement(nodes[i])
  }

  // ---------------------------------------------------------------------
  // Unique keys: toArray builds PHP arrays
  // ---------------------------------------------------------------------

  /** Every mapping inside the value has unique keys. */
  predicate KeysUnique(v: Value)
    decreases v
  {
    match v
    case Scalar(_) => true
    case Mapping(es) => DistinctKeys(es) && forall i :: 0 <= i < |es| ==> KeysUnique(es[i].value)
    case List(items) => forall i :: 0 <= i < |items| ==> KeysUnique(items[i])
  }

  /** No tag of the tree starts with '@'. */
  predicate PlainTags(e: Element)
    decreases e
  {
    !IsAttributeKey(e.tag) && forall i :: 0 <= i < |e.children| ==> PlainTags(e.children[i])
  }

  /** Attribute keys are the attribute names behind the '@' prefix. */
  lemma {:induction false} AttributeEntriesKeys(attrs: seq<Attr>)
    ensures forall i :: 0 <= i < |attrs| ==> AttributeEntries(attrs)[i].key == [AttributePrefix] + attrs[i].name
  {
    if attrs != [] {
      AttributeEntriesKeys(attrs[1..]);
      forall i | 1 <= i < |attrs|
        ensures AttributeEntries(attrs)[i].key == [AttributePrefix] + attrs[i].name
      {
        assert AttributeEntries(attrs)[i] == AttributeEntries(attrs[1..])[i - 1];
        assert attrs[1..][i - 1] == attrs[i];
      }
    }
  }

  /** Unique attribute names give unique attribute keys. */
  lemma AttributeKeysDistinct(attrs: seq<Attr>)
    requires UniqueNames(attrs)
    ensures DistinctKeys(AttributeEntries(attrs))
  {
    var r := AttributeEntries(attrs);
    AttributeEntriesKeys(attrs);
    forall i, j | 0 <= i < j < |r| ensures r[i].key != r[j].key {
      assert r[i].key[1..] == attrs[i].name;
      assert r[j].key[1..] == attrs[j].name;
    }
  }

  /** Each child's pair holds the child's value. */
  lemma {:induction false} PairsValues(cs: seq<Element>)
    ensures forall j :: 0 <= j < |cs| ==> Pairs(cs)[j].value == ToValue(cs[j])
  {
    if cs != [] {
      PairsValues(cs[1..]);
      forall j | 1 <= j < |cs| ensures Pairs(cs)[j].value == ToValue(cs[j]) {
        assert Pairs(cs)[j] == Pairs(cs[1..])[j - 1];
        assert cs[1..][j - 1] == cs[j];
      }
    }
  }

  /** From an element with unique attribute names and no '@' tag anywhere,
      toArray's value has no mapping with a repeated key: attribute keys are
      distinct, tag groups are distinct, and no tag is an attribute key. */
  lemma {:induction false} ToValueKeysUnique(e: Element)
    requires WellNamed(e) && PlainTags(e)
    decreases e, 1
    ensures KeysUnique(ToValue(e))
  {
    if !Collapses(e) {
      var a := AttributeEntries(e.attrs);
      var g := Group(Pairs(e.children));
      var es := a + g;
      AttributeKeysDistinct(e.attrs);
      GroupedKeysUnique(e.children);
      forall i, j | 0 <= i < j < |es| ensures es[i].key != es[j].key {
        if j < |a| {
          assert es[i] == a[i] && es[j] == a[j];
        } else if i >= |a| {
          assert es[i] == g[i - |a|] && es[j] == g[j - |a|];
        } else {
          assert es[i] == a[i] && es[j] == g[j - |a|];
        }
      }
      forall i | 0 <= i < |es| ensures KeysUnique(es[i].value) {
        if i < |a| {
          assert es[i] == a[i];
        } else {
          assert es[i] == g[i - |a|];
        }
      }
      assert ToValue(e) == Mapping(es);
    }
  }

  /** The groups toArray makes of such children: distinct keys, none an
      attribute key, and unique keys inside every value. */
  lemma {:induction false} GroupedKeysUnique(cs: seq<Element>)
    requires forall i :: 0 <= i < |cs| ==> WellNamed(cs[i]) && PlainTags(cs[i])
    decreases cs, 1
    ensures DistinctKeys(Group(Pairs(cs)))
    ensures forall i :: 0 <= i < |Group(Pairs(cs))| ==>
              !IsAttributeKey(Group(Pairs(cs))[i].key) && KeysUnique(Group(Pairs(cs))[i].value)
  {
    var ps := Pairs(cs);
    var g := Group(ps);
    GroupKeys(ps);
    forall i | 0 <= i < |g| ensures !IsAttributeKey(g[i].key) && KeysUnique(g[i].value) {
      assert g[i].key in KeySet(ps);
      var k :| 0 <= k < |ps| && ps[k].key == g[i].key;
      assert cs[k].tag == g[i].key;
      TagValuesUnique(cs, g[i].key);
    }
  }

  /** The value toArray groups under one tag has unique keys inside. */
  lemma {:induction false} TagValuesUnique(cs: seq<Element>, key: string)
    requires forall i :: 0 <= i < |cs| ==> WellNamed(cs[i]) && PlainTags(cs[i])
    decreases cs, 0
    ensures KeysUnique(Collect(ValuesWithKey(Pairs(cs), key)))
  {
    var ps := Pairs(cs);
    var vs := ValuesWithKey(ps, key);
    PairsValues(cs);
    forall m | 0 <= m < |vs| ensures KeysUnique(vs[m]) {
      var j := ValueSource(ps, key, m);
      ToValueKeysUnique(cs[j]);
    }
  }

  /** toArray of a document whose elements have unique attribute names and
      plain tags is a PHP array all the way down. */
  lemma {:induction false} ToArrayKeysUnique(nodes: seq<Element>)
    requires forall i :: 0 <= i < |nodes| ==> WellNamed(nodes[i]) && PlainTags(nodes[i])
    ensures KeysUnique(Mapping(ToArray(nodes)))
  {
    GroupedKeysUnique(nodes);
  }

  // ---------------------------------------------------------------------
  // Round trips
  // ---------------------------------------------------------------------

  /** toArray(fromArray(x)) == x for every canonical mapping x. */
  lemma {:induction false} ToArrayFromArray(es: seq<Entry>)
    requires CanonicalDocument(es)
    ensures ToArray(FromArray(es)) == es
  {
    GroupChildrenOf(es);
  }

  /** fromArray(toArray(d)) == d for every canonical document d. */
  lemma {:induction false} FromArrayToArray(nodes: seq<Element>)
    requires CanonicalNodes(nodes)
    ensures FromArray(ToArray(nodes)) == nodes
  {
    ChildrenRoundTrip(nodes);
  }

  /** toArray always produces a mapping with unique keys: one per top-level tag. */
  lemma {:induction false} ToArrayKeys(nodes: seq<Element>)
    ensures DistinctKeys(ToArray(nodes))
    ensures forall i :: 0 <= i < |ToArray(nodes)| ==> exists j :: 0 <= j < |nodes| && nodes[j].tag == ToArray(nodes)[i].key
    ensures forall j :: 0 <= j < |nodes| ==> nodes[j].tag in KeySet(ToArray(nodes))
  {
    GroupKeys(Pairs(nodes));
    var r := ToArray(nodes);
    forall i | 0 <= i < |r| ensures exists j :: 0 <= j < |nodes| && nodes[j].tag == r[i].key {
      assert r[i].key in KeySet(Pairs(nodes));
      var j :| 0 <= j < |Pairs(nodes)| && Pairs(nodes)[j].key == r[i].key;
      assert nodes[j].tag == r[i].key;
    }
    forall j | 0 <= j < |nodes| ensures nodes[j].tag in KeySet(r) {
      assert Pairs(nodes)[j].key == nodes[j].tag;
    }
  }

  /** An empty mapping gives a document without a root, and back. */
  lemma FromArrayEmpty()
    ensures FromArray([]) == []
    ensures ToArray([]) == []
  {
  }

  /** A mapping holding one '@' key builds one element with that attribute,
      no children and no text; toArray reads it back. */
  lemma {:induction false} SingleElementWithAttribute(tag: string, name: string, value: string)
    requires !IsAttributeKey(tag)
    ensures FromArray([Entry(tag, Mapping([Entry([AttributePrefix] + name, Scalar(value))]))])
              == [Element(tag, [Attr(name, value)], [], "")]
    ensures ToArray([Element(tag, [Attr(name, value)], [], "")])
              == [Entry(tag, Mapping([Entry([AttributePrefix] + name, Scalar(value))]))]
  {
    var key := [AttributePrefix] + name;
    var es := [Entry(key, Scalar(value))];
    assert key[1..] == name;
    assert AttributesOf(es) == [Attr(name, value)];
    assert ChildrenOf(es) == [];
    var e := Element(tag, [Attr(name, value)], [], "");
    assert ElementsFor(tag, Mapping(es)) == [e];
    var top := [Entry(tag, Mapping(es))];
    assert top[1..] == [];
    assert FromArray(top) == ElementsFor(tag, Mapping(es)) + ChildrenOf(top[1..]);
    assert ToValue(e) == Mapping(es);
    var pairs := Pairs([e]);
    assert pairs == [Entry(tag, Mapping(es))] && pairs[1..] == [];
    assert ValuesWithKey(pairs, tag) == [Mapping(es)];
    assert Group(pairs) == [Entry(tag, Mapping(es))] + Group([]);
  }

  /** fromArray(['foo' => ['@id' => 'bar']]) is the single element foo with id="bar". */
  lemma FromArraySingleElementWithAttribute()
    ensures FromArray([Entry("foo", Mapping([Entry("@id", Scalar("bar"))]))])
              == [Element("foo", [Attr("id", "bar")], [], "")]
  {
    assert "@id" == [AttributePrefix] + "id";
    SingleElementWithAttribute("foo", "id", "bar");
  }

  // --- value -> tree -> value ---

  /** The entries `key => vs[i]`, in order. */
  function Tagged(key: string, vs: seq<Value>): (r: seq<Entry>)
    ensures |r| == |vs|
    ensures forall i :: 0 <= i < |r| ==> r[i] == Entry(key, vs[i])
  {
    if vs == [] then [] else [Entry(key, vs[0])] + Tagged(key, vs[1..])
  }

  /** The values an entry's elements read back as: the items of a sequence,
      the value itself otherwise. */
  function Values(v: Value): (vs: seq<Value>)
    ensures v.List? ==> vs == v.items
    ensures !v.List? ==> vs == [v]
  {
    if v.List? then v.items else [v]
  }

  /** Reading back the elements of a canonical value gives its values. */
  lemma {:induction false} ValueRoundTrip(key: string, v: Value)
    requires CanonicalValue(v)
    decreases v, 2
    ensures Pairs(ElementsFor(key, v)) == Tagged(key, Values(v))
  {
    match v
    case Scalar(_) =>
    case Mapping(es) =>
      var e := Element(key, AttributesOf(es), ChildrenOf(es), "");
      NotCollapsed(es);
      EntriesRoundTrip(es);
      assert ToValue(e) == v;
    case List(items) =>
      ListRoundTrip(key, items);
  }

  lemma {:induction false} ListRoundTrip(key: string, items: seq<Value>)
    requires forall i :: 0 <= i < |items| ==> !items[i].List? && CanonicalValue(items[i])
    decreases items, 0
    ensures Pairs(ListElements(key, items)) == Tagged(key, items)
  {
    if items != [] {
      ValueRoundTrip(key, items[0]);
      ListRoundTrip(key, items[1..]);
      PairsAppend(ElementsFor(key, items[0]), ListElements(key, items[1..]));
    }
  }

  /** A non-empty canonical mapping builds an element that does not collapse. */
  lemma {:induction false} NotCollapsed(es: seq<Entry>)
    requires es != [] && CanonicalEntries(es)
    ensures AttributesOf(es) != [] || ChildrenOf(es) != []
  {
    if !IsAttributeKey(es[0].key) {
      if es[0].value.List? {
        var items := es[0].value.items;
        assert |ElementsFor(es[0].key, items[0])| == 1;
        assert ListElements(es[0].key, items) != [];
      }
      assert ElementsFor(es[0].key, es[0].value) != [];
    }
  }

  /** The attributes and grouped children of a canonical mapping's element
      read back as the mapping. */
  lemma {:induction false} EntriesRoundTrip(es: seq<Entry>)
    requires CanonicalEntries(es)
    decreases es, 2
    ensures AttributeEntries(AttributesOf(es)) + Group(Pairs(ChildrenOf(es))) == es
  {
    if es != [] {
      if IsAttributeKey(es[0].key) {
        CanonicalTail(es);
        EntriesRoundTrip(es[1..]);
        LeadingAttributeEntry(es);
      } else {
        ElementEntriesRoundTrip(es);
      }
    }
  }

  /** A canonical mapping led by an element key holds element keys only and
      reads back as its grouped children. */
  lemma {:induction false} ElementEntriesRoundTrip(es: seq<Entry>)
    requires es != [] && CanonicalEntries(es) && !IsAttributeKey(es[0].key)
    decreases es, 1
    ensures AttributeEntries(AttributesOf(es)) + Group(Pairs(ChildrenOf(es))) == es
  {
    LeadingElementKey(es);
    NoAttributes(es);
    GroupChildrenOf(es);
  }

  /** Attribute keys come first, so a mapping led by an element key has no attribute keys. */
  lemma {:induction false} LeadingElementKey(es: seq<Entry>)
    requires es != [] && CanonicalEntries(es) && !IsAttributeKey(es[0].key)
    ensures forall i :: 0 <= i < |es| ==> !IsAttributeKey(es[i].key)
  {
  }

  /** A leading scalar attribute entry reads back in front of the rest. */
  lemma {:induction false} LeadingAttributeEntry(es: seq<Entry>)
    requires es != [] && IsAttributeKey(es[0].key) && es[0].value.Scalar?
    requires AttributeEntries(AttributesOf(es[1..])) + Group(Pairs(ChildrenOf(es[1..]))) == es[1..]
    ensures AttributeEntries(AttributesOf(es)) + Group(Pairs(ChildrenOf(es))) == es
  {
    AttributeHead(es);
    ConsAppend(es, AttributeEntries(AttributesOf(es)), Group(Pairs(ChildrenOf(es))),
               AttributeEntries(AttributesOf(es[1..])), Group(Pairs(ChildrenOf(es[1..]))));
  }

  /** A leading scalar attribute entry becomes the first attribute and no child. */
  lemma {:induction false} AttributeHead(es: seq<Entry>)
    requires es != [] && IsAttributeKey(es[0].key) && es[0].value.Scalar?
    ensures AttributeEntries(AttributesOf(es)) == [es[0]] + AttributeEntries(AttributesOf(es[1..]))
    ensures ChildrenOf(es) == ChildrenOf(es[1..])
  {
    var a := Attr(es[0].key[1..], es[0].value.text);
    assert AttributesOf(es) == [a] + AttributesOf(es[1..]);
    assert [AttributePrefix] + a.name == es[0].key;
  }

  /** Putting back the first entry of a mapping that splits into a and b. */
  lemma ConsAppend(es: seq<Entry>, a: seq<Entry>, b: seq<Entry>, a1: seq<Entry>, b1: seq<Entry>)
    requires es != [] && a == [es[0]] + a1 && b == b1 && a1 + b1 == es[1..]
    ensures a + b == es
  {
    assert a + b == [es[0]] + (a1 + b1);
    assert es == [es[0]] + es[1..];
  }

  /** Dropping the first entry of a canonical mapping keeps it canonical. */
  lemma {:induction false} CanonicalTail(es: seq<Entry>)
    requires es != [] && CanonicalEntries(es)
    ensures CanonicalEntries(es[1..])
  {
    var tail := es[1..];
    forall i, j | 0 <= i < j < |tail| ensures tail[i].key != tail[j].key {
      assert tail[i] == es[i + 1] && tail[j] == es[j + 1];
    }
    forall i, j | 0 <= i < j < |tail| && IsAttributeKey(tail[j].key)
      ensures IsAttributeKey(tail[i].key)
    {
      assert tail[i] == es[i + 1] && tail[j] == es[j + 1];
    }
    forall i | 0 <= i < |tail|
      ensures if IsAttributeKey(tail[i].key) then tail[i].value.Scalar? else CanonicalValue(tail[i].value)
    {
      assert tail[i] == es[i + 1];
    }
  }

  lemma {:induction false} NoAttributes(es: seq<Entry>)
    requires forall i :: 0 <= i < |es| ==> !IsAttributeKey(es[i].key)
    ensures AttributesOf(es) == []
  {
    if es != [] {
      NoAttributes(es[1..]);
    }
  }

  /** The grouped children of a mapping of element keys read back as the mapping. */
  lemma {:induction false} GroupChildrenOf(es: seq<Entry>)
    requires CanonicalEntries(es)
    requires forall i :: 0 <= i < |es| ==> !IsAttributeKey(es[i].key)
    decreases es, 0
    ensures Group(Pairs(ChildrenOf(es))) == es
  {
    if es != [] {
      var key, v, rest := es[0].key, es[0].value, es[1..];
      CanonicalTail(es);
      GroupChildrenOf(rest);
      FirstKeyFresh(es);
      ChildrenTags(rest, key);
      ValueRoundTrip(key, v);
      GroupChildrenStep(es);
    }
  }

  /** The first element key's block groups into that key's entry, in front of the rest. */
  lemma {:induction false} GroupChildrenStep(es: seq<Entry>)
    requires es != [] && !IsAttributeKey(es[0].key) && CanonicalValue(es[0].value)
    requires Pairs(ElementsFor(es[0].key, es[0].value)) == Tagged(es[0].key, Values(es[0].value))
    requires es[0].key !in KeySet(Pairs(ChildrenOf(es[1..])))
    requires Group(Pairs(ChildrenOf(es[1..]))) == es[1..]
    ensures Group(Pairs(ChildrenOf(es))) == es
  {
    var key, v := es[0].key, es[0].value;
    ChildrenCons(es);
    CollectValues(v);
    GroupBlock(key, Values(v), Pairs(ChildrenOf(es[1..])));
    assert es == [es[0]] + es[1..];
  }

  /** The first key of a mapping with unique keys does not occur again. */
  lemma {:induction false} FirstKeyFresh(es: seq<Entry>)
    requires es != [] && DistinctKeys(es)
    ensures es[0].key !in KeySet(es[1..])
  {
    forall i | 0 <= i < |es[1..]| ensures es[1..][i].key != es[0].key {
      assert es[1..][i] == es[i + 1];
    }
  }

  /** The children of a mapping led by an element key: that key's elements first. */
  lemma {:induction false} ChildrenCons(es: seq<Entry>)
    requires es != [] && !IsAttributeKey(es[0].key)
    ensures Pairs(ChildrenOf(es)) == Pairs(ElementsFor(es[0].key, es[0].value)) + Pairs(ChildrenOf(es[1..]))
  {
    PairsAppend(ElementsFor(es[0].key, es[0].value), ChildrenOf(es[1..]));
  }

  /** A canonical value is rebuilt by collecting its values. */
  lemma {:induction false} CollectValues(v: Value)
    requires CanonicalValue(v)
    ensures Values(v) != [] && Collect(Values(v)) == v
  {
  }

  /** Grouping a block of values under one key, followed by pairs without that key. */
  lemma {:induction false} GroupBlock(key: string, vs: seq<Value>, b: seq<Entry>)
    requires vs != []
    requires key !in KeySet(b)
    ensures Group(Tagged(key, vs) + b) == [Entry(key, Collect(vs))] + Group(b)
  {
    var t := Tagged(key, vs);
    var p := t + b;
    assert p[0] == t[0];
    assert p[1..] == t[1..] + b;
    assert t[1..] == Tagged(key, vs[1..]);
    ValuesAppend(t, b, key);
    TaggedValues(key, vs);
    ValuesPresent(b, key);
    WithoutKeyAppend(t[1..], b, key);
    TaggedWithout(key, vs[1..]);
    WithoutAbsent(b, key);
    assert ValuesWithKey(p, key) == vs;
    assert WithoutKey(p[1..], key) == b;
  }

  lemma {:induction false} TaggedValues(key: string, vs: seq<Value>)
    ensures ValuesWithKey(Tagged(key, vs), key) == vs
  {
    if vs != [] {
      TaggedValues(key, vs[1..]);
    }
  }

  lemma {:induction false} TaggedWithout(key: string, vs: seq<Value>)
    ensures WithoutKey(Tagged(key, vs), key) == []
  {
    if vs != [] {
      TaggedWithout(key, vs[1..]);
    }
  }

  /** No element that a mapping creates is called by a key the mapping lacks. */
  lemma {:induction false} ChildrenTags(es: seq<Entry>, key: string)
    requires key !in KeySet(es)
    ensures key !in KeySet(Pairs(ChildrenOf(es)))
  {
    if es != [] {
      KeySetCons(es);
      ChildrenTags(es[1..], key);
      var head := if IsAttributeKey(es[0].key) then [] else ElementsFor(es[0].key, es[0].value);
      PairsAppend(head, ChildrenOf(es[1..]));
      KeySetAppend(Pairs(head), Pairs(ChildrenOf(es[1..])));
    }
  }

  // --- tree -> value -> tree ---

  /** A canonical element reads back, through its value, as itself. */
  lemma {:induction false} ElementRoundTrip(e: Element)
    requires CanonicalElement(e)
    decreases e, 2
    ensures RoundTrips(e)
  {
    if !Collapses(e) {
      var cs := e.children;
      ChildrenRoundTrip(cs);
      assert forall i :: 0 <= i < |cs| ==> !IsAttributeKey(cs[i].tag);
      GroupedChildrenHaveNoAttributes(cs);
      MappingRoundTrip(e);
    }
  }

  /** A non-collapsing element reads back as itself once its children do. */
  lemma {:induction false} MappingRoundTrip(e: Element)
    requires !Collapses(e) && e.text == ""
    requires ChildrenOf(Group(Pairs(e.children))) == e.children
    requires AttributesOf(Group(Pairs(e.children))) == []
    ensures ElementsFor(e.tag, ToValue(e)) == [e]
  {
    var attrs, g := AttributeEntries(e.attrs), Group(Pairs(e.children));
    AttributesOfAppend(attrs, g);
    ChildrenOfAppend(attrs, g);
    AttributeEntriesRoundTrip(e.attrs);
    assert ToValue(e) == Mapping(attrs + g);
    assert AttributesOf(attrs + g) == e.attrs;
    assert ChildrenOf(attrs + g) == e.children;
    assert ElementsFor(e.tag, Mapping(attrs + g)) == [Element(e.tag, e.attrs, e.children, "")];
  }

  /** Grouping children whose tags are not attribute keys yields no attribute keys. */
  lemma {:induction false} GroupedChildrenHaveNoAttributes(cs: seq<Element>)
    requires forall i :: 0 <= i < |cs| ==> !IsAttributeKey(cs[i].tag)
    ensures AttributesOf(Group(Pairs(cs))) == []
  {
    var g := Group(Pairs(cs));
    GroupKeys(Pairs(cs));
    forall i | 0 <= i < |g| ensures !IsAttributeKey(g[i].key) {
      assert g[i].key in KeySet(g);
      var j :| 0 <= j < |Pairs(cs)| && Pairs(cs)[j].key == g[i].key;
    }
    NoAttributes(g);
  }

  lemma {:induction false} AttributeEntriesRoundTrip(attrs: seq<Attr>)
    ensures AttributesOf(AttributeEntries(attrs)) == attrs
    ensures ChildrenOf(AttributeEntries(attrs)) == []
  {
    if attrs != [] {
      var es := AttributeEntries(attrs);
      assert es[1..] == AttributeEntries(attrs[1..]);
      assert es[0].key[1..] == attrs[0].name;
      assert IsAttributeEntry(es[0]) && AttrOf(es[0]) == attrs[0];
      AttributeEntriesRoundTrip(attrs[1..]);
      assert AttributesOf(es) == [attrs[0]] + AttributesOf(es[1..]);
      assert ChildrenOf(es) == [] + ChildrenOf(es[1..]);
      assert [attrs[0]] + attrs[1..] == attrs;
    }
  }

  /** The grouped values of contiguous canonical siblings read back as those siblings. */
  lemma {:induction false} ChildrenRoundTrip(cs: seq<Element>)
    requires TagsContiguous(cs)
    requires forall i :: 0 <= i < |cs| ==> CanonicalElement(cs[i])
    decreases cs, 1
    ensures ChildrenOf(Group(Pairs(cs))) == cs
  {
    if cs != [] {
      var n := RunLength(cs, cs[0].tag);
      ContiguousSuffix(cs, n);
      SuffixHolds(cs, n, CanonicalElement);
      ChildrenRoundTrip(cs[n..]);
      if n == |cs| {
        assert cs[..n] == cs;
        RunElements(cs, cs[0].tag);
      } else {
        RunElements(cs[..n], cs[0].tag);
      }
      RunStep(cs, n);
      TakeDrop(cs, n);
    }
  }

  lemma {:induction false} TakeDrop(cs: seq<Element>, n: nat)
    requires n <= |cs|
    ensures cs[..n] + cs[n..] == cs
  {
  }

  /** An element that reads back, through its value, as itself. */
  predicate RoundTrips(e: Element)
  {
    ElementsFor(e.tag, ToValue(e)) == [e]
  }

  /** A property of every element holds for every element of a suffix. */
  lemma {:induction false} SuffixHolds(cs: seq<Element>, n: nat, p: Element -> bool)
    requires n <= |cs|
    requires forall i :: 0 <= i < |cs| ==> p(cs[i])
    ensures forall i :: 0 <= i < |cs[n..]| ==> p(cs[n..][i])
  {
    forall i | 0 <= i < |cs[n..]| ensures p(cs[n..][i]) {
      assert cs[n..][i] == cs[n + i];
    }
  }

  lemma {:induction false} ContiguousSuffix(cs: seq<Element>, n: nat)
    requires n <= |cs| && TagsContiguous(cs)
    ensures TagsContiguous(cs[n..])
  {
    var rest := cs[n..];
    forall i, j, k | 0 <= i < j < k < |rest| && rest[i].tag == rest[k].tag
      ensures rest[j].tag == rest[i].tag
    {
      assert rest[i] == cs[n + i] && rest[j] == cs[n + j] && rest[k] == cs[n + k];
    }
  }

  /** The leading run of one tag reads back in front of the rest of the siblings. */
  lemma {:induction false} RunStep(cs: seq<Element>, n: nat)
    requires cs != [] && TagsContiguous(cs) && n == RunLength(cs, cs[0].tag)
    requires !IsAttributeKey(cs[0].tag)
    requires ListElements(cs[0].tag, ValuesOf(cs[..n])) == cs[..n]
    ensures ChildrenOf(Group(Pairs(cs))) == cs[..n] + ChildrenOf(Group(Pairs(cs[n..])))
  {
    var tag, run := cs[0].tag, cs[..n];
    var first := Entry(tag, Collect(ValuesOf(run)));
    RunGroup(cs, n);
    ChildrenOfAppend([first], Group(Pairs(cs[n..])));
    assert ChildrenOf([first]) == ElementsFor(tag, Collect(ValuesOf(run)));
    CollectElements(tag, ValuesOf(run));
  }

  /** Grouping contiguous siblings puts the leading run's values in one entry. */
  lemma {:induction false} RunGroup(cs: seq<Element>, n: nat)
    requires cs != [] && TagsContiguous(cs) && n == RunLength(cs, cs[0].tag)
    ensures Group(Pairs(cs)) == [Entry(cs[0].tag, Collect(ValuesOf(cs[..n])))] + Group(Pairs(cs[n..]))
  {
    var tag, run, rest := cs[0].tag, cs[..n], cs[n..];
    RestLacksTag(cs, n);
    TakeDrop(cs, n);
    PairsAppend(run, rest);
    PairsOfRun(run, tag);
    GroupBlock(tag, ValuesOf(run), Pairs(rest));
  }

  /** In contiguous siblings, the tag of the leading run does not occur after it. */
  lemma {:induction false} RestLacksTag(cs: seq<Element>, n: nat)
    requires cs != [] && TagsContiguous(cs) && n == RunLength(cs, cs[0].tag)
    ensures cs[0].tag !in KeySet(Pairs(cs[n..]))
  {
    var rest := cs[n..];
    forall k | k in KeySet(Pairs(rest)) ensures k != cs[0].tag {
      var j :| 0 <= j < |Pairs(rest)| && Pairs(rest)[j].key == k;
      assert rest[j] == cs[n + j];
    }
  }

  /** The length of the leading run of elements called `tag`. */
  function RunLength(cs: seq<Element>, tag: string): (n: nat)
    ensures n <= |cs|
    ensures forall i :: 0 <= i < n ==> cs[i].tag == tag
    ensures n < |cs| ==> cs[n].tag != tag
  {
    if cs == [] || cs[0].tag != tag then 0 else 1 + RunLength(cs[1..], tag)
  }

  /** A run of one tag pairs up as that tag with each element's value. */
  lemma {:induction false} PairsOfRun(run: seq<Element>, tag: string)
    requires forall i :: 0 <= i < |run| ==> run[i].tag == tag
    ensures Pairs(run) == Tagged(tag, ValuesOf(run))
  {
    if run != [] {
      assert ValuesOf(run)[1..] == ValuesOf(run[1..]);
      PairsOfRun(run[1..], tag);
    }
  }

  /** Each element's value, in order. */
  function ValuesOf(cs: seq<Element>): (vs: seq<Value>)
    ensures |vs| == |cs|
  {
    seq(|cs|, i requires 0 <= i < |cs| => ToValue(cs[i]))
  }

  lemma ValuesOfCons(cs: seq<Element>)
    requires cs != []
    ensures ValuesOf(cs)[0] == ToValue(cs[0]) && ValuesOf(cs)[1..] == ValuesOf(cs[1..])
  {
    assert ValuesOf(cs)[1..] == ValuesOf(cs[1..]);
  }

  lemma CanonicalRunTail(run: seq<Element>, tag: string)
    requires run != []
    requires forall i :: 0 <= i < |run| ==> run[i].tag == tag && CanonicalElement(run[i])
    ensures forall i :: 0 <= i < |run[1..]| ==> run[1..][i].tag == tag && CanonicalElement(run[1..][i])
  {
    forall i | 0 <= i < |run| - 1 ensures run[1..][i].tag == tag && CanonicalElement(run[1..][i]) {
      assert run[1..][i] == run[i + 1];
    }
  }

  lemma RunElementsStep(run: seq<Element>, tag: string)
    requires run != [] && ElementsFor(tag, ToValue(run[0])) == [run[0]]
    requires ListElements(tag, ValuesOf(run[1..])) == run[1..]
    ensures ListElements(tag, ValuesOf(run)) == run
  {
    ValuesOfCons(run);
    ListElementsCons(tag, ValuesOf(run));
    assert run == [run[0]] + run[1..];
  }

  lemma ListElementsCons(tag: string, vs: seq<Value>)
    requires vs != []
    ensures ListElements(tag, vs) == ElementsFor(tag, vs[0]) + ListElements(tag, vs[1..])
  {
  }

  /** The elements of the values of a canonical run are the run. */
  lemma {:induction false} RunElements(run: seq<Element>, tag: string)
    requires forall i :: 0 <= i < |run| ==> run[i].tag == tag && CanonicalElement(run[i])
    decreases run, 0
    ensures ListElements(tag, ValuesOf(run)) == run
  {
    if run != [] {
      ElementRoundTrip(run[0]);
      CanonicalRunTail(run, tag);
      RunElements(run[1..], tag);
      RunElementsStep(run, tag);
    }
  }

  /** The elements of a collected block are the elements of its values. */
  lemma {:induction false} CollectElements(tag: string, vs: seq<Value>)
    requires forall i :: 0 <= i < |vs| ==> !vs[i].List?
    ensures ElementsFor(tag, Collect(vs)) == ListElements(tag, vs)
  {
    if |vs| == 1 {
      assert vs[1..] == [];
    }
  }

  // --- distribution over concatenation ---

  lemma {:induction false} PairsAppend(a: seq<Element>, b: seq<Element>)
    ensures Pairs(a + b) == Pairs(a) + Pairs(b)
  {
    if a == [] {
      assert a + b == b;
    } else {
      assert (a + b)[1..] == a[1..] + b;
      PairsAppend(a[1..], b);
    }
  }

  lemma {:induction false} AttributesOfAppend(a: seq<Entry>, b: seq<Entry>)
    ensures AttributesOf(a + b) == AttributesOf(a) + AttributesOf(b)
  {
    if a == [] {
      assert a + b == b;
    } else {
      var head := if IsAttributeEntry(a[0]) then [AttrOf(a[0])] else [];
      assert (a + b)[0] == a[0] && (a + b)[1..] == a[1..] + b;
      AttributesOfAppend(a[1..], b);
      assert AttributesOf(a + b) == head + AttributesOf(a[1..] + b);
      assert AttributesOf(a) == head + AttributesOf(a[1..]);
    }
  }

  /** AttributesOf holds exactly the attributes of the attribute entries:
      each of its attributes comes from one, and each one's attribute is in it. */
  lemma {:induction false} AttributesOfMembers(es: seq<Entry>)
    ensures forall i :: 0 <= i < |AttributesOf(es)| ==>
              exists j :: 0 <= j < |es| && IsAttributeEntry(es[j]) && AttributesOf(es)[i] == AttrOf(es[j])
    ensures forall j :: 0 <= j < |es| && IsAttributeEntry(es[j]) ==> AttrOf(es[j]) in AttributesOf(es)
  {
    if es != [] {
      var head := if IsAttributeEntry(es[0]) then [AttrOf(es[0])] else [];
      var tail := AttributesOf(es[1..]);
      AttributesOfMembers(es[1..]);
      assert AttributesOf(es) == head + tail;
      forall i | 0 <= i < |AttributesOf(es)|
        ensures exists j :: 0 <= j < |es| && IsAttributeEntry(es[j]) && AttributesOf(es)[i] == AttrOf(es[j])
      {
        if i >= |head| {
          var k := i - |head|;
          assert 0 <= k < |tail| && AttributesOf(es)[i] == tail[k];
          var j :| 0 <= j < |es[1..]| && IsAttributeEntry(es[1..][j]) && tail[k] == AttrOf(es[1..][j]);
          assert es[1..][j] == es[j + 1];
        } else {
          assert IsAttributeEntry(es[0]) && AttributesOf(es)[i] == AttrOf(es[0]);
        }
      }
      forall j | 1 <= j < |es| && IsAttributeEntry(es[j]) ensures AttrOf(es[j]) in AttributesOf(es) {
        assert es[1..][j - 1] == es[j];
      }
    } else {
      assert AttributesOf(es) == [];
    }
  }

  /** ValuesWithKey holds exactly the values paired with the key: each of its
      values is paired with it, and each value paired with it is there. */
  lemma {:induction false} ValuesMembers(pairs: seq<Entry>, key: string)
    ensures forall i :: 0 <= i < |ValuesWithKey(pairs, key)| ==> Entry(key, ValuesWithKey(pairs, key)[i]) in pairs
    ensures forall j :: 0 <= j < |pairs| && pairs[j].key == key ==> pairs[j].value in ValuesWithKey(pairs, key)
  {
    forall i | 0 <= i < |ValuesWithKey(pairs, key)| ensures Entry(key, ValuesWithKey(pairs, key)[i]) in pairs {
      var j := ValueSource(pairs, key, i);
      assert pairs[j] == Entry(key, ValuesWithKey(pairs, key)[i]);
    }
    forall j | 0 <= j < |pairs| && pairs[j].key == key ensures pairs[j].value in ValuesWithKey(pairs, key) {
      ValueCollected(pairs, key, j);
    }
  }

  /** The pair the i-th value collected for `key` comes from. */
  lemma {:induction false} ValueSource(pairs: seq<Entry>, key: string, i: nat) returns (j: nat)
    requires i < |ValuesWithKey(pairs, key)|
    ensures j < |pairs| && pairs[j].key == key && ValuesWithKey(pairs, key)[i] == pairs[j].value
  {
    var head := if pairs[0].key == key then [pairs[0].value] else [];
    var tail := ValuesWithKey(pairs[1..], key);
    assert ValuesWithKey(pairs, key) == head + tail;
    if i < |head| {
      j := 0;
    } else {
      var k := ValueSource(pairs[1..], key, i - |head|);
      assert pairs[1..][k] == pairs[k + 1];
      j := k + 1;
    }
  }

  /** Every value paired with `key` is collected for it. */
  lemma {:induction false} ValueCollected(pairs: seq<Entry>, key: string, j: nat)
    requires j < |pairs| && pairs[j].key == key
    ensures pairs[j].value in ValuesWithKey(pairs, key)
  {
    var head := if pairs[0].key == key then [pairs[0].value] else [];
    assert ValuesWithKey(pairs, key) == head + ValuesWithKey(pairs[1..], key);
    if j > 0 {
      assert pairs[1..][j - 1] == pairs[j];
      ValueCollected(pairs[1..], key, j - 1);
    }
  }

  lemma {:induction false} ChildrenOfAppend(a: seq<Entry>, b: seq<Entry>)
    ensures ChildrenOf(a + b) == ChildrenOf(a) + ChildrenOf(b)
  {
    if a == [] {
      assert a + b == b;
    } else {
      assert (a + b)[1..] == a[1..] + b;
      ChildrenOfAppend(a[1..], b);
    }
  }

  lemma {:induction false} WithoutKeyAppend(a: seq<Entry>, b: seq<Entry>, key: string)
    ensures WithoutKey(a + b, key) == WithoutKey(a, key) + WithoutKey(b, key)
  {
    if a == [] {
      assert a + b == b;
    } else {
      assert (a + b)[1..] == a[1..] + b;
      WithoutKeyAppend(a[1..], b, key);
    }
  }

  lemma {:induction false} WithoutAbsent(pairs: seq<Entry>, key: string)
    requires key !in KeySet(pairs)
    ensures WithoutKey(pairs, key) == pairs
  {
    if pairs != [] {
      KeySetCons(pairs);
      WithoutAbsent(pairs[1..], key);
    }
  }
}
