/** addXPath: walk a document from its root along parsed path steps, resolving
    each step to an existing child or creating it, then write the value into the
    last element's text or into the named attribute.

    The specification is the function ApplyPath on element values. The document
    itself is the mutable class Document, and its AddXPath method walks the steps
    in a loop, keeping the position of the current context element as a path of
    child positions from the document node. */
module PathUpsert {
  import opened DomTree
  import opened PathExpression

  // ---------------------------------------------------------------------------
  // Matching and counting children

  /** Does element `e` carry the step's name and satisfy its equality predicate? */
  predicate Matches(e: Element, name: string, pred: Predicate)
  {
    && e.tag == name
    && match pred
       case AttributeEquals(a, v) => GetAttr(e.attrs, a) == Some(v)
       case ChildEquals(c, v) =>
         exists i :: 0 <= i < |e.children| && e.children[i].tag == c && e.children[i].text == v
       case _ => true
  }

  /** Position of the first child matching the step, or |cs| when none does. */
  function FirstMatch(cs: seq<Element>, name: string, pred: Predicate): (j: nat)
    ensures j <= |cs|
    ensures forall i :: 0 <= i < j ==> !Matches(cs[i], name, pred)
    ensures j < |cs| ==> Matches(cs[j], name, pred)
  {
    if cs == [] then 0
    else if Matches(cs[0], name, pred) then 0
    else 1 + FirstMatch(cs[1..], name, pred)
  }

  /** Number of children named `name`. */
  function Count(cs: seq<Element>, name: string): nat
  {
    if cs == [] then 0
    else Count(cs[..|cs| - 1], name) + (if cs[|cs| - 1].tag == name then 1 else 0)
  }

  /** Position of the n-th (1-based) child named `name`. */
  function NthIndex(cs: seq<Element>, name: string, n: nat): (j: nat)
    requires 1 <= n <= Count(cs, name)
    ensures j < |cs| && cs[j].tag == name && Count(cs[..j], name) == n - 1
  {
    var last := |cs| - 1;
    if Count(cs[..last], name) >= n then
      var j := NthIndex(cs[..last], name, n);
      assert cs[..last][..j] == cs[..j];
      j
    else
      last
  }

  /** `n` fresh empty siblings named `name`. */
  function Pad(name: string, n: nat): (r: seq<Element>)
  {
    seq(n, _ => EmptyElement(name))
  }

  // ---------------------------------------------------------------------------
  // resolveOrCreateChild

  /** The child a step designates among `cs`, if it exists: the n-th child of that
      name for an index, otherwise the first child that matches. */
  function Find(cs: seq<Element>, name: string, pred: Predicate): (r: Option<nat>)
    requires WellFormedPredicate(pred)
    ensures r.Some? ==> r.value < |cs| && Matches(cs[r.value], name, pred)
    ensures r.None? && pred.Position? ==> Count(cs, name) < pred.index
    ensures r.None? && !pred.Position? ==> forall i :: 0 <= i < |cs| ==> !Matches(cs[i], name, pred)
  {
    match pred
    case Position(n) =>
      if Count(cs, name) >= n then Some(NthIndex(cs, name, n)) else None
    case _ =>
      var j := FirstMatch(cs, name, pred);
      if j < |cs| then Some(j) else None
  }

  /** What is appended when the step designates no existing child: empty siblings
      up to the requested position, or one new element seeded so that it matches
      the predicate. */
  function Created(cs: seq<Element>, name: string, pred: Predicate): seq<Element>
  {
    match pred
    case NoPredicate => [EmptyElement(name)]
    case Position(n) => if Count(cs, name) < n then Pad(name, n - Count(cs, name)) else []
    case AttributeEquals(a, v) => [Element(name, [Attr(a, v)], [], "")]
    case ChildEquals(c, v) => [Element(name, [], [Element(c, [], [], v)], "")]
  }

  /** resolveOrCreateChild on the child list `cs`: the new child list and the
      position of the resolved child in it. */
  function Resolve(cs: seq<Element>, name: string, pred: Predicate): (r: (seq<Element>, nat))
    requires WellFormedPredicate(pred)
    ensures |cs| <= |r.0| && r.0[..|cs|] == cs
    ensures r.1 < |r.0| && Matches(r.0[r.1], name, pred)
    ensures forall i :: |cs| <= i < |r.0| ==> r.0[i].tag == name
  {
    match Find(cs, name, pred)
    case Some(k) => (cs, k)
    case None =>
      var added := Created(cs, name, pred);
      assert |added| > 0;
      assert (cs + added)[|cs| + |added| - 1] == added[|added| - 1];
      assert pred.ChildEquals? ==> added[0].children[0].tag == pred.child;
      (cs + added, |cs| + |added| - 1)
  }

  /** resolveOrCreateChild as the engine runs it: an index that is not reached yet
      is padded by appending one empty sibling at a time. */
  method ResolveChild(cs: seq<Element>, name: string, pred: Predicate) returns (children: seq<Element>, k: nat)
    requires WellFormedPredicate(pred)
    ensures (children, k) == Resolve(cs, name, pred)
  {
    var found := Find(cs, name, pred);
    if found.Some? {
      return cs, found.value;
    }
    children := cs;
    match pred {
      case Position(n) =>
        var count := Count(cs, name);
        while count < n
          invariant Count(cs, name) <= count <= n
          invariant children == cs + Pad(name, count - Count(cs, name))
        {
          children := children + [EmptyElement(name)];
          count := count + 1;
        }
        k := |children| - 1;
      case _ =>
        children := children + Created(cs, name, pred);
        k := |cs|;
    }
  }

  // ---------------------------------------------------------------------------
  // The path walk, as a function on element values

  /** Steps the engine can walk: at least one, each well formed, only the last
      one naming an attribute. */
  predicate Walkable(steps: seq<Step>)
  {
    && |steps| > 0
    && AttributeLast(steps)
    && forall i :: 0 <= i < |steps| ==> WellFormedStep(steps[i])
  }

  lemma WalkableSuffix(steps: seq<Step>, i: nat)
    requires Walkable(steps) && i < |steps|
    ensures Walkable(steps[i..])
  {
    var tail := steps[i..];
    forall j | 0 <= j < |tail| ensures tail[j] == steps[i + j] && WellFormedStep(tail[j]) {
    }
    forall j | 0 <= j < |tail| - 1 ensures tail[j].ElementStep? {
      assert tail[j] == steps[i + j];
    }
  }

  /** The element `e` after writing `value` at the path `steps` below it: an
      attribute step sets that attribute of `e`; an element step resolves (or
      creates) the child and either writes the text into it, when it is the last
      step, or continues below it. The context element keeps its name and its
      own text. */
  function ApplyPath(e: Element, steps: seq<Step>, value: string): (r: Element)
    requires Walkable(steps)
    ensures r.tag == e.tag && r.text == e.text
    ensures steps[0].ElementStep? ==> r.attrs == e.attrs
    decreases |steps|
  {
    match steps[0]
    case AttributeStep(a) => e.(attrs := SetAttr(e.attrs, a, value))
    case ElementStep(name, pred) =>
      var (cs, k) := Resolve(e.children, name, pred);
      if |steps| == 1 then
        e.(children := cs[k := cs[k].(text := value)])
      else
        WalkableSuffix(steps, 1);
        e.(children := cs[k := ApplyPath(cs[k], steps[1..], value)])
  }

  /** Reading a path without creating anything: the text of the designated
      element or the value of the designated attribute, if all of it exists. */
  function Lookup(e: Element, steps: seq<Step>): (r: Option<string>)
    requires Walkable(steps)
    decreases |steps|
    ensures steps[0].AttributeStep? ==>
              (r.Some? <==> exists j :: 0 <= j < |e.attrs| && e.attrs[j].name == steps[0].name)
    ensures r.Some? && steps[0].ElementStep? ==>
              exists i :: 0 <= i < |e.children| && Matches(e.children[i], steps[0].name, steps[0].pred)
    ensures r.Some? && steps[0].ElementStep? && |steps| == 1 ==>
              exists i :: 0 <= i < |e.children| && Matches(e.children[i], steps[0].name, steps[0].pred)
                                                 && e.children[i].text == r.value
  {
    match steps[0]
    case AttributeStep(a) => GetAttr(e.attrs, a)
    case ElementStep(name, pred) =>
      match Find(e.children, name, pred)
      case None => None
      case Some(k) =>
        if |steps| == 1 then Some(e.children[k].text)
        else
          WalkableSuffix(steps, 1);
          Lookup(e.children[k], steps[1..])
  }

  /** addXPath on the list of the document's top-level elements. */
  function Upsert(nodes: seq<Element>, steps: seq<Step>, value: string): (r: seq<Element>)
    requires WellFormedPath(steps)
    ensures |nodes| <= |r|
    ensures forall i :: 0 <= i < |nodes| && i != Resolve(nodes, steps[0].name, steps[0].pred).1 ==> r[i] == nodes[i]
  {
    ApplyFrame(DocumentNode(nodes), steps, value);
    ApplyPath(DocumentNode(nodes), steps, value).children
  }

  /** The value found at `steps` in the document, if the path exists. */
  function Select(nodes: seq<Element>, steps: seq<Step>): (r: Option<string>)
    requires WellFormedPath(steps)
    ensures r.Some? ==> exists i :: 0 <= i < |nodes| && Matches(nodes[i], steps[0].name, steps[0].pred)
  {
    Lookup(DocumentNode(nodes), steps)
  }

  // ---------------------------------------------------------------------------
  // Counting lemmas

  lemma {:induction false} CountAppend(a: seq<Element>, b: seq<Element>, name: string)
    ensures Count(a + b, name) == Count(a, name) + Count(b, name)
    decreases |b|
  {
    if b != [] {
      assert (a + b)[..|a + b| - 1] == a + b[..|b| - 1];
      CountAppend(a, b[..|b| - 1], name);
    } else {
      assert a + b == a;
    }
  }

  lemma {:induction false} CountPad(name: string, n: nat)
    ensures Count(Pad(name, n), name) == n
  {
    if n > 0 {
      assert Pad(name, n)[..n - 1] == Pad(name, n - 1);
      CountPad(name, n - 1);
    }
  }

  lemma {:induction false} CountUpdate(cs: seq<Element>, k: nat, x: Element, name: string)
    requires k < |cs| && x.tag == cs[k].tag
    ensures Count(cs[k := x], name) == Count(cs, name)
  {
    var last := |cs| - 1;
    if k == last {
      assert cs[k := x][..last] == cs[..last];
    } else {
      assert cs[k := x][..last] == cs[..last][k := x];
      CountUpdate(cs[..last], k, x, name);
    }
  }

  lemma CountPrefixStep(cs: seq<Element>, j: nat, name: string)
    requires j < |cs|
    ensures Count(cs[..j + 1], name) == Count(cs[..j], name) + (if cs[j].tag == name then 1 else 0)
  {
    assert cs[..j + 1][..j] == cs[..j];
  }

  lemma {:induction false} CountPrefixMono(cs: seq<Element>, a: nat, b: nat, name: string)
    requires a <= b <= |cs|
    ensures Count(cs[..a], name) <= Count(cs[..b], name)
    decreases b - a
  {
    if a < b {
      CountPrefixStep(cs, a, name);
      CountPrefixMono(cs, a + 1, b, name);
    }
  }

  /** The n-th child of a name is the one with exactly n - 1 such children before it. */
  lemma NthIndexUnique(cs: seq<Element>, name: string, n: nat, j: nat)
    requires 1 <= n <= Count(cs, name)
    requires j < |cs| && cs[j].tag == name && Count(cs[..j], name) == n - 1
    ensures NthIndex(cs, name, n) == j
  {
    var m := NthIndex(cs, name, n);
    if m < j {
      CountPrefixStep(cs, m, name);
      CountPrefixMono(cs, m + 1, j, name);
    } else if j < m {
      CountPrefixStep(cs, j, name);
      CountPrefixMono(cs, j + 1, m, name);
    }
  }

  // ---------------------------------------------------------------------------
  // Properties of resolveOrCreateChild

  /** An index beyond the children of that name pads with empty siblings so that
      exactly n of them exist, and resolves to the last (the n-th). */
  lemma PositionPads(cs: seq<Element>, name: string, n: nat)
    requires Count(cs, name) < n
    ensures var r := Resolve(cs, name, Position(n));
            && Count(r.0, name) == n
            && (forall i :: |cs| <= i < |r.0| ==> r.0[i] == EmptyElement(name))
            && r.1 == |r.0| - 1 && Count(r.0[..r.1], name) == n - 1
  {
    var c := Count(cs, name);
    var r := Resolve(cs, name, Position(n));
    var pad := Pad(name, n - c);
    assert r.0 == cs + pad && r.1 == |cs| + n - c - 1;
    CountAppend(cs, pad, name);
    CountPad(name, n - c);
    assert r.0[..r.1] == cs + Pad(name, n - c - 1);
    CountAppend(cs, Pad(name, n - c - 1), name);
    CountPad(name, n - c - 1);
  }

  /** An index within the children of that name creates nothing and resolves to
      the n-th of them. */
  lemma PositionSelects(cs: seq<Element>, name: string, n: nat)
    requires 1 <= n <= Count(cs, name)
    ensures var r := Resolve(cs, name, Position(n));
            r.0 == cs && cs[r.1].tag == name && Count(cs[..r.1], name) == n - 1
  {
  }

  /** Index predicates are 1-based and dense: afterwards exactly max(n, before)
      children carry the name and the step resolves to the n-th of them. */
  lemma PositionIsDense(cs: seq<Element>, name: string, n: nat)
    requires n >= 1
    ensures var r := Resolve(cs, name, Position(n));
            && Count(r.0, name) == (if Count(cs, name) < n then n else Count(cs, name))
            && r.0[r.1].tag == name && Count(r.0[..r.1], name) == n - 1
  {
    if Count(cs, name) < n {
      PositionPads(cs, name, n);
    } else {
      PositionSelects(cs, name, n);
    }
  }

  /** An equality predicate (or none) selects the first child that matches and
      creates nothing; with no match it appends exactly one fresh element, with
      the step's name, no text, and only what the predicate tests: no attribute
      and no child for a plain step, the one compared attribute for `[@a='v']`,
      the one compared child holding the value for `[c='v']`. */
  lemma FirstMatchOrSeed(cs: seq<Element>, name: string, pred: Predicate)
    requires WellFormedPredicate(pred) && !pred.Position?
    ensures var (r, k) := Resolve(cs, name, pred);
            && (forall i :: 0 <= i < k ==> !Matches(r[i], name, pred))
            && Matches(r[k], name, pred)
            && (if exists i :: 0 <= i < |cs| && Matches(cs[i], name, pred) then r == cs else r == cs + [r[k]])
    ensures var (r, k) := Resolve(cs, name, pred);
            r != cs ==>
              && r[k].tag == name && r[k].text == ""
              && (pred.NoPredicate? ==> r[k].attrs == [] && r[k].children == [])
              && (pred.AttributeEquals? ==> r[k].attrs == [Attr(pred.attr, pred.value)] && r[k].children == [])
              && (pred.ChildEquals? ==>
                    r[k].attrs == [] && r[k].children == [Element(pred.child, [], [], pred.value)])
  {
  }

  /** Once a step has been resolved, any replacement of the resolved child that
      still matches is found again at the same place, and nothing is created. */
  lemma FindAfterResolve(cs: seq<Element>, name: string, pred: Predicate, x: Element)
    requires WellFormedPredicate(pred) && Matches(x, name, pred)
    ensures var (r, k) := Resolve(cs, name, pred);
            Find(r[k := x], name, pred) == Some(k)
  {
    var (r, k) := Resolve(cs, name, pred);
    var r' := r[k := x];
    assert r'[..k] == r[..k];
    match pred
    case Position(n) =>
      PositionIsDense(cs, name, n);
      CountUpdate(r, k, x, name);
      NthIndexUnique(r', name, n, k);
    case _ =>
      FirstMatchOrSeed(cs, name, pred);
      var j := FirstMatch(r', name, pred);
      assert r'[k] == x;
  }

  // ---------------------------------------------------------------------------
  // Properties of the path walk

  /** Does the step after an element step with predicate `pred` overwrite what
      `pred` tests (the attribute it compares, or the text of the child it compares)? */
  predicate Overrides(pred: Predicate, rest: seq<Step>)
    requires |rest| > 0
  {
    match pred
    case AttributeEquals(a, _) => rest[0] == AttributeStep(a)
    case ChildEquals(c, _) => |rest| == 1 && rest[0].ElementStep? && rest[0].name == c
    case _ => false
  }

  /** No step overwrites the predicate of the step before it. */
  predicate Stable(steps: seq<Step>)
  {
    forall j :: 0 <= j < |steps| - 1 ==> steps[j].ElementStep? ==> !Overrides(steps[j].pred, steps[j + 1..])
  }

  lemma StableSuffix(steps: seq<Step>)
    requires Stable(steps) && |steps| > 1
    ensures Stable(steps[1..])
  {
    var tail := steps[1..];
    forall j | 0 <= j < |tail| - 1 && tail[j].ElementStep?
      ensures !Overrides(tail[j].pred, tail[j + 1..])
    {
      assert tail[j] == steps[j + 1] && tail[j + 1..] == steps[j + 2..];
    }
  }

  /** Writing below a matching element keeps it matching, unless the write
      overwrites what the predicate tests. */
  lemma ApplyKeepsMatch(c: Element, name: string, pred: Predicate, rest: seq<Step>, v: string)
    requires Walkable(rest) && Matches(c, name, pred) && !Overrides(pred, rest)
    ensures Matches(ApplyPath(c, rest, v), name, pred)
  {
    var c' := ApplyPath(c, rest, v);
    match rest[0]
    case AttributeStep(b) =>
      if pred.AttributeEquals? {
        SetKeepsOthers(c.attrs, b, v, pred.attr);
      }
      assert c'.children == c.children;
    case ElementStep(m, p2) =>
      if pred.ChildEquals? {
        var i :| 0 <= i < |c.children| && c.children[i].tag == pred.child && c.children[i].text == pred.value;
        var (cs, k) := Resolve(c.children, m, p2);
        assert cs[i] == cs[..|c.children|][i] == c.children[i];
        if i == k && |rest| > 1 {
          WalkableSuffix(rest, 1);
          assert c'.children[i] == ApplyPath(cs[k], rest[1..], v);
        }
        assert c'.children[i].tag == pred.child && c'.children[i].text == pred.value;
      }
  }

  /** Upsert is idempotent: writing a path twice is writing it once with the
      second value (no element is created a second time). */
  lemma {:induction false} ApplyPathTwice(e: Element, steps: seq<Step>, v1: string, v2: string)
    requires Walkable(steps) && Stable(steps)
    ensures ApplyPath(ApplyPath(e, steps, v1), steps, v2) == ApplyPath(e, steps, v2)
    decreases |steps|
  {
    match steps[0]
    case AttributeStep(a) =>
      SetTwice(e.attrs, a, v1, v2);
    case ElementStep(name, pred) =>
      var (cs, k) := Resolve(e.children, name, pred);
      var t1, t2;
      if |steps| == 1 {
        t1, t2 := cs[k].(text := v1), cs[k].(text := v2);
        assert Matches(t1, name, pred) by {
          assert t1.children == cs[k].children && t1.attrs == cs[k].attrs;
        }
      } else {
        WalkableSuffix(steps, 1);
        StableSuffix(steps);
        assert !Overrides(pred, steps[1..]);
        t1, t2 := ApplyPath(cs[k], steps[1..], v1), ApplyPath(cs[k], steps[1..], v2);
        ApplyKeepsMatch(cs[k], name, pred, steps[1..], v1);
        ApplyPathTwice(cs[k], steps[1..], v1, v2);
      }
      FindAfterResolve(e.children, name, pred, t1);
      assert cs[k := t1][k := t2] == cs[k := t2];
  }

  /** What upsert writes, reading the same path gives back. */
  lemma {:induction false} LookupAfterApply(e: Element, steps: seq<Step>, v: string)
    requires Walkable(steps) && Stable(steps)
    ensures Lookup(ApplyPath(e, steps, v), steps) == Some(v)
    decreases |steps|
  {
    match steps[0]
    case AttributeStep(a) =>
      SetThenGet(e.attrs, a, v);
    case ElementStep(name, pred) =>
      var (cs, k) := Resolve(e.children, name, pred);
      if |steps| == 1 {
        var t := cs[k].(text := v);
        assert Matches(t, name, pred) by {
          assert t.children == cs[k].children && t.attrs == cs[k].attrs;
        }
        FindAfterResolve(e.children, name, pred, t);
      } else {
        WalkableSuffix(steps, 1);
        StableSuffix(steps);
        assert !Overrides(pred, steps[1..]);
        var t := ApplyPath(cs[k], steps[1..], v);
        ApplyKeepsMatch(cs[k], name, pred, steps[1..], v);
        FindAfterResolve(e.children, name, pred, t);
        LookupAfterApply(cs[k], steps[1..], v);
      }
  }

  /** Writing the value a path already holds changes nothing: an existing path
      creates no element. */
  lemma {:induction false} ApplyExisting(e: Element, steps: seq<Step>, v: string)
    requires Walkable(steps) && Lookup(e, steps) == Some(v)
    ensures ApplyPath(e, steps, v) == e
    decreases |steps|
  {
    match steps[0]
    case AttributeStep(a) =>
      SetExisting(e.attrs, a, v);
    case ElementStep(name, pred) =>
      var k := Find(e.children, name, pred).value;
      if |steps| == 1 {
        assert e.children[k := e.children[k].(text := v)] == e.children;
      } else {
        WalkableSuffix(steps, 1);
        ApplyExisting(e.children[k], steps[1..], v);
        assert e.children[k := e.children[k]] == e.children;
      }
  }

  /** addXPath twice on the same path equals addXPath once with the second value. */
  lemma UpsertIdempotent(nodes: seq<Element>, steps: seq<Step>, v1: string, v2: string)
    requires WellFormedPath(steps) && Stable(steps)
    ensures Upsert(Upsert(nodes, steps, v1), steps, v2) == Upsert(nodes, steps, v2)
  {
    var d1 := ApplyPath(DocumentNode(nodes), steps, v1);
    assert DocumentNode(d1.children) == d1;
    ApplyPathTwice(DocumentNode(nodes), steps, v1, v2);
  }

  /** After addXPath, the path designates the value just written. */
  lemma UpsertThenSelect(nodes: seq<Element>, steps: seq<Step>, v: string)
    requires WellFormedPath(steps) && Stable(steps)
    ensures Select(Upsert(nodes, steps, v), steps) == Some(v)
  {
    var d := ApplyPath(DocumentNode(nodes), steps, v);
    assert DocumentNode(d.children) == d;
    LookupAfterApply(DocumentNode(nodes), steps, v);
  }

  /** UpsertThenSelect needs a stable path: writing v2 at `a[@x='v1']/@x` on an
      empty document creates `a` with x = v1 and then overwrites x, so the same
      path no longer designates anything. */
  lemma UnstableSelect(a: string, x: string, v1: string, v2: string)
    requires IsName(a) && IsName(x) && v1 != v2
    ensures var steps := [ElementStep(a, AttributeEquals(x, v1)), AttributeStep(x)];
            && WellFormedPath(steps) && !Stable(steps)
            && Upsert([], steps, v2) == [Element(a, [Attr(x, v2)], [], "")]
            && Select(Upsert([], steps, v2), steps) == None
  {
    var steps := [ElementStep(a, AttributeEquals(x, v1)), AttributeStep(x)];
    assert WellFormedStep(steps[0]) && WellFormedStep(steps[1]);
    assert Overrides(steps[0].pred, steps[1..]);
    var seeded := Element(a, [Attr(x, v1)], [], "");
    assert Resolve([], a, AttributeEquals(x, v1)) == ([seeded], 0);
    assert steps[1..] == [AttributeStep(x)];
    var written := Element(a, [Attr(x, v2)], [], "");
    assert SetAttr(seeded.attrs, x, v2) == written.attrs;
    assert ApplyPath(seeded, steps[1..], v2) == written;
    assert Upsert([], steps, v2) == [written];
    assert !Matches(written, a, AttributeEquals(x, v1));
    assert Find([written], a, AttributeEquals(x, v1)) == None;
  }

  /** addXPath of the value a document already holds at the path leaves it unchanged. */
  lemma UpsertExisting(nodes: seq<Element>, steps: seq<Step>, v: string)
    requires WellFormedPath(steps) && Select(nodes, steps) == Some(v)
    ensures Upsert(nodes, steps, v) == nodes
  {
    ApplyExisting(DocumentNode(nodes), steps, v);
  }

  // ---------------------------------------------------------------------------
  // What a write keeps

  /** One level of the walk: an attribute step leaves the children alone; an
      element step keeps every existing child but the resolved one and only
      appends after them. */
  lemma ApplyFrame(e: Element, steps: seq<Step>, v: string)
    requires Walkable(steps)
    ensures steps[0].AttributeStep? ==> ApplyPath(e, steps, v).children == e.children
    ensures steps[0].ElementStep? ==>
              var r := ApplyPath(e, steps, v);
              var k := Resolve(e.children, steps[0].name, steps[0].pred).1;
              && |e.children| <= |r.children|
              && forall i :: 0 <= i < |e.children| && i != k ==> r.children[i] == e.children[i]
  {
    match steps[0]
    case AttributeStep(_) =>
    case ElementStep(name, pred) =>
      var (cs, k) := Resolve(e.children, name, pred);
      assert forall i :: 0 <= i < |e.children| ==> cs[i] == cs[..|e.children|][i];
  }

  /** Nothing of `e` is lost in `r`: the same tag, every attribute name still
      present, and at least the same children, each of them kept in turn.
      Texts and attribute values may change. */
  predicate Keeps(e: Element, r: Element)
    decreases e
  {
    && r.tag == e.tag
    && (forall j :: 0 <= j < |e.attrs| ==> GetAttr(r.attrs, e.attrs[j].name).Some?)
    && |e.children| <= |r.children|
    && forall i :: 0 <= i < |e.children| ==> Keeps(e.children[i], r.children[i])
  }

  /** Changing the text of an element keeps everything else of it. */
  lemma {:induction false} KeepsRetext(e: Element, t: string)
    decreases e
    ensures Keeps(e, e.(text := t))
  {
    forall i | 0 <= i < |e.children| ensures Keeps(e.children[i], e.children[i]) {
      KeepsRetext(e.children[i], e.children[i].text);
      assert e.children[i].(text := e.children[i].text) == e.children[i];
    }
  }

  /** A write destroys no node: every old element is still there, with its
      attributes, below the same parent at the same position. */
  lemma {:induction false} ApplyKeeps(e: Element, steps: seq<Step>, v: string)
    requires Walkable(steps)
    ensures Keeps(e, ApplyPath(e, steps, v))
    decreases |steps|
  {
    var r := ApplyPath(e, steps, v);
    ApplyFrame(e, steps, v);
    KeepsRetext(e, e.text);
    assert e.(text := e.text) == e;
    match steps[0]
    case AttributeStep(a) =>
      forall j | 0 <= j < |e.attrs| ensures GetAttr(r.attrs, e.attrs[j].name).Some? {
        assert r.attrs[j].name == e.attrs[j].name;
      }
    case ElementStep(name, pred) =>
      var (cs, k) := Resolve(e.children, name, pred);
      if k < |e.children| {
        assert cs[k] == cs[..|e.children|][k];
        if |steps| == 1 {
          KeepsRetext(cs[k], v);
        } else {
          WalkableSuffix(steps, 1);
          ApplyKeeps(cs[k], steps[1..], v);
        }
      }
  }

  /** The elements resolve-or-create appends carry unique attribute names. */
  lemma ResolveWellNamed(cs: seq<Element>, name: string, pred: Predicate)
    requires WellFormedPredicate(pred)
    requires forall i :: 0 <= i < |cs| ==> WellNamed(cs[i])
    ensures forall i :: 0 <= i < |Resolve(cs, name, pred).0| ==> WellNamed(Resolve(cs, name, pred).0[i])
  {
    if Find(cs, name, pred).None? {
      var added := Created(cs, name, pred);
      assert forall i :: 0 <= i < |added| ==> WellNamed(added[i]) by {
        match pred
        case ChildEquals(c, v) =>
          assert WellNamed(Element(c, [], [], v));
        case _ =>
      }
      assert forall i :: |cs| <= i < |cs + added| ==> (cs + added)[i] == added[i - |cs|];
    }
  }

  /** A write keeps the attribute names of every element unique. */
  lemma {:induction false} ApplyWellNamed(e: Element, steps: seq<Step>, v: string)
    requires Walkable(steps) && WellNamed(e)
    ensures WellNamed(ApplyPath(e, steps, v))
    decreases |steps|
  {
    match steps[0]
    case AttributeStep(a) =>
    case ElementStep(name, pred) =>
      var (cs, k) := Resolve(e.children, name, pred);
      ResolveWellNamed(e.children, name, pred);
      if |steps| == 1 {
        assert WellNamed(cs[k].(text := v));
      } else {
        WalkableSuffix(steps, 1);
        ApplyWellNamed(cs[k], steps[1..], v);
      }
  }

  /** addXPath destroys no node of the document, changes no top-level node but
      the one its first step resolves to, and keeps attribute names unique. */
  lemma UpsertKeeps(nodes: seq<Element>, steps: seq<Step>, v: string)
    requires WellFormedPath(steps)
    ensures forall i :: 0 <= i < |nodes| ==> Keeps(nodes[i], Upsert(nodes, steps, v)[i])
    ensures (forall i :: 0 <= i < |nodes| ==> WellNamed(nodes[i])) ==>
              forall i :: 0 <= i < |Upsert(nodes, steps, v)| ==> WellNamed(Upsert(nodes, steps, v)[i])
  {
    ApplyKeeps(DocumentNode(nodes), steps, v);
    if forall i :: 0 <= i < |nodes| ==> WellNamed(nodes[i]) {
      ApplyWellNamed(DocumentNode(nodes), steps, v);
    }
  }

  // ---------------------------------------------------------------------------
  // Addressing a node of a tree by child positions

  predicate ValidAddress(t: Element, p: seq<nat>)
    decreases |p|
  {
    p == [] || (p[0] < |t.children| && ValidAddress(t.children[p[0]], p[1..]))
  }

  /** The node at address `p`. */
  function At(t: Element, p: seq<nat>): Element
    requires ValidAddress(t, p)
    decreases |p|
  {
    if p == [] then t else At(t.children[p[0]], p[1..])
  }

  /** `t` with the node at address `p` replaced by `x`. */
  function Plug(t: Element, p: seq<nat>, x: Element): Element
    requires ValidAddress(t, p)
    decreases |p|
  {
    if p == [] then x
    else t.(children := t.children[p[0] := Plug(t.children[p[0]], p[1..], x)])
  }

  /** Replacing the node at `p` by `y` and then `y`'s k-th child by `x` is the same as
      replacing the node at `p` by `y` with its k-th child already replaced. */
  lemma {:induction false} PlugChild(t: Element, p: seq<nat>, y: Element, k: nat, x: Element)
    requires ValidAddress(t, p) && k < |y.children|
    ensures ValidAddress(Plug(t, p, y), p + [k])
    ensures At(Plug(t, p, y), p + [k]) == y.children[k]
    ensures Plug(Plug(t, p, y), p + [k], x) == Plug(t, p, y.(children := y.children[k := x]))
    decreases |p|
  {
    if p == [] {
      assert p + [k] == [k];
    } else {
      assert (p + [k])[1..] == p[1..] + [k];
      PlugChild(t.children[p[0]], p[1..], y, k, x);
    }
  }

  // ---------------------------------------------------------------------------
  // The document, updated in place

  class Document {
    /** The children of the document node: its root element, once there is one. */
    var nodes: seq<Element>

    /** An empty document (new \DOMDocument()). */
    constructor ()
      ensures nodes == []
    {
      nodes := [];
    }

    /** A document that already holds `nodes` (as after loadXml). */
    constructor Holding(nodes: seq<Element>)
      ensures this.nodes == nodes
    {
      this.nodes := nodes;
    }

    /** addXPath: an invalid expression fails with InvalidPath and leaves the
        document alone; a valid one upserts `value` at the path. */
    method AddXPath(expr: string, value: string) returns (r: Result<()>)
      modifies this
      ensures r == if Parse(expr).Ok? then Ok(()) else Err(InvalidPath(expr))
      ensures Parse(expr).Err? ==> nodes == old(nodes)
      ensures Parse(expr).Ok? ==> nodes == Upsert(old(nodes), Parse(expr).value, value)
    {
      var parsed := Parse(expr);
      if parsed.Err? {
        return Err(parsed.error);
      }
      var steps := parsed.value;
      ghost var goal := ApplyPath(DocumentNode(nodes), steps, value);
      var tree := DocumentNode(nodes);
      var path: seq<nat> := [];
      var i := 0;
      while i < |steps|
        invariant 0 <= i <= |steps|
        invariant i < |steps| ==> ValidAddress(tree, path) && Walkable(steps[i..])
        invariant i < |steps| ==> goal == Plug(tree, path, ApplyPath(At(tree, path), steps[i..], value))
        invariant i == |steps| ==> goal == tree
      {
        var context := At(tree, path);
        match steps[i] {
          case AttributeStep(a) =>
            tree := Plug(tree, path, context.(attrs := SetAttr(context.attrs, a, value)));
          case ElementStep(name, pred) =>
            var children, k := ResolveChild(context.children, name, pred);
            if i == |steps| - 1 {
              tree := Plug(tree, path, context.(children := children[k := children[k].(text := value)]));
            } else {
              assert steps[i..][1..] == steps[i + 1..];
              WalkableSuffix(steps, i + 1);
              var next := context.(children := children);
              PlugChild(tree, path, next, k, ApplyPath(children[k], steps[i + 1..], value));
              tree := Plug(tree, path, next);
              path := path + [k];
            }
        }
        i := i + 1;
        if i < |steps| {
          WalkableSuffix(steps, i);
        }
      }
      nodes := tree.children;
      r := Ok(());
    }
  }
}
