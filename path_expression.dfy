/** The restricted path expressions accepted by addXPath: a subset of the
    abbreviated location paths of XML Path Language (XPath) 1.0 (section 2.5,
    abbreviated syntax; section 2.4, predicates).

      expr      := ('/' step)+
      step      := name ('[' predicate ']')? | '@' name      -- '@' only in the last step
      predicate := digits | '@'? name ' '* '=' ' '* quoted   -- quoted: "..." or '...'

    A path must start with '/' and its first step must name an element. */
module PathExpression {
  import opened DomTree

  /** The selector that narrows which sibling a step resolves to. */
  datatype Predicate =
    | NoPredicate
    | Position(index: nat)                          // [n], 1-based
    | AttributeEquals(attr: string, value: string)  // [@attr='value']
    | ChildEquals(child: string, value: string)     // [child = "value"]

  datatype Step =
    | ElementStep(name: string, pred: Predicate)
    | AttributeStep(name: string)

  /** The single error kind: the expression does not follow the grammar. */
  datatype PathError = InvalidPath(expression: string) {
    /** The exception message; it reproduces the expression verbatim. */
    function Message(): string
    {
      "XPath " + expression + " is not valid."
    }
  }

  datatype Result<T> = Ok(value: T) | Err(error: PathError)

  predicate IsNameChar(c: char)
  {
    c !in {'/', '[', ']', '@', '=', '"', '\'', ' ', '\t', '\r', '\n'}
  }

  predicate IsName(s: string)
  {
    |s| > 0 && forall i :: 0 <= i < |s| ==> IsNameChar(s[i])
  }

  predicate IsDigit(c: char)
  {
    '0' <= c <= '9'
  }

  /** A non-empty run of decimal digits. */
  predicate IsDigits(ds: string)
  {
    |ds| > 0 && forall i :: 0 <= i < |ds| ==> IsDigit(ds[i])
  }

  predicate IsSpace(c: char)
  {
    c == ' '
  }

  predicate IsQuote(c: char)
  {
    c == '"' || c == '\''
  }

  predicate WellFormedPredicate(p: Predicate)
  {
    match p
    case NoPredicate => true
    case Position(n) => n >= 1
    case AttributeEquals(a, _) => IsName(a)
    case ChildEquals(c, _) => IsName(c)
  }

  predicate WellFormedStep(s: Step)
  {
    match s
    case ElementStep(name, p) => IsName(name) && WellFormedPredicate(p)
    case AttributeStep(name) => IsName(name)
  }

  /** Every step but the last names an element. */
  predicate AttributeLast(steps: seq<Step>)
  {
    forall i :: 0 <= i < |steps| - 1 ==> steps[i].ElementStep?
  }

  /** What a successful parse yields. */
  predicate WellFormedPath(steps: seq<Step>)
  {
    && |steps| > 0
    && steps[0].ElementStep?
    && AttributeLast(steps)
    && forall i :: 0 <= i < |steps| ==> WellFormedStep(steps[i])
  }

  /** Length of the longest prefix of `s` whose characters all satisfy `accept`. */
  function Span(s: string, accept: char -> bool): (n: nat)
    ensures n <= |s|
    ensures forall i :: 0 <= i < n ==> accept(s[i])
    ensures n < |s| ==> !accept(s[n])
  {
    if s == [] || !accept(s[0]) then 0 else 1 + Span(s[1..], accept)
  }

  /** The number written by a run of decimal digits. */
  function DigitsValue(ds: string): nat
    requires forall i :: 0 <= i < |ds| ==> IsDigit(ds[i])
  {
    if ds == [] then 0
    else
      assert IsDigit(ds[|ds| - 1]);
      10 * DigitsValue(ds[..|ds| - 1]) + (ds[|ds| - 1] as int - '0' as int)
  }

  /** The decimal digits of `n`, without leading zeros. */
  function Digits(n: nat): (s: string)
    ensures |s| > 0
    ensures forall i :: 0 <= i < |s| ==> IsDigit(s[i])
  {
    if n < 10 then [('0' as int + n) as char]
    else Digits(n / 10) + [('0' as int + n % 10) as char]
  }

  /** The character test "is not `q`". */
  function Other(q: char): char -> bool
  {
    c => c != q
  }

  /** `s` without its leading spaces. */
  function SkipSpaces(s: string): (r: string)
    ensures |r| <= |s|
  {
    s[Span(s, IsSpace)..]
  }

  /** Parses a quoted string at the start of `s`: yields its contents and the text after
      the closing quote, which must be the same kind as the opening one. */
  function ParseQuoted(s: string): (r: Option<(string, string)>)
    ensures r.Some? ==> |r.value.1| < |s|
  {
    if s == [] || !IsQuote(s[0]) then None
    else
      var body := s[1..];
      var e := Span(body, Other(s[0]));
      if e < |body| then Some((body[..e], body[e + 1..])) else None
  }

  /** Parses `name = "value"` at the start of `s`, with spaces allowed around '='. */
  function ParseComparison(s: string): (r: Option<(string, string, string)>)
    ensures r.Some? ==> IsName(r.value.0) && |r.value.2| < |s|
  {
    var m := Span(s, IsNameChar);
    var v := SkipSpaces(s[m..]);
    if m == 0 || v == [] || v[0] != '=' then None
    else
      match ParseQuoted(SkipSpaces(v[1..]))
      case None => None
      case Some((value, rest)) => Some((s[..m], value, rest))
  }

  /** Parses a predicate from `s`, the text right after '['. Yields the predicate and
      the text after the closing ']'. */
  function ParsePredicate(s: string): (r: Option<(Predicate, string)>)
    ensures r.Some? ==> |r.value.1| < |s|
    ensures r.Some? ==> WellFormedPredicate(r.value.0) && r.value.0 != NoPredicate
  {
    var d := Span(s, IsDigit);
    if 0 < d < |s| && s[d] == ']' then
      var n := DigitsValue(s[..d]);
      if n >= 1 then Some((Position(n), s[d + 1..])) else None
    else
      var isAttr := |s| > 0 && s[0] == '@';
      match ParseComparison(if isAttr then s[1..] else s)
      case None => None
      case Some((name, value, rest)) =>
        if rest == [] || rest[0] != ']' then None
        else
          var p := if isAttr then AttributeEquals(name, value) else ChildEquals(name, value);
          Some((p, rest[1..]))
  }

  /** Parses what may follow an element name: nothing, or a bracketed predicate.
      The rest must be empty or start at the next '/'. */
  function ParseTail(s: string): (r: Option<(Predicate, string)>)
    ensures r.Some? ==> |r.value.1| <= |s| && WellFormedPredicate(r.value.0)
    ensures r.Some? ==> r.value.1 == [] || r.value.1[0] == '/'
  {
    if s == [] || s[0] == '/' then Some((NoPredicate, s))
    else if s[0] != '[' then None
    else
      match ParsePredicate(s[1..])
      case None => None
      case Some((p, after)) => if after == [] || after[0] == '/' then Some((p, after)) else None
  }

  /** Parses one step from `s`, the text right after a '/'. Yields the step and the
      rest, which is empty or starts at the next '/'; an attribute step must end the text. */
  function ParseStep(s: string): (r: Option<(Step, string)>)
    ensures r.Some? ==> |r.value.1| < |s| && WellFormedStep(r.value.0)
    ensures r.Some? ==> r.value.1 == [] || r.value.1[0] == '/'
    ensures r.Some? && r.value.0.AttributeStep? ==> r.value.1 == []
  {
    if |s| > 0 && s[0] == '@' then
      var n := Span(s[1..], IsNameChar);
      if 0 < n == |s| - 1 then Some((AttributeStep(s[1..]), [])) else None
    else
      var n := Span(s, IsNameChar);
      if n == 0 then None
      else
        match ParseTail(s[n..])
        case None => None
        case Some((p, rest)) => Some((ElementStep(s[..n], p), rest))
  }

  /** Parses the steps of `s`, the text after the leading '/'. */
  function ParseSteps(s: string): (r: Option<seq<Step>>)
    decreases |s|
    ensures r.Some? ==> |r.value| > 0 && AttributeLast(r.value)
    ensures r.Some? ==> forall i :: 0 <= i < |r.value| ==> WellFormedStep(r.value[i])
  {
    match ParseStep(s)
    case None => None
    case Some((step, rest)) =>
      if rest == [] then Some([step])
      else
        match ParseSteps(rest[1..])
        case None => None
        case Some(more) => Some([step] + more)
  }

  /** Parses a path expression. Any failure is InvalidPath carrying the expression itself. */
  function Parse(expr: string): (r: Result<seq<Step>>)
    ensures r.Err? ==> r.error == InvalidPath(expr)
    ensures r.Ok? ==> WellFormedPath(r.value)
    ensures |expr| == 0 || expr[0] != '/' ==> r.Err?
  {
    if |expr| == 0 || expr[0] != '/' then Err(InvalidPath(expr))
    else
      match ParseSteps(expr[1..])
      case Some(steps) => if steps[0].ElementStep? then Ok(steps) else Err(InvalidPath(expr))
      case None => Err(InvalidPath(expr))
  }

  // ---------------------------------------------------------------------------
  // Rendering: the inverse of Parse, used to state its round trip.

  /** A predicate value can be written between quotes unless it holds both quote kinds. */
  predicate Quotable(v: string)
  {
    !('"' in v && '\'' in v)
  }

  /** `v` between two `q` characters. */
  function QuotedWith(q: char, v: string): string
  {
    [q] + v + [q]
  }

  /** The quote Render uses: a single quote unless the value holds one. */
  function QuoteFor(v: string): char
  {
    if '\'' !in v then '\'' else '"'
  }

  function Quoted(v: string): string
  {
    QuotedWith(QuoteFor(v), v)
  }

  /** The text of a predicate after its '['. */
  function PredicateText(p: Predicate): string
  {
    match p
    case NoPredicate => ""
    case Position(n) => Digits(n) + "]"
    case AttributeEquals(a, v) => "@" + a + "=" + Quoted(v) + "]"
    case ChildEquals(c, v) => c + "=" + Quoted(v) + "]"
  }

  function StepText(s: Step): string
  {
    match s
    case AttributeStep(name) => "@" + name
    case ElementStep(name, p) => name + TailText(p)
  }

  function Render(steps: seq<Step>): string
  {
    if steps == [] then "" else "/" + StepText(steps[0]) + Render(steps[1..])
  }

  predicate RenderableStep(s: Step)
  {
    match s
    case ElementStep(_, AttributeEquals(_, v)) => Quotable(v)
    case ElementStep(_, ChildEquals(_, v)) => Quotable(v)
    case _ => true
  }

  // ---------------------------------------------------------------------------
  // Lemmas

  /** "[1]/foo" is rejected, and the message names the expression. */
  lemma RejectsRelativePath()
    ensures Parse("[1]/foo").Err?
    ensures Parse("[1]/foo").error.Message() == "XPath [1]/foo is not valid."
  {
  }

  lemma {:induction false} DigitsRoundTrip(n: nat)
    ensures DigitsValue(Digits(n)) == n
  {
    if n >= 10 {
      var ds := Digits(n);
      DigitsRoundTrip(n / 10);
      assert ds[..|ds| - 1] == Digits(n / 10);
    }
  }

  lemma {:induction false} SpanPrefix(a: string, b: string, accept: char -> bool)
    requires forall i :: 0 <= i < |a| ==> accept(a[i])
    requires b == [] || !accept(b[0])
    ensures Span(a + b, accept) == |a|
  {
    if a != [] {
      assert (a + b)[1..] == a[1..] + b;
      SpanPrefix(a[1..], b, accept);
    }
  }

  lemma ParseQuotedText(q: char, v: string, rest: string)
    requires IsQuote(q) && q !in v
    ensures ParseQuoted(QuotedWith(q, v) + rest) == Some((v, rest))
  {
    var s := [q] + v + ([q] + rest);
    assert QuotedWith(q, v) + rest == s;
    assert s[1..] == v + ([q] + rest);
    SpanPrefix(v, [q] + rest, Other(q));
    assert s[1..][..|v|] == v;
    assert s[1..][|v| + 1..] == rest;
  }

  /** `n` spaces. */
  function Spaces(n: nat): string
  {
    seq(n, _ => ' ')
  }

  lemma SkipSpacesText(n: nat, rest: string)
    requires rest == [] || !IsSpace(rest[0])
    ensures SkipSpaces(Spaces(n) + rest) == rest
  {
    SpanPrefix(Spaces(n), rest, IsSpace);
    assert (Spaces(n) + rest)[n..] == rest;
  }

  /** `name = "value"` with `a` spaces before '=', `b` after it, and `q` as the quote. */
  function ComparisonText(name: string, a: nat, b: nat, q: char, v: string): string
  {
    name + Spaces(a) + "=" + Spaces(b) + QuotedWith(q, v)
  }

  /** Which quote may enclose `v`. */
  predicate CanQuote(q: char, v: string)
  {
    IsQuote(q) && q !in v
  }

  lemma PlainComparisonText(name: string, v: string)
    ensures ComparisonText(name, 0, 0, QuoteFor(v), v) == name + "=" + Quoted(v)
  {
    assert Spaces(0) == [];
  }

  /** A comparison, with any number of spaces around '=', parses back. */
  lemma ParseComparisonText(name: string, a: nat, b: nat, q: char, v: string, rest: string)
    requires IsName(name) && CanQuote(q, v)
    ensures ParseComparison(ComparisonText(name, a, b, q, v) + rest) == Some((name, v, rest))
  {
    var afterEq := Spaces(b) + (QuotedWith(q, v) + rest);
    var tail := Spaces(a) + ("=" + afterEq);
    var s := name + tail;
    assert ComparisonText(name, a, b, q, v) + rest == s;
    assert tail == [] || !IsNameChar(tail[0]) by {
      if a > 0 { assert tail[0] == ' '; } else { assert tail[0] == '='; }
    }
    SpanPrefix(name, tail, IsNameChar);
    assert s[|name|..] == tail;
    SkipSpacesText(a, "=" + afterEq);
    assert ("=" + afterEq)[1..] == afterEq;
    assert IsQuote((QuotedWith(q, v) + rest)[0]);
    SkipSpacesText(b, QuotedWith(q, v) + rest);
    ParseQuotedText(q, v, rest);
    assert s[..|name|] == name;
  }

  /** A run of digits naming a position of at least 1, leading zeros allowed, then ']'. */
  lemma ParseDigitRunText(ds: string, rest: string)
    requires IsDigits(ds) && DigitsValue(ds) >= 1
    ensures ParsePredicate(ds + "]" + rest) == Some((Position(DigitsValue(ds)), rest))
  {
    var s := ds + ("]" + rest);
    assert ds + "]" + rest == s;
    SpanPrefix(ds, "]" + rest, IsDigit);
    assert s[..|ds|] == ds;
    assert s[|ds| + 1..] == rest;
  }

  lemma ParsePositionText(n: nat, rest: string)
    requires n >= 1
    ensures ParsePredicate(Digits(n) + "]" + rest) == Some((Position(n), rest))
  {
    DigitsRoundTrip(n);
    ParseDigitRunText(Digits(n), rest);
  }

  /** ParsePredicate on '@' and a comparison closed by ']'. */
  lemma {:induction false} ParsePredicateAttribute(s: string, name: string, v: string, rest: string)
    requires |s| > 0 && s[0] == '@'
    requires ParseComparison(s[1..]) == Some((name, v, "]" + rest))
    ensures ParsePredicate(s) == Some((AttributeEquals(name, v), rest))
  {
    var closed := "]" + rest;
    assert closed[0] == ']' && closed[1..] == rest;
    assert Span(s, IsDigit) == 0;
  }

  /** ParsePredicate on a comparison closed by ']', when the text is no position. */
  lemma {:induction false} ParsePredicateChild(s: string, name: string, v: string, rest: string)
    requires !(0 < Span(s, IsDigit) < |s| && s[Span(s, IsDigit)] == ']')
    requires |s| > 0 && s[0] != '@'
    requires ParseComparison(s) == Some((name, v, "]" + rest))
    ensures ParsePredicate(s) == Some((ChildEquals(name, v), rest))
  {
    var closed := "]" + rest;
    assert closed[0] == ']' && closed[1..] == rest;
  }

  /** `@attr = "value"]`, spaces allowed around '=', parses to AttributeEquals. */
  lemma ParseAttributeEqualsText(name: string, a: nat, b: nat, q: char, v: string, rest: string)
    requires IsName(name) && CanQuote(q, v)
    ensures ParsePredicate("@" + ComparisonText(name, a, b, q, v) + "]" + rest)
         == Some((AttributeEquals(name, v), rest))
  {
    var t := ComparisonText(name, a, b, q, v) + ("]" + rest);
    var s := "@" + t;
    assert "@" + ComparisonText(name, a, b, q, v) + "]" + rest == s;
    assert Span(s, IsDigit) == 0;
    assert s[1..] == t;
    ParseComparisonText(name, a, b, q, v, "]" + rest);
    ParsePredicateAttribute(s, name, v, rest);
  }

  /** `child = "value"]`, spaces allowed around '=', parses to ChildEquals. */
  lemma ParseChildEqualsText(name: string, a: nat, b: nat, q: char, v: string, rest: string)
    requires IsName(name) && CanQuote(q, v)
    ensures ParsePredicate(ComparisonText(name, a, b, q, v) + "]" + rest)
         == Some((ChildEquals(name, v), rest))
  {
    var s := ComparisonText(name, a, b, q, v) + ("]" + rest);
    assert ComparisonText(name, a, b, q, v) + "]" + rest == s;
    var d := Span(s, IsDigit);
    assert d < |s| && s[d] != ']' by {
      assert forall i :: 0 <= i < |name| ==> s[i] == name[i];
      assert forall i :: |name| <= i < |name| + a ==> s[i] == ' ';
      assert s[|name| + a] == '=';
    }
    ParseComparisonText(name, a, b, q, v, "]" + rest);
    assert s[0] == name[0];
    ParsePredicateChild(s, name, v, rest);
  }

  lemma ParsePredicateText(p: Predicate, rest: string)
    requires p != NoPredicate && WellFormedPredicate(p) && RenderableStep(ElementStep("", p))
    ensures ParsePredicate(PredicateText(p) + rest) == Some((p, rest))
  {
    match p
    case Position(n) =>
      ParsePositionText(n, rest);
    case AttributeEquals(a, v) =>
      PlainComparisonText(a, v);
      assert PredicateText(p) == "@" + ComparisonText(a, 0, 0, QuoteFor(v), v) + "]";
      ParseAttributeEqualsText(a, 0, 0, QuoteFor(v), v, rest);
    case ChildEquals(c, v) =>
      PlainComparisonText(c, v);
      assert PredicateText(p) == ComparisonText(c, 0, 0, QuoteFor(v), v) + "]";
      ParseChildEqualsText(c, 0, 0, QuoteFor(v), v, rest);
  }

  /** The text after an element name: its predicate, if any, in brackets. */
  function TailText(p: Predicate): string
  {
    if p == NoPredicate then "" else "[" + PredicateText(p)
  }

  lemma ParseTailText(p: Predicate, rest: string)
    requires WellFormedPredicate(p) && RenderableStep(ElementStep("", p))
    requires rest == [] || rest[0] == '/'
    ensures ParseTail(TailText(p) + rest) == Some((p, rest))
  {
    if p != NoPredicate {
      var s := "[" + (PredicateText(p) + rest);
      assert TailText(p) + rest == s;
      assert s[1..] == PredicateText(p) + rest;
      ParsePredicateText(p, rest);
      assert s[0] == '[';
      assert ParsePredicate(s[1..]) == Some((p, rest));
    } else {
      assert TailText(p) + rest == rest;
    }
  }

  lemma {:induction false} ParseStepText(step: Step, rest: string)
    requires WellFormedStep(step) && RenderableStep(step)
    requires rest == [] || rest[0] == '/'
    requires step.AttributeStep? ==> rest == []
    ensures ParseStep(StepText(step) + rest) == Some((step, rest))
  {
    match step
    case AttributeStep(name) =>
      ParseAttributeStepText(name);
      assert StepText(step) + rest == "@" + name;
    case ElementStep(name, p) =>
      ParseElementStepText(name, p, rest);
  }

  lemma {:induction false} ParseAttributeStepText(name: string)
    requires IsName(name)
    ensures ParseStep("@" + name) == Some((AttributeStep(name), []))
  {
    var s := "@" + name;
    assert s[1..] == name;
    SpanPrefix(name, [], IsNameChar);
  }

  lemma {:induction false} ParseElementStepText(name: string, p: Predicate, rest: string)
    requires IsName(name) && WellFormedPredicate(p) && RenderableStep(ElementStep(name, p))
    requires rest == [] || rest[0] == '/'
    ensures ParseStep(name + TailText(p) + rest) == Some((ElementStep(name, p), rest))
  {
    var tail := TailText(p) + rest;
    assert name + TailText(p) + rest == name + tail;
    assert tail == [] || tail[0] == '/' || tail[0] == '[';
    assert RenderableStep(ElementStep("", p));
    ParseTailText(p, rest);
    ParseElementStep(name, tail, p, rest);
  }

  /** A bracketed predicate after an element name parses as that step's tail. */
  lemma ParseTailBracket(text: string, p: Predicate, rest: string)
    requires ParsePredicate(text) == Some((p, rest))
    requires rest == [] || rest[0] == '/'
    ensures ParseTail("[" + text) == Some((p, rest))
  {
    assert ("[" + text)[1..] == text;
  }

  /** A name followed by a tail that parses is an element step. */
  lemma ParseElementStep(name: string, tail: string, p: Predicate, rest: string)
    requires IsName(name) && (tail == [] || !IsNameChar(tail[0]))
    requires ParseTail(tail) == Some((p, rest))
    ensures ParseStep(name + tail) == Some((ElementStep(name, p), rest))
  {
    var s := name + tail;
    SpanPrefix(name, tail, IsNameChar);
    assert s[..|name|] == name && s[|name|..] == tail;
    assert s[0] == name[0];
  }

  lemma RenderCons(step: Step, rest: seq<Step>)
    ensures Render([step] + rest) == "/" + StepText(step) + Render(rest)
  {
    assert ([step] + rest)[1..] == rest;
  }

  lemma ParseStepsUnfold(s: string, step: Step, rest: string)
    requires ParseStep(s) == Some((step, rest))
    ensures rest == [] ==> ParseSteps(s) == Some([step])
    ensures rest != [] ==> ParseSteps(s) == match ParseSteps(rest[1..])
                                            case None => None
                                            case Some(more) => Some([step] + more)
  {
  }

  predicate RenderablePath(steps: seq<Step>)
  {
    && |steps| > 0
    && AttributeLast(steps)
    && forall i :: 0 <= i < |steps| ==> WellFormedStep(steps[i]) && RenderableStep(steps[i])
  }

  lemma RenderablePathTail(steps: seq<Step>)
    requires RenderablePath(steps) && |steps| > 1
    ensures RenderablePath(steps[1..]) && steps[0].ElementStep?
  {
    var tail := steps[1..];
    forall i | 0 <= i < |tail| - 1 ensures tail[i].ElementStep? {
      assert tail[i] == steps[i + 1];
    }
    forall i | 0 <= i < |tail| ensures WellFormedStep(tail[i]) && RenderableStep(tail[i]) {
      assert tail[i] == steps[i + 1];
    }
  }

  lemma RenderFirst(steps: seq<Step>)
    requires |steps| > 0
    ensures Render(steps)[0] == '/'
    ensures Render(steps)[1..] == StepText(steps[0]) + Render(steps[1..])
  {
    assert Render(steps) == "/" + StepText(steps[0]) + Render(steps[1..]);
    SlashSplit(StepText(steps[0]), Render(steps[1..]));
  }

  lemma {:induction false} ParseStepsRender(steps: seq<Step>)
    requires RenderablePath(steps)
    ensures ParseSteps(Render(steps)[1..]) == Some(steps)
  {
    var rest := Render(steps[1..]);
    RenderFirst(steps);
    assert WellFormedStep(steps[0]) && RenderableStep(steps[0]);
    if |steps| > 1 {
      RenderablePathTail(steps);
      RenderFirst(steps[1..]);
      ParseStepText(steps[0], rest);
      ParseStepsRender(steps[1..]);
      ParseStepsUnfold(StepText(steps[0]) + rest, steps[0], rest);
      assert [steps[0]] + steps[1..] == steps;
    } else {
      assert rest == [];
      ParseStepText(steps[0], rest);
      ParseStepsUnfold(StepText(steps[0]) + rest, steps[0], rest);
      assert [steps[0]] == steps;
    }
  }

  /** Parse inverts Render on every well-formed path whose predicate values can be quoted. */
  lemma ParseRender(steps: seq<Step>)
    requires WellFormedPath(steps) && RenderablePath(steps)
    ensures Parse(Render(steps)) == Ok(steps)
  {
    ParseStepsRender(steps);
  }

  // ---------------------------------------------------------------------------
  // Spellings: every text Parse accepts, and every text it rejects

  /** How the predicate of a step is written: not at all, as a run of digits
      (leading zeros allowed), or as a comparison with `before` and `after`
      spaces around '=' and `quote` around the value. */
  datatype Spelling = Bare | DigitRun(digits: string) | Compared(before: nat, after: nat, quote: char)

  /** Whether `sp` is a way to write the predicate `p`. */
  predicate PredicateFits(p: Predicate, sp: Spelling)
  {
    match p
    case NoPredicate => sp == Bare
    case Position(n) => sp.DigitRun? && IsDigits(sp.digits) && DigitsValue(sp.digits) == n
    case AttributeEquals(_, v) => sp.Compared? && CanQuote(sp.quote, v)
    case ChildEquals(_, v) => sp.Compared? && CanQuote(sp.quote, v)
  }

  predicate StepFits(step: Step, sp: Spelling)
  {
    match step
    case AttributeStep(_) => sp == Bare
    case ElementStep(_, p) => PredicateFits(p, sp)
  }

  /** The text of predicate `p` after its '[', written with `sp`. */
  function SpelledPredicate(p: Predicate, sp: Spelling): (t: string)
    requires p != NoPredicate && PredicateFits(p, sp)
    ensures |t| > 0 && t[|t| - 1] == ']'
  {
    match p
    case Position(_) => sp.digits + "]"
    case AttributeEquals(a, v) => "@" + ComparisonText(a, sp.before, sp.after, sp.quote, v) + "]"
    case ChildEquals(c, v) => ComparisonText(c, sp.before, sp.after, sp.quote, v) + "]"
  }

  /** The text after an element name, written with `sp`. */
  function SpelledTail(p: Predicate, sp: Spelling): string
    requires PredicateFits(p, sp)
  {
    if p == NoPredicate then "" else "[" + SpelledPredicate(p, sp)
  }

  /** The text of `step`, written with `sp`. */
  function SpelledStep(step: Step, sp: Spelling): string
    requires StepFits(step, sp)
  {
    match step
    case AttributeStep(name) => "@" + name
    case ElementStep(name, p) => name + SpelledTail(p, sp)
  }

  /** One spelling per step. */
  predicate Fitting(steps: seq<Step>, sps: seq<Spelling>)
  {
    |sps| == |steps| && forall i :: 0 <= i < |steps| ==> StepFits(steps[i], sps[i])
  }

  /** The path `steps`, each step written with its spelling. */
  function SpelledPath(steps: seq<Step>, sps: seq<Spelling>): string
    requires Fitting(steps, sps)
  {
    if steps == [] then ""
    else
      assert forall i :: 0 <= i < |steps| - 1 ==> steps[1..][i] == steps[i + 1] && sps[1..][i] == sps[i + 1];
      "/" + SpelledStep(steps[0], sps[0]) + SpelledPath(steps[1..], sps[1..])
  }

  /** `s` is one way to write the path `steps`. */
  ghost predicate Spells(steps: seq<Step>, s: string)
  {
    exists sps :: Fitting(steps, sps) && SpelledPath(steps, sps) == s
  }

  // --- every spelling of a well-formed path parses back ---

  lemma {:induction false} ParseSpelledPredicate(p: Predicate, sp: Spelling, rest: string)
    requires p != NoPredicate && WellFormedPredicate(p) && PredicateFits(p, sp)
    ensures ParsePredicate(SpelledPredicate(p, sp) + rest) == Some((p, rest))
  {
    match p
    case Position(n) =>
      ParseDigitRunText(sp.digits, rest);
    case AttributeEquals(a, v) =>
      ParseAttributeEqualsText(a, sp.before, sp.after, sp.quote, v, rest);
    case ChildEquals(c, v) =>
      ParseChildEqualsText(c, sp.before, sp.after, sp.quote, v, rest);
  }

  lemma {:induction false} ParseSpelledStep(step: Step, sp: Spelling, rest: string)
    requires WellFormedStep(step) && StepFits(step, sp)
    requires rest == [] || rest[0] == '/'
    requires step.AttributeStep? ==> rest == []
    ensures ParseStep(SpelledStep(step, sp) + rest) == Some((step, rest))
  {
    match step
    case AttributeStep(name) =>
      ParseAttributeStepText(name);
      assert SpelledStep(step, sp) + rest == "@" + name;
    case ElementStep(name, p) =>
      if p == NoPredicate {
        ParseBareStep(name, sp, rest);
      } else {
        ParseBracketStep(name, p, sp, rest);
      }
  }

  lemma {:induction false} ParseBareStep(name: string, sp: Spelling, rest: string)
    requires IsName(name) && sp == Bare
    requires rest == [] || rest[0] == '/'
    ensures ParseStep(SpelledStep(ElementStep(name, NoPredicate), sp) + rest)
         == Some((ElementStep(name, NoPredicate), rest))
  {
    assert SpelledStep(ElementStep(name, NoPredicate), sp) == name;
    ParseElementStep(name, rest, NoPredicate, rest);
  }

  lemma {:induction false} ParseBracketStep(name: string, p: Predicate, sp: Spelling, rest: string)
    requires IsName(name) && p != NoPredicate && WellFormedPredicate(p) && PredicateFits(p, sp)
    requires rest == [] || rest[0] == '/'
    ensures ParseStep(SpelledStep(ElementStep(name, p), sp) + rest) == Some((ElementStep(name, p), rest))
  {
    var pred := SpelledPredicate(p, sp);
    ParseSpelledPredicate(p, sp, rest);
    ParseTailBracket(pred + rest, p, rest);
    ParseElementStep(name, "[" + (pred + rest), p, rest);
    BracketParts(name, pred, rest);
  }

  lemma BracketParts(name: string, pred: string, rest: string)
    ensures name + ("[" + pred) + rest == name + ("[" + (pred + rest))
  {
  }

  /** The steps after the first of a well-formed path, with their spellings. */
  lemma {:induction false} PathTail(steps: seq<Step>, sps: seq<Spelling>)
    requires |steps| > 1 && AttributeLast(steps) && Fitting(steps, sps)
    requires forall i :: 0 <= i < |steps| ==> WellFormedStep(steps[i])
    ensures AttributeLast(steps[1..]) && Fitting(steps[1..], sps[1..]) && steps[0].ElementStep?
    ensures forall i :: 0 <= i < |steps[1..]| ==> WellFormedStep(steps[1..][i])
  {
    var tail := steps[1..];
    forall i | 0 <= i < |tail| - 1 ensures tail[i].ElementStep? {
      assert tail[i] == steps[i + 1];
    }
    forall i | 0 <= i < |tail| ensures WellFormedStep(tail[i]) && StepFits(tail[i], sps[1..][i]) {
      assert tail[i] == steps[i + 1];
    }
  }

  lemma {:induction false} ParseSpelledSteps(steps: seq<Step>, sps: seq<Spelling>)
    requires |steps| > 0 && AttributeLast(steps) && Fitting(steps, sps)
    requires forall i :: 0 <= i < |steps| ==> WellFormedStep(steps[i])
    ensures ParseSteps(SpelledPath(steps, sps)[1..]) == Some(steps)
  {
    var text := SpelledStep(steps[0], sps[0]);
    var rest := SpelledPath(steps[1..], sps[1..]);
    SpelledPathCons(steps, sps);
    if |steps| > 1 {
      PathTail(steps, sps);
      SpelledPathCons(steps[1..], sps[1..]);
      ParseSpelledStep(steps[0], sps[0], rest);
      ParseSpelledSteps(steps[1..], sps[1..]);
      ParseStepsUnfold(text + rest, steps[0], rest);
      assert [steps[0]] + steps[1..] == steps;
    } else {
      ParseSpelledStep(steps[0], sps[0], rest);
      ParseStepsUnfold(text + rest, steps[0], rest);
      assert [steps[0]] == steps;
    }
  }

  /** A spelled path is '/', its first step, and the spelling of the others. */
  lemma {:induction false} SpelledPathCons(steps: seq<Step>, sps: seq<Spelling>)
    requires |steps| > 0 && Fitting(steps, sps)
    ensures Fitting(steps[1..], sps[1..])
    ensures SpelledPath(steps, sps)[0] == '/'
    ensures SpelledPath(steps, sps)[1..] == SpelledStep(steps[0], sps[0]) + SpelledPath(steps[1..], sps[1..])
    ensures |steps| == 1 ==> SpelledPath(steps[1..], sps[1..]) == []
  {
    forall i | 0 <= i < |steps| - 1 ensures StepFits(steps[1..][i], sps[1..][i]) {
      assert steps[1..][i] == steps[i + 1] && sps[1..][i] == sps[i + 1];
    }
    var head := SpelledStep(steps[0], sps[0]);
    var tail := SpelledPath(steps[1..], sps[1..]);
    assert SpelledPath(steps, sps) == "/" + head + tail;
    SlashSplit(head, tail);
  }

  lemma SlashSplit(head: string, tail: string)
    ensures ("/" + head + tail)[0] == '/' && ("/" + head + tail)[1..] == head + tail
  {
  }

  // --- every text Parse accepts is a spelling of its result ---

  lemma {:induction false} ParseQuotedSpelled(s: string) returns (q: char)
    requires ParseQuoted(s).Some?
    ensures CanQuote(q, ParseQuoted(s).value.0)
    ensures s == QuotedWith(q, ParseQuoted(s).value.0) + ParseQuoted(s).value.1
  {
    q := s[0];
    var body := s[1..];
    var e := Span(body, Other(q));
    assert forall i :: 0 <= i < e ==> body[..e][i] != q;
    assert body[e] == q;
    assert s == [q] + body[..e] + [q] + body[e + 1..];
  }

  /** A prefix of `n` characters that are all spaces is `n` spaces. */
  lemma SpacesPrefix(s: string, n: nat)
    requires n <= |s| && forall i :: 0 <= i < n ==> IsSpace(s[i])
    ensures s[..n] == Spaces(n)
  {
  }

  /** What a successful ParseComparison read: a name, spaces, '=', and a quoted value. */
  lemma {:induction false} ParseComparisonUnfold(s: string)
    requires ParseComparison(s).Some?
    ensures var m := Span(s, IsNameChar);
            && s[..m] == ParseComparison(s).value.0
            && SkipSpaces(s[m..]) != [] && SkipSpaces(s[m..])[0] == '='
            && ParseQuoted(SkipSpaces(SkipSpaces(s[m..])[1..]))
                 == Some((ParseComparison(s).value.1, ParseComparison(s).value.2))
  {
  }

  lemma {:induction false} ParseComparisonSpelled(s: string) returns (a: nat, b: nat, q: char)
    requires ParseComparison(s).Some?
    ensures CanQuote(q, ParseComparison(s).value.1)
    ensures s == ComparisonText(ParseComparison(s).value.0, a, b, q, ParseComparison(s).value.1)
                 + ParseComparison(s).value.2
  {
    ParseComparisonUnfold(s);
    var m := Span(s, IsNameChar);
    var t := s[m..];
    a := Span(t, IsSpace);
    var v := SkipSpaces(t);
    var u := v[1..];
    b := Span(u, IsSpace);
    var x := SkipSpaces(u);
    q := ParseQuotedSpelled(x);
    SkipSpacesSplit(t);
    SkipSpacesSplit(u);
    HeadSplit(v, '=');
    SplitAt(s, m);
    ComparisonTextParts(s, s[..m], t, a, v, u, b, x, q, ParseComparison(s).value.1, ParseComparison(s).value.2);
  }

  lemma SplitAt(s: string, m: nat)
    requires m <= |s|
    ensures s == s[..m] + s[m..]
  {
  }

  lemma HeadSplit(s: string, c: char)
    requires s != [] && s[0] == c
    ensures s == [c] + s[1..]
  {
  }

  /** A text is its leading spaces followed by the rest. */
  lemma SkipSpacesSplit(t: string)
    ensures t == Spaces(Span(t, IsSpace)) + SkipSpaces(t)
  {
    var a := Span(t, IsSpace);
    SpacesPrefix(t, a);
    assert t == t[..a] + t[a..];
  }

  /** Puts the pieces of a comparison back together. */
  lemma ComparisonTextParts(s: string, name: string, t: string, a: nat, v: string, u: string,
                            b: nat, x: string, q: char, value: string, rest: string)
    requires s == name + t && t == Spaces(a) + v && v == "=" + u && u == Spaces(b) + x
    requires x == QuotedWith(q, value) + rest
    ensures s == ComparisonText(name, a, b, q, value) + rest
  {
  }

  lemma {:induction false} ParsePredicateSpelled(s: string) returns (sp: Spelling)
    requires ParsePredicate(s).Some?
    ensures PredicateFits(ParsePredicate(s).value.0, sp)
    ensures s == SpelledPredicate(ParsePredicate(s).value.0, sp) + ParsePredicate(s).value.1
  {
    var d := Span(s, IsDigit);
    if 0 < d < |s| && s[d] == ']' {
      sp := PositionSpelled(s);
    } else if |s| > 0 && s[0] == '@' {
      sp := AttributeEqualsSpelled(s);
    } else {
      sp := ChildEqualsSpelled(s);
    }
  }

  lemma {:induction false} PositionSpelled(s: string) returns (sp: Spelling)
    requires ParsePredicate(s).Some?
    requires 0 < Span(s, IsDigit) < |s| && s[Span(s, IsDigit)] == ']'
    ensures PredicateFits(ParsePredicate(s).value.0, sp)
    ensures s == SpelledPredicate(ParsePredicate(s).value.0, sp) + ParsePredicate(s).value.1
  {
    var d := Span(s, IsDigit);
    sp := DigitRun(s[..d]);
    SplitAt(s, d);
    HeadSplit(s[d..], ']');
  }

  lemma {:induction false} AttributeEqualsSpelled(s: string) returns (sp: Spelling)
    requires ParsePredicate(s).Some?
    requires !(0 < Span(s, IsDigit) < |s| && s[Span(s, IsDigit)] == ']')
    requires |s| > 0 && s[0] == '@'
    ensures PredicateFits(ParsePredicate(s).value.0, sp)
    ensures s == SpelledPredicate(ParsePredicate(s).value.0, sp) + ParsePredicate(s).value.1
  {
    var c := ParseComparison(s[1..]).value;
    var a, b, q := ParseComparisonSpelled(s[1..]);
    sp := Compared(a, b, q);
    HeadSplit(c.2, ']');
    HeadSplit(s, '@');
    PredicateParts(s, "@", s[1..], ComparisonText(c.0, a, b, q, c.1), c.2, c.2[1..]);
  }

  lemma {:induction false} ChildEqualsSpelled(s: string) returns (sp: Spelling)
    requires ParsePredicate(s).Some?
    requires !(0 < Span(s, IsDigit) < |s| && s[Span(s, IsDigit)] == ']')
    requires !(|s| > 0 && s[0] == '@')
    ensures PredicateFits(ParsePredicate(s).value.0, sp)
    ensures s == SpelledPredicate(ParsePredicate(s).value.0, sp) + ParsePredicate(s).value.1
  {
    var c := ParseComparison(s).value;
    var a, b, q := ParseComparisonSpelled(s);
    sp := Compared(a, b, q);
    HeadSplit(c.2, ']');
    ParsePredicateChild(s, c.0, c.1, c.2[1..]);
    ClosedParts(s, ComparisonText(c.0, a, b, q, c.1), c.2, c.2[1..]);
  }

  /** Puts a comparison, ']' and the rest back together. */
  lemma ClosedParts(s: string, comparison: string, closed: string, rest: string)
    requires s == comparison + closed && closed == "]" + rest
    ensures s == comparison + "]" + rest
  {
  }

  /** Puts a marker, a comparison, ']' and the rest back together. */
  lemma PredicateParts(s: string, mark: string, body: string, comparison: string, closed: string, rest: string)
    requires s == mark + body && body == comparison + closed && closed == "]" + rest
    ensures s == mark + comparison + "]" + rest
  {
  }

  lemma {:induction false} ParseTailSpelled(s: string) returns (sp: Spelling)
    requires ParseTail(s).Some?
    ensures PredicateFits(ParseTail(s).value.0, sp)
    ensures s == SpelledTail(ParseTail(s).value.0, sp) + ParseTail(s).value.1
  {
    if s == [] || s[0] == '/' {
      sp := Bare;
      assert SpelledTail(NoPredicate, sp) == [];
    } else {
      sp := ParsePredicateSpelled(s[1..]);
      var p, after := ParsePredicate(s[1..]).value.0, ParsePredicate(s[1..]).value.1;
      assert ParseTail(s) == Some((p, after));
      HeadSplit(s, '[');
      Rejoin(s, "[", s[1..], SpelledPredicate(p, sp), after);
    }
  }

  /** Re-associates a text cut into three pieces. */
  lemma Rejoin(s: string, head: string, body: string, middle: string, rest: string)
    requires s == head + body && body == middle + rest
    ensures s == head + middle + rest
  {
  }

  lemma {:induction false} ParseStepSpelled(s: string) returns (sp: Spelling)
    requires ParseStep(s).Some?
    ensures StepFits(ParseStep(s).value.0, sp)
    ensures s == SpelledStep(ParseStep(s).value.0, sp) + ParseStep(s).value.1
  {
    if |s| > 0 && s[0] == '@' {
      sp := Bare;
      HeadSplit(s, '@');
      assert ParseStep(s) == Some((AttributeStep(s[1..]), []));
      assert s == SpelledStep(AttributeStep(s[1..]), sp) + [];
    } else {
      var n := Span(s, IsNameChar);
      sp := ParseTailSpelled(s[n..]);
      var p, rest := ParseTail(s[n..]).value.0, ParseTail(s[n..]).value.1;
      assert ParseStep(s) == Some((ElementStep(s[..n], p), rest));
      SplitAt(s, n);
      Rejoin(s, s[..n], s[n..], SpelledTail(p, sp), rest);
    }
  }

  lemma {:induction false} ParseStepsSpelled(s: string) returns (sps: seq<Spelling>)
    requires ParseSteps(s).Some?
    decreases |s|
    ensures Fitting(ParseSteps(s).value, sps)
    ensures SpelledPath(ParseSteps(s).value, sps) == "/" + s
  {
    var step, rest := ParseStep(s).value.0, ParseStep(s).value.1;
    var sp := ParseStepSpelled(s);
    var steps := ParseSteps(s).value;
    if rest == [] {
      sps := [sp];
      assert steps == [step];
      assert SpelledPath(steps[1..], sps[1..]) == [];
    } else {
      var more := ParseStepsSpelled(rest[1..]);
      sps := [sp] + more;
      assert steps == [step] + ParseSteps(rest[1..]).value;
      assert steps[1..] == ParseSteps(rest[1..]).value && sps[1..] == more;
      assert rest == "/" + rest[1..];
      assert Fitting(steps, sps) by {
        forall i | 1 <= i < |steps| ensures StepFits(steps[i], sps[i]) {
          assert steps[i] == steps[1..][i - 1] && sps[i] == more[i - 1];
        }
      }
    }
  }

  /** Parse accepts a text exactly when it spells a well-formed path, spaces
      around '=', either quote kind and leading zeros in an index included;
      the path it yields is the one spelled. */
  lemma {:induction false} ParseSpells(s: string, steps: seq<Step>)
    ensures Parse(s) == Ok(steps) <==> WellFormedPath(steps) && Spells(steps, s)
  {
    if Parse(s) == Ok(steps) {
      var sps := ParseStepsSpelled(s[1..]);
      assert s == "/" + s[1..];
    }
    if WellFormedPath(steps) && Spells(steps, s) {
      var sps :| Fitting(steps, sps) && SpelledPath(steps, sps) == s;
      ParseSpelledSteps(steps, sps);
    }
  }

  // --- what Parse rejects ---

  /** A text that more steps can follow: nothing yet, or a path accepted by
      Parse whose last step names an element. */
  predicate Continuable(p: string)
  {
    p == [] || (Parse(p).Ok? && Parse(p).value[|Parse(p).value| - 1].ElementStep?)
  }

  /** Steps that all name elements, each well formed. */
  predicate ElementChain(steps: seq<Step>)
  {
    forall i :: 0 <= i < |steps| ==> steps[i].ElementStep? && WellFormedStep(steps[i])
  }

  lemma ElementChainTail(steps: seq<Step>)
    requires |steps| > 0 && ElementChain(steps)
    ensures ElementChain(steps[1..])
  {
    assert forall i :: 0 <= i < |steps| - 1 ==> steps[1..][i] == steps[i + 1];
  }

  /** A path Parse accepts whose last step names an element. */
  lemma ContinuableChain(p: string)
    requires p != [] && Continuable(p)
    ensures ElementChain(Parse(p).value)
  {
  }

  lemma DropFirst<T>(a: seq<T>, b: seq<T>)
    requires |a| > 0
    ensures (a + b)[1..] == a[1..] + b
  {
  }

  lemma ConsAppend<T>(a: seq<T>, b: seq<T>)
    requires |a| > 0
    ensures [a[0]] + (a[1..] + b) == a + b
  {
  }

  lemma Regroup<T>(x: seq<T>, a: seq<T>, b: seq<T>, c: seq<T>)
    requires x == a + b
    ensures x + c == a + (b + c)
  {
  }

  /** Parsing element steps followed by '/' and more text: the steps, then
      whatever the rest parses to. */
  lemma {:induction false} ParseStepsAppend(steps: seq<Step>, sps: seq<Spelling>, t: string)
    requires |steps| > 0 && Fitting(steps, sps) && ElementChain(steps) && t != [] && t[0] == '/'
    ensures ParseSteps(SpelledPath(steps, sps)[1..] + t)
         == match ParseSteps(t[1..])
            case None => None
            case Some(more) => Some(steps + more)
  {
    var text := SpelledStep(steps[0], sps[0]);
    var rest := SpelledPath(steps[1..], sps[1..]);
    SpelledPathCons(steps, sps);
    Regroup(SpelledPath(steps, sps)[1..], text, rest, t);
    ParseSpelledStep(steps[0], sps[0], rest + t);
    ParseStepsUnfold(SpelledPath(steps, sps)[1..] + t, steps[0], rest + t);
    if |steps| > 1 {
      SpelledPathCons(steps[1..], sps[1..]);
      DropFirst(rest, t);
      ElementChainTail(steps);
      ParseStepsAppend(steps[1..], sps[1..], t);
      match ParseSteps(t[1..])
      case None =>
      case Some(more) =>
        ConsAppend(steps, more);
    } else {
      assert rest + t == t;
      assert [steps[0]] == steps;
    }
  }

  /** After a text more steps can follow, '/' and a text whose steps do not
      parse make an invalid path. */
  lemma {:induction false} RejectsBadSteps(p: string, t: string)
    requires Continuable(p) && ParseSteps(t).None?
    ensures Parse(p + "/" + t).Err?
  {
    var s := p + "/" + t;
    if p == [] {
      assert s == "/" + t && s[1..] == t;
    } else {
      ContinuableChain(p);
      var steps := Parse(p).value;
      assert ParseSteps(p[1..]) == Some(steps);
      var sps := ParseStepsSpelled(p[1..]);
      HeadSplit(p, '/');
      assert SpelledPath(steps, sps) == p;
      ParseStepsAppend(steps, sps, "/" + t);
      Regroup(p + "/", p, "/", t);
      DropFirst(p, "/" + t);
    }
  }

  /** An empty step name, with '/' next or at the end of the text, is rejected:
      "/", "//a", "/a/" and "/a//b". */
  lemma {:induction false} RejectsEmptyStep(p: string, t: string)
    requires Continuable(p) && (t == [] || t[0] == '/')
    ensures Parse(p + "/" + t).Err?
  {
    assert Span(t, IsNameChar) == 0;
    RejectsBadSteps(p, t);
  }

  /** A path whose first step is an attribute is rejected: "/@id". */
  lemma {:induction false} RejectsAttributeFirst(t: string)
    ensures Parse("/@" + t).Err?
  {
    var s := "/@" + t;
    assert s[1..] == "@" + t;
    match ParseStep("@" + t)
    case None =>
    case Some((step, rest)) =>
      assert step.AttributeStep? && rest == [];
  }

  /** An attribute step anywhere but last is rejected: "/a/@id/b". */
  lemma {:induction false} RejectsInnerAttributeStep(p: string, b: string, c: string)
    requires Continuable(p)
    ensures Parse(p + "/" + ("@" + b + "/" + c)).Err?
  {
    var t := "@" + b + "/" + c;
    assert t[1..] == b + "/" + c;
    assert t[1..][|b|] == '/';
    assert Span(t[1..], IsNameChar) <= |b|;
    RejectsBadSteps(p, t);
  }

  /** Every predicate Parse reads is closed by ']'. */
  lemma {:induction false} PredicateNeedsBracket(u: string)
    ensures ParsePredicate(u).Some? ==> ']' in u
  {
    if ParsePredicate(u).Some? {
      var sp := ParsePredicateSpelled(u);
      var text := SpelledPredicate(ParsePredicate(u).value.0, sp);
      assert u[|text| - 1] == text[|text| - 1];
    }
  }

  /** A name followed by '[' and text that is no predicate is no step. */
  lemma {:induction false} StepWithBadPredicate(a: string, u: string)
    requires IsName(a) && ParsePredicate(u).None?
    ensures ParseSteps(a + "[" + u).None?
  {
    var s := a + ("[" + u);
    assert a + "[" + u == s;
    SpanPrefix(a, "[" + u, IsNameChar);
    assert s[0] == a[0];
    assert s[|a|..] == "[" + u;
    assert ("[" + u)[1..] == u;
  }

  /** A predicate without its closing ']' is rejected: "/a[1". */
  lemma {:induction false} RejectsUnclosedPredicate(p: string, a: string, u: string)
    requires Continuable(p) && IsName(a) && ']' !in u
    ensures Parse(p + "/" + (a + "[" + u)).Err?
  {
    PredicateNeedsBracket(u);
    StepWithBadPredicate(a, u);
    RejectsBadSteps(p, a + "[" + u);
  }

  /** Position 0 is rejected, however many zeros spell it: "/a[0]". */
  lemma {:induction false} RejectsZeroPosition(p: string, a: string, ds: string, r: string)
    requires Continuable(p) && IsName(a) && IsDigits(ds) && DigitsValue(ds) == 0
    ensures Parse(p + "/" + (a + "[" + (ds + "]" + r))).Err?
  {
    var u := ds + ("]" + r);
    assert ds + "]" + r == u;
    SpanPrefix(ds, "]" + r, IsDigit);
    assert u[..|ds|] == ds;
    StepWithBadPredicate(a, u);
    RejectsBadSteps(p, a + "[" + u);
  }

  /** A comparison whose value is not quoted is rejected: "/a[b=c]". */
  lemma {:induction false} RejectsUnquotedValue(p: string, a: string, c: string, v: string, r: string)
    requires Continuable(p) && IsName(a) && IsName(c)
    requires v == [] || (!IsSpace(v[0]) && !IsQuote(v[0]))
    ensures Parse(p + "/" + (a + "[" + (c + "=" + v + "]" + r))).Err?
  {
    var after := v + "]" + r;
    var u := c + ("=" + after);
    assert c + "=" + v + "]" + r == u;
    UnquotedComparison(c, after);
    var d := Span(u, IsDigit);
    assert d <= |c| by {
      assert !IsDigit(u[|c|]);
    }
    assert d < |u| && u[d] != ']';
    assert u[0] == c[0];
    StepWithBadPredicate(a, u);
    RejectsBadSteps(p, a + "[" + u);
  }

  /** A comparison with no quote after '=' does not parse. */
  lemma {:induction false} UnquotedComparison(c: string, after: string)
    requires IsName(c) && (after == [] || (!IsSpace(after[0]) && !IsQuote(after[0])))
    ensures ParseComparison(c + ("=" + after)).None?
  {
    var s := c + ("=" + after);
    SpanPrefix(c, "=" + after, IsNameChar);
    assert s[|c|..] == "=" + after;
    assert Span("=" + after, IsSpace) == 0;
    assert ("=" + after)[1..] == after;
    assert Span(after, IsSpace) == 0;
  }
}
