# Chadicus\Util\DOMDocument — a verified model

`Chadicus\Util\DOMDocument` is a static PHP utility. It has three operations on an
XML document:

- `addXPath(document, expression, value)` upserts by path. It parses a restricted,
  absolute XPath expression and walks the document from its root. At each step it
  finds the child the step designates, or creates it, and then writes `value`:
  - into the text of the last element, or
  - into the attribute named by a final `@name` step.

  A step may carry a 1-based index `[n]`, which pads the parent with empty
  siblings up to the n-th. It may instead carry an equality test:
  - `[@attr='v']` selects the first sibling with that attribute value, or else
    creates one already carrying the attribute;
  - `[child = "v"]` selects the first sibling with such a child, or else creates
    one already holding that child.

  An expression outside the grammar fails with the message
  `XPath <expression> is not valid.`
- `fromArray(array)` builds a document from a nested PHP array:
  - a key starting with `@` becomes an attribute;
  - any other key becomes a child element;
  - a list under one key becomes repeated siblings with that tag.
- `toArray(document)` is the reverse conversion. An element with neither
  attributes nor child elements is represented by its text alone.

The implementation file of the class is not part of this model. Only its test
suite, `tests/DOMDocumentTest.php`, is available, so the model follows the
behaviour those tests pin down. Where a test leaves a choice open, the model
makes one, listed below.

Files:

- `dom_tree.dfy` (`DomTree`): the element tree as a value. An element has a tag,
  ordered attributes with unique names, ordered child elements and text. The
  module also defines attribute get/set and their laws.
- `path_expression.dfy` (`PathExpression`): the path grammar and its parser.
  The grammar is the subset of the abbreviated location paths of XML Path
  Language (XPath) 1.0 (sections 2.4 and 2.5) that the library accepts.
  `Render` writes steps back as text. `ParseRender` proves that parsing the
  rendered text gives the steps back.
- `path_upsert.dfy` (`PathUpsert`): the upsert engine.
  - `Resolve` is the resolve-or-create rule for one step. The method
    `ResolveChild` pads indices one sibling at a time and is proved equal to
    `Resolve`.
  - `ApplyPath` is the whole walk as a function on values.
  - The class `Document` owns the mutable list of top-level nodes. Its method
    `AddXPath` walks the parsed steps in a loop, editing the tree in place at a
    position path. It is proved to produce exactly `Upsert`.
  - The module also proves the idempotence, read-back and dense-padding laws.
- `scenarios.dfy` (`UpsertScenarios`): each documented `addXPath` case. The
  parse and the upsert are first proved for any names and values, then for the
  literal expression of each test. Client methods drive `Document` as the tests
  do.
- `array_conversion.dfy` (`ArrayConversion`): `FromArray` and `ToArray` as
  recursive functions over a `Value` datatype. `Value` is a scalar, an ordered
  mapping or a list. The module proves both round trips:
  - `ToArray(FromArray(x)) == x` for every canonical array;
  - `FromArray(ToArray(d)) == d` for every canonical tree.

## Model

| member | source | states |
|---|---|---|
| DomTree.GetAttr | tests/DOMDocumentTest.php:258-274 | an attribute is found exactly when some attribute has that name |
| DomTree.SetAttr | tests/DOMDocumentTest.php:143-154 | setting keeps every existing attribute name at its position, adds at most one attribute, which is the new name with its value, and keeps unique names unique |
| DomTree.SetThenGet | tests/DOMDocumentTest.php:143-154 | after setting an attribute, reading it gives the value written |
| DomTree.SetKeepsOthers | tests/DOMDocumentTest.php:143-154 | setting one attribute leaves every other attribute's value unchanged |
| DomTree.SetTwice | tests/DOMDocumentTest.php:185-193 | setting the same attribute twice equals setting it once to the second value |
| DomTree.SetExisting | tests/DOMDocumentTest.php:284-302 | setting an attribute to the value it already has changes nothing |
| PathExpression.Parse | tests/DOMDocumentTest.php:50-63 | every failure is InvalidPath carrying the expression verbatim; a success is a non-empty step list that starts with an element step, has an attribute step only last and has well-formed steps; an expression not starting with '/' always fails |
| PathExpression.ParseSteps | tests/DOMDocumentTest.php:143-154 | a parsed step list is non-empty, has an attribute step at most in last position and has well-formed steps |
| PathExpression.ParseStep | tests/DOMDocumentTest.php:143-154 | one step consumes a name with an optional predicate, or `@name` that must end the expression; the rest starts at the next '/' |
| PathExpression.ParsePredicate | tests/DOMDocumentTest.php:203-274 | a predicate parses to a 1-based index, an attribute equality or a child equality, never to "no predicate" |
| PathExpression.RejectsRelativePath | tests/DOMDocumentTest.php:50-63 | `[1]/foo` is rejected with the message `XPath [1]/foo is not valid.` |
| PathExpression.ParseRender | tests/DOMDocumentTest.php:143-302 | parsing the rendering of any well-formed, quotable path gives the same steps back |
| PathExpression.ParseStepsRender | tests/DOMDocumentTest.php:143-302 | the steps after the leading '/' of a rendered path parse back to the same steps |
| PathExpression.ParseStepText | tests/DOMDocumentTest.php:143-302 | each rendered step, followed by the rest of the path, parses back to itself and leaves that rest |
| PathExpression.ParsePositionText | tests/DOMDocumentTest.php:230-248 | `n]` parses to the index predicate n for every n >= 1 |
| PathExpression.ParseAttributeEqualsText | tests/DOMDocumentTest.php:258-274 | `@a = 'v']`, with any spaces around '=' and either quote, parses to the attribute-equality predicate (a, v) |
| PathExpression.ParseChildEqualsText | tests/DOMDocumentTest.php:203-220 | `c = "v"]`, with any spaces around '=' and either quote, parses to the child-equality predicate (c, v) |
| PathExpression.ParseQuotedText | tests/DOMDocumentTest.php:203-220 | a value between two quotes of one kind that it does not contain parses back to the value |
| PathExpression.DigitsRoundTrip | tests/DOMDocumentTest.php:230-248 | the decimal digits of n read back as n |
| PathExpression.ParseDigitRunText | tests/DOMDocumentTest.php:230-248 | any run of digits with value n >= 1, leading zeros included, followed by ']' parses to the index n and leaves the text after ']' |
| PathExpression.ParsePredicateAttribute | tests/DOMDocumentTest.php:258-274 | '@' followed by a comparison closed by ']' parses to the attribute-equality predicate |
| PathExpression.ParsePredicateChild | tests/DOMDocumentTest.php:203-220 | text that is no index and does not start with '@', holding a comparison closed by ']', parses to the child-equality predicate |
| PathExpression.ParseSpelledPredicate | tests/DOMDocumentTest.php:203-274 | every spelling of a well-formed predicate (any digit run, any spaces around '=', either usable quote) parses back to the predicate and leaves what follows |
| PathExpression.ParseSpelledStep | tests/DOMDocumentTest.php:143-302 | every spelling of a well-formed step, followed by nothing or by '/', parses back to the step |
| PathExpression.ParseSpelledSteps | tests/DOMDocumentTest.php:143-302 | every spelling of a well-formed step list parses back to that list |
| PathExpression.ParseQuotedSpelled | tests/DOMDocumentTest.php:203-274 | whatever ParseQuoted accepts is the value between two quotes of one kind not inside it |
| PathExpression.ParseComparisonSpelled | tests/DOMDocumentTest.php:203-274 | whatever ParseComparison accepts is a name, spaces, '=', spaces and a quoted value |
| PathExpression.ParsePredicateSpelled | tests/DOMDocumentTest.php:203-274 | whatever ParsePredicate accepts is the spelling of the predicate it returns, closing ']' included |
| PathExpression.ParseTailSpelled | tests/DOMDocumentTest.php:203-274 | whatever follows a name and parses as a predicate, or as none, is a spelling of it |
| PathExpression.ParseStepSpelled | tests/DOMDocumentTest.php:143-302 | whatever ParseStep accepts is a spelling of the step it returns |
| PathExpression.ParseStepsSpelled | tests/DOMDocumentTest.php:143-302 | whatever ParseSteps accepts, after a '/', is a spelling of the steps it returns |
| PathExpression.ParseSpells | tests/DOMDocumentTest.php:50-63 | Parse accepts a text with some steps exactly when the steps form a well-formed path and the text spells them |
| PathExpression.ParseStepsAppend | tests/DOMDocumentTest.php:143-175 | element steps followed by '/' and more text parse to those steps followed by whatever the rest parses to, and fail when the rest fails |
| PathExpression.RejectsBadSteps | tests/DOMDocumentTest.php:50-63 | after a valid path ending in an element step (or nothing), '/' followed by text that is no step list is rejected |
| PathExpression.RejectsEmptyStep | tests/DOMDocumentTest.php:50-63 | an empty step name is rejected: "/", "//a", "/a/" and "/a//b" |
| PathExpression.RejectsAttributeFirst | tests/DOMDocumentTest.php:50-63 | a path whose first step is an attribute step is rejected |
| PathExpression.RejectsInnerAttributeStep | tests/DOMDocumentTest.php:50-63 | an attribute step followed by another step is rejected |
| PathExpression.PredicateNeedsBracket | tests/DOMDocumentTest.php:50-63 | a predicate that parses contains its closing ']' |
| PathExpression.StepWithBadPredicate | tests/DOMDocumentTest.php:50-63 | a name followed by '[' and text that is no predicate is no step list |
| PathExpression.RejectsUnclosedPredicate | tests/DOMDocumentTest.php:50-63 | a predicate without a closing ']' is rejected |
| PathExpression.RejectsZeroPosition | tests/DOMDocumentTest.php:50-63 | the index 0, spelled with any number of zeros, is rejected |
| PathExpression.UnquotedComparison | tests/DOMDocumentTest.php:50-63 | a comparison with neither a space nor a quote after '=' does not parse |
| PathExpression.RejectsUnquotedValue | tests/DOMDocumentTest.php:50-63 | a comparison whose value is not quoted is rejected |
| PathUpsert.FirstMatch | tests/DOMDocumentTest.php:284-302 | the returned position is the first sibling matching the step; none before it matches |
| PathUpsert.NthIndex | tests/DOMDocumentTest.php:230-248 | the returned position holds a sibling with the tag that has exactly n - 1 siblings with that tag before it |
| PathUpsert.Find | tests/DOMDocumentTest.php:230-302 | a found child matches the step; not finding one means fewer than n siblings with the tag for an index, and no matching sibling otherwise |
| PathUpsert.Resolve | tests/DOMDocumentTest.php:164-302 | resolve-or-create only appends, and only elements with the step's tag; the resolved child matches the step |
| PathUpsert.ResolveChild | tests/DOMDocumentTest.php:230-248 | padding by appending one empty sibling per loop turn yields exactly Resolve |
| PathUpsert.PositionPads | tests/DOMDocumentTest.php:230-248 | an index beyond the existing count appends only empty siblings, until exactly n have the tag, and resolves to the last of them |
| PathUpsert.PositionSelects | tests/DOMDocumentTest.php:230-248 | an index within the existing count creates nothing and selects the n-th sibling with the tag |
| PathUpsert.PositionIsDense | tests/DOMDocumentTest.php:230-248 | after an index step, the number of siblings with the tag is max(count, n) and the resolved one is the n-th |
| PathUpsert.FirstMatchOrSeed | tests/DOMDocumentTest.php:203-302 | an equality or plain step resolves to the first matching sibling; the children stay unchanged if one existed, otherwise exactly one fresh element is appended, with the step's name and no text, carrying only the compared attribute (`[@a='v']`) or only the compared child holding the value (`[c='v']`), or nothing for a plain step |
| PathUpsert.FindAfterResolve | tests/DOMDocumentTest.php:185-193 | after resolving and writing below a still-matching child, a lookup with the same step finds that child |
| PathUpsert.ApplyPath | tests/DOMDocumentTest.php:143-302 | writing at a path keeps the context element's tag and text, and keeps its attributes unless the step is an attribute step |
| PathUpsert.ApplyFrame | tests/DOMDocumentTest.php:143-302 | writing at a path changes no child but the one the first step resolves to, may only append children, and an attribute step changes no child |
| PathUpsert.ApplyKeeps | tests/DOMDocumentTest.php:143-302 | writing at a path loses nothing: the tag, every attribute name and every existing child, recursively, stay in place |
| PathUpsert.ResolveWellNamed | tests/DOMDocumentTest.php:143-302 | resolving a step keeps unique attribute names in every sibling |
| PathUpsert.ApplyWellNamed | tests/DOMDocumentTest.php:143-302 | writing at a path keeps attribute names unique throughout the tree |
| PathUpsert.Lookup | tests/DOMDocumentTest.php:185-193 | reading an attribute step succeeds exactly when the attribute exists; reading element steps succeeds only below a child matching the step, and a one-step read gives such a child's text |
| PathUpsert.Upsert | tests/DOMDocumentTest.php:143-302 | an upsert may only append top-level nodes and leaves every node but the one the first step resolves to unchanged |
| PathUpsert.UpsertKeeps | tests/DOMDocumentTest.php:143-302 | an upsert loses nothing of any top-level node and keeps attribute names unique throughout the document |
| PathUpsert.Select | tests/DOMDocumentTest.php:185-193 | a path reads a value only when some top-level node matches its first step |
| PathUpsert.ApplyKeepsMatch | tests/DOMDocumentTest.php:284-302 | writing below an element keeps it matching its predicate, unless the write overwrites what the predicate tests |
| PathUpsert.ApplyPathTwice | tests/DOMDocumentTest.php:185-193 | writing v1 then v2 at the same stable path equals writing v2 once |
| PathUpsert.LookupAfterApply | tests/DOMDocumentTest.php:185-193 | after writing v at a stable path, reading that path gives v |
| PathUpsert.ApplyExisting | tests/DOMDocumentTest.php:185-193 | writing the value a path already holds changes nothing |
| PathUpsert.UpsertIdempotent | tests/DOMDocumentTest.php:185-193 | on a document, upserting v1 then v2 at a stable path equals upserting v2, so no duplicate element is created |
| PathUpsert.UpsertThenSelect | tests/DOMDocumentTest.php:185-193 | after an upsert at a stable path, the path designates an existing node holding the value |
| PathUpsert.UnstableSelect | tests/DOMDocumentTest.php:258-274 | the stable-path requirement is needed: on an empty document, writing a different value at `a[@x='v1']/@x` overwrites the compared attribute, so the same path then selects nothing |
| PathUpsert.UpsertExisting | tests/DOMDocumentTest.php:185-193 | upserting the value already present at the path changes nothing |
| PathUpsert.Document.AddXPath | tests/DOMDocumentTest.php:60-302 | an invalid expression fails with InvalidPath(expression) and leaves the document unchanged; a valid one succeeds and the new top-level nodes are exactly Upsert of the old ones |
| UpsertScenarios.InvalidExpression | tests/DOMDocumentTest.php:60-63 | `[1]/foo` fails to parse with the message `XPath [1]/foo is not valid.` |
| UpsertScenarios.ParsePlainChain | tests/DOMDocumentTest.php:164-175 | `/path/to/node` parses to three plain element steps |
| UpsertScenarios.ParseAttributeChain | tests/DOMDocumentTest.php:143-154 | `/path/to/node/with/@attribute` parses to four element steps and a final attribute step |
| UpsertScenarios.ParseIndexedChain | tests/DOMDocumentTest.php:230-248 | `/root/parent/child[3]` parses to two plain steps and the index step child[3] |
| UpsertScenarios.ParseChildEqualsChain | tests/DOMDocumentTest.php:203-220 | `/root/parent[child1 = "child 1 value"]/child2` parses to a child-equality step between two plain steps |
| UpsertScenarios.ParseAttributeEqualsChain | tests/DOMDocumentTest.php:258-274 | `/root/parent[@attr='foo']/child` parses to an attribute-equality step between two plain steps |
| UpsertScenarios.ApplyPlainChain | tests/DOMDocumentTest.php:164-175 | below a childless element, plain steps create one element per step, nested, with the value in the last one |
| UpsertScenarios.PlainChainOnEmptyDocument | tests/DOMDocumentTest.php:164-175 | on an empty document, a path of plain steps creates exactly the nested chain holding the value |
| UpsertScenarios.ApplyAttributeChain | tests/DOMDocumentTest.php:143-154 | below a childless element, plain steps and a final @attr create the chain; only the last element carries the attribute, and it has no text |
| UpsertScenarios.AttributeChainOnEmptyDocument | tests/DOMDocumentTest.php:143-154 | on an empty document, plain steps and @attr create exactly the chain, with the attribute on its last element |
| UpsertScenarios.IndexedChainOnEmptyDocument | tests/DOMDocumentTest.php:230-248 | `/root/parent/child[n]` on an empty document gives n - 1 empty child siblings followed by the child holding the value |
| UpsertScenarios.ChildEqualsChainOnEmptyDocument | tests/DOMDocumentTest.php:203-220 | the parent is created seeded with the compared child and its text; the last step appends its element after that child |
| UpsertScenarios.AttributeEqualsChainOnEmptyDocument | tests/DOMDocumentTest.php:258-274 | the parent is created carrying the compared attribute, and the last step's element goes below it |
| UpsertScenarios.AttributeEqualsChainReusesElement | tests/DOMDocumentTest.php:284-302 | when a parent with the attribute already exists it is reused: still one parent, with the new child below it |
| UpsertScenarios.WritePlainChain | tests/DOMDocumentTest.php:164-175 | `/path/to/node` on an empty document gives path/to/node with the value as node's text |
| UpsertScenarios.RewritePlainChain | tests/DOMDocumentTest.php:185-193 | writing `/path/to/node` twice leaves one node, holding the second value |
| UpsertScenarios.WriteAttributeChain | tests/DOMDocumentTest.php:143-154 | the attribute expression gives path/to/node/with, with attribute="value" on `with` and no text |
| UpsertScenarios.WriteIndexedChain | tests/DOMDocumentTest.php:230-248 | `child[3]` gives two empty child elements and a third holding the value |
| UpsertScenarios.WriteChildEqualsChain | tests/DOMDocumentTest.php:203-220 | the parent holds child1 with "child 1 value", then child2 with "child 2 value" |
| UpsertScenarios.WriteAttributeEqualsChain | tests/DOMDocumentTest.php:258-274 | an empty document gives root/parent attr="foo" holding child with the value |
| UpsertScenarios.WriteAttributeEqualsChainIntoLoaded | tests/DOMDocumentTest.php:284-302 | the loaded `<root><parent attr="foo"/></root>` gets child below its existing parent, with no second parent |
| UpsertScenarios.AddXPathInvalidExpression | tests/DOMDocumentTest.php:60-63 | the call fails with the message `XPath [1]/foo is not valid.` and the document stays empty |
| UpsertScenarios.AddXPathWithAttribute | tests/DOMDocumentTest.php:143-154 | the document afterwards is `<path><to><node><with attribute="value"/></node></to></path>` |
| UpsertScenarios.AddXPathExistingElement | tests/DOMDocumentTest.php:164-175 | the document afterwards is `<path><to><node>value</node></to></path>` |
| UpsertScenarios.AddXPathTwice | tests/DOMDocumentTest.php:185-193 | after writing `value` then `new value`, the document is `<path><to><node>new value</node></to></path>` |
| UpsertScenarios.AddXPathChildElementWithValue | tests/DOMDocumentTest.php:203-220 | the document afterwards is root/parent holding child1 and then child2, with their values |
| UpsertScenarios.AddXPathWithNumericIndex | tests/DOMDocumentTest.php:230-248 | the document afterwards is root/parent with two empty child elements and then child holding `value` |
| UpsertScenarios.AddXPathWithAttributeValue | tests/DOMDocumentTest.php:258-274 | the document afterwards is root/parent attr="foo" holding child with `value` |
| UpsertScenarios.AddXPathWithAttributeValueExists | tests/DOMDocumentTest.php:284-302 | on the loaded document, the existing parent is reused and receives child with `value` |
| ArrayConversion.AttributesOfMembers | tests/DOMDocumentTest.php:91-99 | the attributes read from a mapping are exactly its '@' entries with scalar values, as name (key without '@') and value |
| ArrayConversion.AttributesOfAppend | tests/DOMDocumentTest.php:91-99 | the attributes of two runs of entries are those of the first followed by those of the second, so entry order is attribute order |
| ArrayConversion.ChildrenOf | tests/DOMDocumentTest.php:40-48 | every child element built from a mapping is named by one of its keys and that key does not start with '@' |
| ArrayConversion.FromArray | tests/DOMDocumentTest.php:22-48 | every top-level element fromArray builds is named by a key of the array that does not start with '@' |
| ArrayConversion.ElementsFor | tests/DOMDocumentTest.php:40-48 | every element built for a key carries that key as its tag; a scalar or a mapping builds exactly one element |
| ArrayConversion.ListElements | tests/DOMDocumentTest.php:40-48 | a list builds siblings that all carry the key's tag |
| ArrayConversion.ToValue | tests/DOMDocumentTest.php:109-133 | an element becomes a scalar exactly when it has neither attributes nor child elements, and never a list |
| ArrayConversion.AttributeEntries | tests/DOMDocumentTest.php:109-133 | one '@'-prefixed entry per attribute, in order, holding the attribute's value as a scalar |
| ArrayConversion.Pairs | tests/DOMDocumentTest.php:109-133 | one pair per child, in document order, keyed by the child's tag |
| ArrayConversion.GroupKeys | tests/DOMDocumentTest.php:126-133 | grouping children by tag gives unique keys, the same set of keys, in the order in which each tag first occurs, and for each key every value paired with it, in document order |
| ArrayConversion.ValuesMembers | tests/DOMDocumentTest.php:126-133 | the values collected for a key are exactly the values paired with that key |
| ArrayConversion.PairsKeySet | tests/DOMDocumentTest.php:109-133 | the keys of the child pairs are exactly the children's tags |
| ArrayConversion.ToArray | tests/DOMDocumentTest.php:109-133 | toArray gives distinct keys, and they are exactly the tags of the top-level elements |
| ArrayConversion.AttributeKeysDistinct | tests/DOMDocumentTest.php:109-133 | attributes with unique names give attribute entries with distinct keys |
| ArrayConversion.ToValueKeysUnique | tests/DOMDocumentTest.php:109-133 | the value of an element with unique attribute names and no '@' tag is a PHP array: every mapping in it has distinct keys |
| ArrayConversion.TagValuesUnique | tests/DOMDocumentTest.php:126-133 | the values collected for one tag have distinct keys in every mapping inside them |
| ArrayConversion.GroupedKeysUnique | tests/DOMDocumentTest.php:126-133 | grouped children give distinct keys, none starting with '@', and distinct keys in every mapping below |
| ArrayConversion.ToArrayKeysUnique | tests/DOMDocumentTest.php:109-133 | toArray of such a document is a PHP array: every mapping in it, at every depth, has distinct keys |
| ArrayConversion.ToArrayKeys | tests/DOMDocumentTest.php:109-133 | toArray's keys are unique, each is the tag of some top-level element, and every top-level tag is a key |
| ArrayConversion.FromArrayEmpty | tests/DOMDocumentTest.php:73-81 | the empty array gives a document without a root element, and such a document gives the empty array |
| ArrayConversion.SingleElementWithAttribute | tests/DOMDocumentTest.php:91-99 | `[tag => ['@name' => value]]` builds one element with that attribute, no children and no text, and toArray reads it back |
| ArrayConversion.FromArraySingleElementWithAttribute | tests/DOMDocumentTest.php:91-99 | `['foo' => ['@id' => 'bar']]` builds the single element `<foo id="bar"/>` |
| ArrayConversion.ToArrayFromArray | tests/DOMDocumentTest.php:22-48 | toArray(fromArray(x)) == x for every canonical array x |
| ArrayConversion.FromArrayToArray | tests/DOMDocumentTest.php:109-133 | fromArray(toArray(d)) == d for every canonical document d |
| ArrayConversion.ValueRoundTrip | tests/DOMDocumentTest.php:40-48 | the elements a canonical value builds under a key read back as that key paired with the value, or with each item of a list |
| ArrayConversion.ElementRoundTrip | tests/DOMDocumentTest.php:126-133 | building the value of a canonical element under its tag gives back exactly that element |
| ArrayConversion.LeadingAttributeEntry | tests/DOMDocumentTest.php:91-99 | when a mapping without its leading scalar '@' entry reads back unchanged as attributes and children, so does the whole mapping |
| ArrayConversion.ChildrenRoundTrip | tests/DOMDocumentTest.php:126-133 | canonical siblings, grouped by tag and built again, are the same siblings in the same order |

## Left out

- XML text: serialisation (`saveXml`, `formatOutput` indentation, the XML declaration) and parsing (`load`, `loadXml`) belong to PHP's DOM extension. Documents are compared as trees. The loaded document of the last test is built with `Document.Holding`.
- The fixture files `_files/simple.php`, `_files/simple.xml`, `_files/complex.php` and `_files/complex.xml` are not part of this model. The fixture round trips are stated for every canonical array and tree instead.
- The implementation of `Chadicus\Util\DOMDocument` is not part of this model. Where the tests leave behaviour open, the model chooses as follows.
- PathExpression.Parse: a name is any run of characters other than `/ [ ] @ = " '` and whitespace (space, tab, CR, LF). Only spaces, not tabs or line breaks, are allowed, and only around '=' in a predicate; a quoted value keeps every character between its quotes. The index `[0]` is rejected. An expression whose first step is `@name` is rejected, because the document node has no attributes.
- PathExpression.Render: quotes a predicate value with single quotes, unless the value contains one. A value containing both quote kinds has no rendering, so ParseRender requires quotable values.
- PathUpsert.ApplyPath: writing text to an element keeps its child elements. The DOM's replacement of all child nodes when text content is assigned is not modelled, because text and child elements are separate fields here.
- PathUpsert.ApplyPath: a second top-level element may be created under the document node. The DOM would refuse it, but the tests never do this.
- PathUpsert.UpsertThenSelect: requires a stable path, for the reason given for UpsertIdempotent below. UnstableSelect shows why: on an empty document, writing "2" at `/a[@x='1']/@x` sets x to 2, so the same path no longer selects anything.
- PathUpsert.UpsertIdempotent: requires a stable path, one where no step overwrites the attribute or child that the predicate of the step before it compares. Otherwise a second write does not find the first write's element again and creates another one.
- UpsertScenarios.ChildEqualsChainOnEmptyDocument: requires the compared child and the last step to have different names. The test uses child1 and child2.
- ArrayConversion.ToArrayFromArray: holds only for canonical arrays, that is:
  - unique keys;
  - attribute keys first, with scalar values;
  - no empty mappings;
  - lists of at least two items, none of them a list.

  Other arrays lose information: an empty mapping comes back as an empty scalar, and a one-item list as its item.
- ArrayConversion.FromArrayToArray: holds only for canonical trees, that is:
  - no tag starting with '@';
  - unique attribute names on every element;
  - no text on an element that has attributes or child elements (mixed content is dropped by toArray);
  - siblings with the same tag are adjacent (toArray groups them, so interleaved tags come back reordered).
- ArrayConversion.FromArray: an '@' key at the top level is ignored, because the document node has no attributes. An '@' key whose value is not a scalar is skipped. Several top-level keys give several top-level elements.
- ArrayConversion.FromArray: PHP integer keys and values are stringified by PHP before the DOM sees them; the model takes keys and scalars as strings.
- PathUpsert.Document.AddXPath: the PHP value argument may be omitted (the invalid-expression test calls it with two arguments), and its default is not visible in the tests. The model always takes a string. Its invalid-expression scenario passes "", which cannot matter there, because the parse fails before any value is written.
- ArrayConversion.ToArrayKeysUnique: requires unique attribute names and no tag starting with '@'. A document loaded by PHP's DOM always has both, but the model's trees are plain values.
- ArrayConversion.FromArray: attributes are appended in key order. Keys of a PHP array are unique, so this equals setting them one by one.
- Exceptions other than the invalid-expression DOMException are not modelled. PHP's DOM may also reject names that are not valid XML names; here any non-empty name of name characters is accepted.
