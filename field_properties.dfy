/** What the field processor promises, proved about the functions that model
    its loops: the path grammar, padding and entering, attribute and multivalue
    leaves, early stops, and selector resolution. */
module FieldProperties {
  import opened Wrappers
  import opened Strings
  import opened Constants
  import opened Dom
  import opened Fields

  // ---------------------------------------------------------------------------
  // The grammar
  // ---------------------------------------------------------------------------

  /** A component without `$` names an attribute. */
  lemma ClassifyAttribute(attr: string)
    requires PairSeparator !in attr
    ensures Classify(attr) == AttributeLeaf(attr)
  {
    SplitFree(attr, PairSeparator);
  }

  /** The component `name$n` written for a position `n` is an element step
      whose position reads back as `n`. */
  lemma ElementComponent(name: string, n: int)
    requires PairSeparator !in name
    ensures Classify(name + [PairSeparator] + IntToString(n)) == ElementStep(name, IntToString(n))
    ensures ParseInt(IntToString(n)) == Some(n)
  {
    IntToStringFree(n, PairSeparator);
    ClassifyElementStep(name, IntToString(n));
    ParseIntOfString(n);
  }

  /** `name$n` is an element step. */
  lemma ClassifyElementStep(name: string, index: string)
    requires PairSeparator !in name && PairSeparator !in index
    ensures Classify(name + [PairSeparator] + index) == ElementStep(name, index)
  {
    SplitAt(name, index, PairSeparator);
    SplitFree(index, PairSeparator);
  }

  /** `name$$attr` is a multivalue leaf. */
  lemma ClassifyMultivalue(name: string, attr: string)
    requires PairSeparator !in name && PairSeparator !in attr
    ensures Classify(name + MultiSeparator + attr) == MultivalueLeaf(name, attr)
  {
    var tail := [PairSeparator] + attr;
    assert name + MultiSeparator + attr == name + [PairSeparator] + tail;
    assert tail == [] + [PairSeparator] + attr;
    SplitAt(name, tail, PairSeparator);
    SplitAt([], attr, PairSeparator);
    SplitFree(attr, PairSeparator);
  }

  /** A path `/model$n/...` yields its model name and all its components,
      the model's own step included. */
  lemma ModelNameOfPath(model: string, index: string, rest: seq<string>)
    requires PathSeparator !in model && PairSeparator !in model
    requires PathSeparator !in index && PairSeparator !in index
    requires forall k :: 0 <= k < |rest| ==> PathSeparator !in rest[k]
    ensures ModelNameAndComponents(Join([""] + [model + [PairSeparator] + index] + rest, PathSeparator))
         == Some((model, [model + [PairSeparator] + index] + rest))
  {
    var first := model + [PairSeparator] + index;
    var parts := [""] + [first] + rest;
    forall k | 0 <= k < |parts|
      ensures PathSeparator !in parts[k]
    {
      if k >= 2 {
        assert parts[k] == rest[k - 2];
      }
    }
    SplitJoin(parts, PathSeparator);
    SplitAt(model, index, PairSeparator);
    SplitFree(index, PairSeparator);
    assert parts[1..] == [first] + rest;
  }

  /** Fields that are selectors, that have no `/`, or whose first named
      component does not have exactly one `$` leave the documents alone. */
  lemma SkippedFields(docs: map<string, Node>, field: string, value: Value, valuesAreLists: bool)
    requires AllDocuments(docs) && Conforms(value, valuesAreLists)
    ensures SelectorIndicator in field ==> BuildField(docs, field, value, valuesAreLists) == Completion(docs, None)
    ensures PathSeparator !in field ==> BuildField(docs, field, value, valuesAreLists) == Completion(docs, None)
    ensures (var parts := Split(field, PathSeparator);
             |parts| >= 2 && Count(parts[1], PairSeparator) != 1)
            ==> BuildField(docs, field, value, valuesAreLists) == Completion(docs, None)
  {
    if PathSeparator !in field {
      SplitFree(field, PathSeparator);
    }
    var parts := Split(field, PathSeparator);
    if |parts| >= 2 {
      SplitPiecesFree(parts[1], PairSeparator);
    }
  }

  // ---------------------------------------------------------------------------
  // One document per model
  // ---------------------------------------------------------------------------

  /** A processed field creates its model's document if there is none yet and
      otherwise continues the one there; other models' documents are untouched. */
  lemma OneDocumentPerModel(docs: map<string, Node>, field: string, value: Value, valuesAreLists: bool,
                            model: string, components: seq<string>)
    requires AllDocuments(docs) && Conforms(value, valuesAreLists)
    requires SelectorIndicator !in field && ModelNameAndComponents(field) == Some((model, components))
    ensures var r := BuildField(docs, field, value, valuesAreLists);
            && r.documents.Keys == docs.Keys + {model}
            && (forall m :: m in docs && m != model ==> r.documents[m] == docs[m])
            && (model !in docs ==>
                  r.documents[model] == Walk(Walking(Document([Element(model, map[], [])]), []),
                                             components, field, value, valuesAreLists).doc)
            && (model in docs ==>
                  r.documents[model] == Walk(Walking(docs[model], []), components, field, value, valuesAreLists).doc)
  {
  }

  /** Building never drops a document. */
  lemma {:induction false} DocumentsKept(docs: map<string, Node>, fields: seq<(string, Value)>, valuesAreLists: bool)
    requires AllDocuments(docs) && AllConform(fields, valuesAreLists)
    ensures docs.Keys <= BuildDocuments(docs, fields, valuesAreLists).documents.Keys
    decreases |fields|
  {
    if fields != [] {
      var r := BuildField(docs, fields[0].0, fields[0].1, valuesAreLists);
      if r.failure.None? {
        DocumentsKept(r.documents, fields[1..], valuesAreLists);
      }
    }
  }

  // ---------------------------------------------------------------------------
  // Composition of walks
  // ---------------------------------------------------------------------------

  lemma {:induction false} WalkAppend(s: WalkState, a: seq<string>, b: seq<string>,
                                      field: string, value: Value, valuesAreLists: bool)
    requires Conforms(value, valuesAreLists) && Ready(s, a) && Ready(s, a + b)
    ensures Ready(Walk(s, a, field, value, valuesAreLists), b)
    ensures Walk(s, a + b, field, value, valuesAreLists)
         == Walk(Walk(s, a, field, value, valuesAreLists), b, field, value, valuesAreLists)
    decreases |a|
  {
    if a == [] {
      assert a + b == b;
    } else if s.Walking? {
      assert (a + b)[0] == a[0] && (a + b)[1..] == a[1..] + b;
      var s' := Step(s, a[0], field, value, valuesAreLists);
      WalkAppend(s', a[1..], b, field, value, valuesAreLists);
    }
  }

  // ---------------------------------------------------------------------------
  // Entering an element
  // ---------------------------------------------------------------------------

  /** `_enter_element` only changes the children of the node it works on: the
      old children keep their places, placeholders fill the gap, and at most
      the entered slot differs. */
  lemma EnterAtChildren(t: Node, c: Address, name: string, index: nat)
    requires IsContainer(t, c)
    ensures var r := EnterAt(t, c, name, index);
            var cs := NodeAt(t, c).children;
            var cs' := NodeAt(r.doc, c).children;
            && NodeAt(r.doc, c) == NodeAt(t, c).(children := cs')
            && |cs'| == |Padded(cs, index)|
            && ElementCount(cs') == (if index + 1 > ElementCount(cs) then index + 1 else ElementCount(cs))
            && (forall k :: 0 <= k < |cs'| && (r.Conflict? || k != r.cursor[|c|]) ==>
                  cs'[k] == if k < |cs| then cs[k] else PlaceholderNode)
  {
    hide ReplaceAt, Lookup;
    var here := NodeAt(t, c);
    var cs := here.children;
    var padded := Padded(cs, index);
    PaddedSpec(cs, index);
    var pos := ElementPos(padded, index);
    var r := EnterAt(t, c, name, index);
    if padded[pos].name == PlaceholderName {
      var n := here.(children := padded[pos := Element(name, map[], [])]);
      ReplaceAtSelf(t, c, n);
      ElementCountUpdate(padded, pos, Element(name, map[], []));
      assert r.cursor[|c|] == pos;
    } else {
      var n := here.(children := padded);
      ReplaceAtSelf(t, c, n);
    }
  }

  /** The entered slot is the one at element position `index`: a placeholder
      there is replaced by a new, empty element with the requested name, an
      element with that name is entered as it is, and any other element makes
      the step fail, naming what was found and changing nothing. */
  lemma EnterAtSlot(t: Node, c: Address, name: string, index: nat)
    requires IsContainer(t, c)
    ensures var r := EnterAt(t, c, name, index);
            var cs := NodeAt(t, c).children;
            && (r.Conflict? <==>
                  index < ElementCount(cs) && cs[ElementPos(cs, index)].name != name
                  && cs[ElementPos(cs, index)].name != PlaceholderName)
            && (r.Conflict? ==> r.found == cs[ElementPos(cs, index)].name && r.doc == t)
            && (r.Entered? ==>
                  var pos := r.cursor[|c|];
                  && ElementCount(NodeAt(r.doc, c).children[..pos]) == index
                  && NodeAt(r.doc, r.cursor)
                     == if pos < |cs| && cs[pos].name != PlaceholderName then cs[pos]
                        else Element(name, map[], []))
  {
    var here := NodeAt(t, c);
    var cs := here.children;
    var padded := Padded(cs, index);
    PaddedSpec(cs, index);
    var pos := ElementPos(padded, index);
    var r := EnterAt(t, c, name, index);
    if index < ElementCount(cs) {
      assert padded == cs;
    } else {
      assert padded[pos] == PlaceholderNode;
    }
    if padded[pos].name == PlaceholderName {
      var n := here.(children := padded[pos := Element(name, map[], [])]);
      ReplaceAtSelf(t, c, n);
      ElementCountUpdate(padded, pos, Element(name, map[], []));
      ReplacedChild(t, c, n, pos);
    } else {
      var n := here.(children := padded);
      ReplaceAtSelf(t, c, n);
      ReplacedChild(t, c, n, pos);
      ReplaceAtSame(t, c);
    }
  }

  /** Looking up (`_find_element`) finds exactly the elements that creating
      (`_enter_element`) would enter without changing the document. */
  lemma FindMatchesEnter(t: Node, c: Address, name: string, index: nat)
    requires IsContainer(t, c) && name != PlaceholderName
    ensures FindAt(t, c, name, index).Some?
            <==> EnterAt(t, c, name, index).Entered? && EnterAt(t, c, name, index).doc == t
    ensures FindAt(t, c, name, index).Some?
            ==> EnterAt(t, c, name, index).cursor == FindAt(t, c, name, index).value
  {
    var here := NodeAt(t, c);
    var cs := here.children;
    var padded := Padded(cs, index);
    PaddedSpec(cs, index);
    var pos := ElementPos(padded, index);
    var r := EnterAt(t, c, name, index);
    EnterAtChildren(t, c, name, index);
    EnterAtSlot(t, c, name, index);
    if index < ElementCount(cs) && cs[ElementPos(cs, index)].name == name {
      assert padded == cs;
      assert here.(children := cs) == here;
      ReplaceAtSame(t, c);
    }
    if r.Entered? && r.doc == t {
      assert NodeAt(r.doc, c).children == cs;
      assert |cs| == |padded|;
      assert index < ElementCount(cs);
      assert padded == cs;
      if padded[pos].name == PlaceholderName {
        var n := here.(children := padded[pos := Element(name, map[], [])]);
        ReplacedChild(t, c, n, pos);
        assert NodeAt(r.doc, c + [pos]) == Element(name, map[], []);
        LookupChild(t, c, pos);
        assert false;
      }
    }
  }

  /** A component classified as `name$position` is handled by the element
      step at the walk's cursor. */
  lemma ElementStepIs(d: Node, c: Address, component: string, name: string, position: string,
                      field: string, value: Value, valuesAreLists: bool)
    requires Conforms(value, valuesAreLists) && ValidAddress(d, c) && !NodeAt(d, c).Text?
    requires Classify(component) == ElementStep(name, position)
    ensures Ready(Walking(d, c), [component])
    ensures Step(Walking(d, c), component, field, value, valuesAreLists)
            == EnterStep(d, c, name, position, ParseInt(position), field)
  {
  }

  /** A position that reads as a positive `n` is `_enter_element` at
      position n - 1. */
  lemma EnterStepEnters(d: Node, c: Address, name: string, position: string, n: int, field: string)
    requires ValidAddress(d, c) && !NodeAt(d, c).Text?
    requires n >= 1
    ensures EnterStep(d, c, name, position, Some(n), field) == Entering(EnterAt(d, c, name, n - 1), field, name, n - 1)
  {
  }

  /** A `name$n` step onto a slot held by an element of another name raises
      `FieldsError` naming the field, the requested name, the zero-based
      index and the name found. */
  lemma ConflictRaisesFieldsError(t: Node, c: Address, field: string, name: string, n: nat,
                                  value: Value, valuesAreLists: bool)
    requires Conforms(value, valuesAreLists) && ValidAddress(t, c) && NodeAt(t, c).Element?
    requires PairSeparator !in name
    requires var cs := NodeAt(t, c).children;
             1 <= n && n - 1 < ElementCount(cs) && cs[ElementPos(cs, n - 1)].name != name
             && cs[ElementPos(cs, n - 1)].name != PlaceholderName
    ensures var cs := NodeAt(t, c).children;
            Step(Walking(t, c), name + [PairSeparator] + IntToString(n), field, value, valuesAreLists)
            == Failed(t, FieldsError(field, name, n - 1, cs[ElementPos(cs, n - 1)].name))
  {
    hide ParseInt;
    ElementComponent(name, n);
    ElementStepIs(t, c, name + [PairSeparator] + IntToString(n), name, IntToString(n), field, value, valuesAreLists);
    EnterStepConflict(t, c, name, IntToString(n), n, field);
  }

  /** A `name$position` step whose position reads as `n`, onto a slot held by
      an element of another name, fails with the document unchanged. */
  lemma EnterStepConflict(t: Node, c: Address, name: string, position: string, n: int, field: string)
    requires IsContainer(t, c)
    requires n >= 1
    requires var cs := NodeAt(t, c).children;
             n - 1 < ElementCount(cs) && cs[ElementPos(cs, n - 1)].name != name
             && cs[ElementPos(cs, n - 1)].name != PlaceholderName
    ensures var cs := NodeAt(t, c).children;
            EnterStep(t, c, name, position, Some(n), field)
            == Failed(t, FieldsError(field, name, n - 1, cs[ElementPos(cs, n - 1)].name))
  {
    EnterAtConflict(t, c, name, n - 1);
  }

  /** `_enter_element` onto a slot held by an element of another name changes
      nothing and reports the name found. */
  lemma EnterAtConflict(t: Node, c: Address, name: string, index: nat)
    requires IsContainer(t, c)
    requires var cs := NodeAt(t, c).children;
             index < ElementCount(cs) && cs[ElementPos(cs, index)].name != name
             && cs[ElementPos(cs, index)].name != PlaceholderName
    ensures var cs := NodeAt(t, c).children;
            EnterAt(t, c, name, index) == Conflict(t, cs[ElementPos(cs, index)].name)
  {
    EnterAtSlot(t, c, name, index);
  }

  // ---------------------------------------------------------------------------
  // Leaves and stops
  // ---------------------------------------------------------------------------

  /** A component with an unrecognised shape is skipped. */
  lemma UnrecognisedSkipped(s: WalkState, component: string, rest: seq<string>,
                            field: string, value: Value, valuesAreLists: bool)
    requires Conforms(value, valuesAreLists) && Ready(s, [component] + rest)
    requires Classify(component) == Unrecognised
    ensures Ready(s, rest)
    ensures Walk(s, [component] + rest, field, value, valuesAreLists)
         == Walk(s, rest, field, value, valuesAreLists)
  {
    assert ([component] + rest)[1..] == rest;
  }

  /** A position of 0 or less ends the walk of the field; what the earlier
      components built stays. */
  lemma NonPositiveIndexStops(s: WalkState, components: seq<string>, i: nat, d: Node, c: Address,
                              field: string, value: Value, valuesAreLists: bool)
    requires Conforms(value, valuesAreLists) && Ready(s, components) && i < |components|
    requires Classify(components[i]).ElementStep?
    requires var n := ParseInt(Classify(components[i]).index); n.Some? && n.value <= 0
    requires Ready(s, components[..i])
    requires Walk(s, components[..i], field, value, valuesAreLists) == Walking(d, c)
    ensures Walk(s, components, field, value, valuesAreLists) == Stopped(d)
  {
    hide *;
    var rest := components[i..];
    assert components == components[..i] + rest;
    WalkAppend(s, components[..i], rest, field, value, valuesAreLists);
    assert rest == [components[i]] + components[i + 1..];
    NonPositiveStops(d, c, components[i], components[i + 1..], field, value, valuesAreLists);
  }

  /** `NonPositiveIndexStops` at the step itself. */
  lemma NonPositiveStops(d: Node, c: Address, component: string, more: seq<string>,
                         field: string, value: Value, valuesAreLists: bool)
    requires Conforms(value, valuesAreLists) && ValidAddress(d, c) && !NodeAt(d, c).Text?
    requires Classify(component).ElementStep?
    requires var n := ParseInt(Classify(component).index); n.Some? && n.value <= 0
    ensures Ready(Walking(d, c), [component] + more)
    ensures Walk(Walking(d, c), [component] + more, field, value, valuesAreLists) == Stopped(d)
  {
    hide ParseInt;
    var step := Classify(component);
    ElementStepIs(d, c, component, step.name, step.index, field, value, valuesAreLists);
    assert EnterStep(d, c, step.name, step.index, ParseInt(step.index), field) == Stopped(d);
    assert ([component] + more)[0] == component;
  }

  /** An attribute leaf sets that attribute, without carriage returns, on the
      current element (taking the first value in list mode) and ends the walk. */
  lemma AttributeLeafEndsWalk(d: Node, c: Address, attr: string, rest: seq<string>,
                              field: string, value: Value, valuesAreLists: bool)
    requires Conforms(value, valuesAreLists) && ValidAddress(d, c) && NodeAt(d, c).Element?
    requires PairSeparator !in attr
    ensures Ready(Walking(d, c), [attr] + rest)
    ensures var r := Walk(Walking(d, c), [attr] + rest, field, value, valuesAreLists);
            if valuesAreLists && value.texts == [] then r == Failed(d, IndexError)
            else
              var v := Remove(if valuesAreLists then value.texts[0] else value.text, '\r');
              && r.Stopped?
              && ValidAddress(r.doc, c)
              && NodeAt(r.doc, c) == NodeAt(d, c).(attrs := NodeAt(d, c).attrs[attr := v])
              && r.doc == ReplaceAt(d, c, NodeAt(r.doc, c))
  {
    ClassifyAttribute(attr);
    assert ([attr] + rest)[0] == attr;
  }

  /** The elements a multivalue leaf appends: one per value, in order. */
  lemma {:induction false} ValueElementsSpec(name: string, attr: string, values: seq<string>)
    ensures forall k :: 0 <= k < |values| ==>
              ValueElements(name, attr, values)[k] == Element(name, map[attr := Remove(values[k], '\r')], [])
    decreases |values|
  {
    if values != [] {
      var init := values[..|values| - 1];
      ValueElementsSpec(name, attr, init);
      forall k | 0 <= k < |values| - 1
        ensures values[k] == init[k]
      {
      }
    }
  }

  /** A `name$$attr` leaf appends one new `name` element per value after the
      existing children and stays at the same node. */
  lemma MultivalueAppends(d: Node, c: Address, name: string, attr: string,
                          field: string, value: Value, valuesAreLists: bool)
    requires Conforms(value, valuesAreLists) && ValidAddress(d, c) && NodeAt(d, c).Element?
    requires PairSeparator !in name && PairSeparator !in attr
    ensures var values := if valuesAreLists then value.texts else [value.text];
            var r := Step(Walking(d, c), name + MultiSeparator + attr, field, value, valuesAreLists);
            && r.Walking? && r.cursor == c
            && NodeAt(r.doc, c)
               == NodeAt(d, c).(children := NodeAt(d, c).children + ValueElements(name, attr, values))
  {
    ClassifyMultivalue(name, attr);
  }

  // ---------------------------------------------------------------------------
  // Selectors
  // ---------------------------------------------------------------------------

  /** A selector field is `name=path`: the name is the text before the first
      `=`, the path everything after it, further `=` included. */
  lemma SelectorPartsOf(name: string, path: string)
    requires SelectorIndicator !in name
    ensures SelectorParts(name + [SelectorIndicator] + path) == Some((name, path))
  {
    SplitAt(name, path, SelectorIndicator);
    JoinSplit(path, SelectorIndicator);
    assert Split(name + [SelectorIndicator] + path, SelectorIndicator)[1..] == Split(path, SelectorIndicator);
  }

  /** Exactly the fields containing `=` are selector fields. */
  lemma SelectorFields(field: string)
    ensures SelectorParts(field).Some? <==> SelectorIndicator in field
  {
    SplitPiecesFree(field, SelectorIndicator);
    CountIn(field, SelectorIndicator);
  }

  /** A selector whose model has no document is skipped. */
  lemma MissingDocumentSkipped(docs: map<string, Node>, field: string, create: bool,
                               name: string, path: string, model: string, components: seq<string>)
    requires AllDocuments(docs)
    requires SelectorParts(field) == Some((name, path))
    requires ModelNameAndComponents(path) == Some((model, components)) && model !in docs
    ensures Resolve(docs, field, create) == Skipped
  {
  }

  /** One lookup step never changes the document, and fails only on a
      position that is not a number. */
  lemma LookupStepKeepsDocument(s: SelectState, component: string, field: string)
    requires SelectReady(s, [component]) && s.Selecting?
    ensures SelectStep(s, component, field, false).doc == s.doc
    ensures SelectStep(s, component, field, false).SelectFailed?
            ==> SelectStep(s, component, field, false).failure.ValueError?
  {
    hide ParseInt;
    match Classify(component)
    case ElementStep(name, position) =>
      SelectEnterLookup(s.doc, s.cursor, name, position, ParseInt(position), field);
    case _ =>
  }

  /** A `name$position` lookup keeps the document and fails only on a
      position that is not a number. */
  lemma SelectEnterLookup(d: Node, c: Address, name: string, position: string, parsed: Option<int>, field: string)
    requires IsContainer(d, c)
    ensures SelectEnterStep(d, c, name, position, parsed, field, false).doc == d
    ensures SelectEnterStep(d, c, name, position, parsed, field, false).SelectFailed?
            ==> SelectEnterStep(d, c, name, position, parsed, field, false).failure.ValueError?
  {
  }

  /** Looking up never changes the document, and can only fail on a position
      that is not a number. */
  lemma {:induction false} LookupKeepsDocument(s: SelectState, components: seq<string>, field: string)
    requires SelectReady(s, components) && s.Selecting?
    ensures SelectWalk(s, components, field, false).doc == s.doc
    ensures SelectWalk(s, components, field, false).SelectFailed?
            ==> SelectWalk(s, components, field, false).failure.ValueError?
    decreases |components|
  {
    if components != [] {
      var s' := SelectStep(s, components[0], field, false);
      LookupStepKeepsDocument(s, components[0], field);
      if s'.Selecting? {
        LookupKeepsDocument(s', components[1..], field);
      }
    }
  }

  /** Resolving a selector in lookup mode hands back the model's document unchanged. */
  lemma LookupResolveKeepsDocument(docs: map<string, Node>, field: string)
    requires AllDocuments(docs)
    ensures var r := Resolve(docs, field, false);
            !r.Skipped? ==> r.doc == docs[r.model]
    ensures var r := Resolve(docs, field, false);
            r.Unresolved? ==> r.failure.ValueError?
  {
    match SelectorParts(field)
    case None =>
    case Some((_, path)) =>
      match ModelNameAndComponents(path)
      case None =>
      case Some((model, components)) =>
        if model in docs {
          LookupKeepsDocument(Selecting(docs[model], []), components, field);
        }
  }

  /** In lookup mode no document is changed. */
  lemma {:induction false} LookupNeverMutates(sels: map<string, seq<Selection>>, docs: map<string, Node>,
                                              fields: seq<(string, Value)>)
    requires AllDocuments(docs)
    ensures SelectAll(sels, docs, fields, false).documents == docs
    decreases |fields|
  {
    hide SelectWalk, SelectStep, Classify, ParseInt;
    if fields != [] {
      var r := Resolve(docs, fields[0].0, false);
      LookupResolveKeepsDocument(docs, fields[0].0);
      if !r.Skipped? {
        assert docs[r.model := r.doc] == docs;
      }
      LookupNeverMutates(Record(sels, docs, r).selectors, docs, fields[1..]);
    }
  }

  /** In lookup mode a `name$n` step that finds no element of that name at that
      position selects nothing. */
  lemma MissingChildSelectsNothing(t: Node, c: Address, name: string, n: nat, rest: seq<string>, field: string)
    requires ValidAddress(t, c) && NodeAt(t, c).Element? && PairSeparator !in name && 1 <= n
    requires FindAt(t, c, name, n - 1).None?
    ensures SelectReady(Selecting(t, c), [name + [PairSeparator] + IntToString(n)] + rest)
    ensures SelectWalk(Selecting(t, c), [name + [PairSeparator] + IntToString(n)] + rest, field, false)
         == Selected(t, None)
  {
    hide ParseInt;
    var component := name + [PairSeparator] + IntToString(n);
    ElementComponent(name, n);
    SelectElementStepIs(t, c, component, name, IntToString(n), field, false);
    assert SelectEnterStep(t, c, name, IntToString(n), Some(n), field, false) == Selected(t, None);
    SelectWalkFirst(Selecting(t, c), component, rest, field, false);
  }

  /** A selector's `name$position` component is a `SelectEnterStep`. */
  lemma SelectElementStepIs(d: Node, c: Address, component: string, name: string, position: string,
                            field: string, create: bool)
    requires ValidAddress(d, c) && NodeAt(d, c).Element?
    requires Classify(component) == ElementStep(name, position)
    ensures SelectReady(Selecting(d, c), [component])
    ensures SelectStep(Selecting(d, c), component, field, create)
            == SelectEnterStep(d, c, name, position, ParseInt(position), field, create)
  {
  }

  /** The selector walk takes its first component, then the rest. */
  lemma SelectWalkFirst(s: SelectState, component: string, rest: seq<string>, field: string, create: bool)
    requires SelectReady(s, [component])
    requires s.Selecting? ==> NodeAt(s.doc, s.cursor).Element?
    ensures SelectReady(s, [component] + rest)
    ensures SelectWalk(s, [component] + rest, field, create)
         == SelectWalk(SelectStep(s, component, field, create), rest, field, create)
  {
    assert ([component] + rest)[0] == component && ([component] + rest)[1..] == rest;
  }

  /** A `name$$attr` component, or one of no known shape, is skipped by a
      selector walk. */
  lemma SelectMultivalueSkipped(s: SelectState, component: string, rest: seq<string>, field: string, create: bool)
    requires s.Selecting? ==> ValidAddress(s.doc, s.cursor) && NodeAt(s.doc, s.cursor).Element?
    requires Classify(component).MultivalueLeaf? || Classify(component).Unrecognised?
    ensures SelectReady(s, [component] + rest) && SelectReady(s, rest)
    ensures SelectWalk(s, [component] + rest, field, create) == SelectWalk(s, rest, field, create)
  {
    SelectWalkFirst(s, component, rest, field, create);
  }

  /** A position of 0 or less selects the node reached so far; the rest of
      the selector is not looked at. */
  lemma SelectNonPositiveSelectsNode(d: Node, c: Address, component: string, rest: seq<string>,
                                     field: string, create: bool)
    requires IsContainer(d, c)
    requires Classify(component).ElementStep?
    requires var n := ParseInt(Classify(component).index); n.Some? && n.value <= 0
    ensures SelectReady(Selecting(d, c), [component] + rest)
    ensures SelectWalk(Selecting(d, c), [component] + rest, field, create) == Selected(d, Some(NodeRef(c)))
  {
    hide ParseInt;
    var step := Classify(component);
    var s := Selecting(d, c);
    assert ([component] + rest)[0] == component && ([component] + rest)[1..] == rest;
    assert SelectStep(s, component, field, create)
        == SelectEnterStep(d, c, step.name, step.index, ParseInt(step.index), field, create);
    assert SelectStep(s, component, field, create) == Selected(d, Some(NodeRef(c)));
  }

  /** A resolved selector always has an entry, grown by at most the one node
      found; a skipped or failed field adds nothing. */
  lemma SelectorEntryCreated(sels: map<string, seq<Selection>>, docs: map<string, Node>, r: Resolution)
    ensures r.Resolved? ==>
              var after := Record(sels, docs, r).selectors;
              r.selector in after
              && after[r.selector] == Existing(sels, r.selector)
                                      + (if r.found.Some? then [Selection(r.model, r.found.value)] else [])
    ensures !r.Resolved? ==> Record(sels, docs, r).selectors == sels
  {
  }

  /** Selections accumulate in field order: every list only ever grows at its end. */
  lemma {:induction false} SelectorsAccumulate(sels: map<string, seq<Selection>>, docs: map<string, Node>,
                                               fields: seq<(string, Value)>, create: bool)
    requires AllDocuments(docs)
    ensures forall k :: k in sels ==>
              k in SelectAll(sels, docs, fields, create).selectors
              && sels[k] <= SelectAll(sels, docs, fields, create).selectors[k]
    decreases |fields|
  {
    if fields != [] {
      var r := Record(sels, docs, Resolve(docs, fields[0].0, create));
      assert forall k :: k in sels ==> k in r.selectors && sels[k] <= r.selectors[k];
      if r.failure.None? {
        SelectorsAccumulate(r.selectors, r.documents, fields[1..], create);
      }
    }
  }
}
