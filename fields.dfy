/** The field processor: it turns `(field, value)` pairs named by paths such as
    `/zoo$1/cage$2/name` into instance documents, one per model name, and
    resolves `selector=/path` fields to parts of those documents.

    Documents are `Dom.Node` values kept in a shared dictionary; the walking
    "current node" of the processor is an address into the document. */
module Fields {
  import opened Wrappers
  import opened Strings
  import opened Constants
  import opened Dom
  import opened Dicts

  // ---------------------------------------------------------------------------
  // Inputs and outcomes
  // ---------------------------------------------------------------------------

  /** A field value: a string, or a list of strings when the processor is
      configured with `values_are_lists`. */
  datatype Value = Str(text: string) | Strs(texts: seq<string>)

  /** The value has the shape the processor's configuration expects. */
  predicate Conforms(value: Value, valuesAreLists: bool)
  {
    value.Strs? == valuesAreLists
  }

  predicate AllConform(fields: seq<(string, Value)>, valuesAreLists: bool)
  {
    forall i :: 0 <= i < |fields| ==> Conforms(fields[i].1, valuesAreLists)
  }

  /** The exceptions that escape from the processor. */
  datatype Failure =
    | /** A slot already holds an element with another name (`FieldsError`);
          `index` is the zero-based position that was asked for. */
      FieldsError(field: string, name: string, index: int, found: string)
    | /** `int()` could not read the position text (`ValueError`). */
      ValueError(text: string)
    | /** `value[0]` of an empty list in list mode (`IndexError`). */
      IndexError

  /** Every model name maps to a document node. */
  predicate AllDocuments(docs: map<string, Node>)
  {
    forall m :: m in docs ==> docs[m].Document?
  }

  // ---------------------------------------------------------------------------
  // The path grammar
  // ---------------------------------------------------------------------------

  /** The shapes a path component can take once split on `$`. */
  datatype Component =
    | AttributeLeaf(attr: string)               // `name`
    | ElementStep(name: string, index: string)  // `name$n`
    | MultivalueLeaf(name: string, attr: string) // `name$$attr`
    | Unrecognised                               // anything else: skipped

  /** A component is an attribute leaf, the whole of it, exactly when it
      has no `$`. */
  function Classify(component: string): (r: Component)
    ensures r.AttributeLeaf? <==> PairSeparator !in component
    ensures r.AttributeLeaf? ==> r.attr == component
  {
    var t := Split(component, PairSeparator);
    ClassifyPieces(component);
    if |t| == 1 then AttributeLeaf(t[0])
    else if |t| == 2 then ElementStep(t[0], t[1])
    else if |t| == 3 && t[1] == "" then MultivalueLeaf(t[0], t[2])
    else Unrecognised
  }

  /** The pieces of each shape put back together give the component. */
  lemma ClassifyRejoins(component: string)
    ensures var r := Classify(component);
            && (r.ElementStep? ==> component == r.name + [PairSeparator] + r.index
                                   && PairSeparator !in r.name && PairSeparator !in r.index)
            && (r.MultivalueLeaf? ==> component == r.name + [PairSeparator, PairSeparator] + r.attr
                                      && PairSeparator !in r.name && PairSeparator !in r.attr)
  {
    ClassifyPieces(component);
  }

  /** The pieces of a component split on `$`, joined back. */
  lemma ClassifyPieces(component: string)
    ensures var t := Split(component, PairSeparator);
            && (|t| == 1 <==> PairSeparator !in component)
            && (forall k :: 0 <= k < |t| ==> PairSeparator !in t[k])
            && (|t| == 1 ==> component == t[0])
            && (|t| == 2 ==> component == t[0] + [PairSeparator] + t[1])
            && (|t| == 3 ==> component == t[0] + [PairSeparator] + (t[1] + [PairSeparator] + t[2]))
  {
    var c := PairSeparator;
    var t := Split(component, c);
    JoinSplit(component, c);
    SplitPiecesFree(component, c);
    CountIn(component, c);
    if |t| == 2 {
      assert t[1..] == [t[1]];
    } else if |t| == 3 {
      assert t[1..][1..] == [t[2]];
    }
  }

  /** `_get_model_name_and_components`: the model name is the name of the first
      named component, and the components returned start with that component. */
  function ModelNameAndComponents(field: string): (r: Option<(string, seq<string>)>)
    ensures r.Some? ==> r.value.1 != [] && Classify(r.value.1[0]).ElementStep?
                        && Classify(r.value.1[0]).name == r.value.0
  {
    var components := Split(field, PathSeparator);
    if |components| < 2 then None
    else
      var modelNameAndIndex := Split(components[1], PairSeparator);
      if |modelNameAndIndex| != 2 then None
      else Some((modelNameAndIndex[0], components[1..]))
  }

  // ---------------------------------------------------------------------------
  // Editing the document at the current node
  // ---------------------------------------------------------------------------

  const PlaceholderName: string := "placeholder"

  /** The element `_ensure_elements` appends to fill a gap. */
  const PlaceholderNode: Node := Element(PlaceholderName, map[], [])

  function Placeholders(n: nat): seq<Node>
  {
    if n == 0 then [] else Placeholders(n - 1) + [PlaceholderNode]
  }

  /** How many placeholders are needed before position `index` exists. */
  function Shortfall(cs: seq<Node>, index: int): nat
  {
    if index + 1 > ElementCount(cs) then index + 1 - ElementCount(cs) else 0
  }

  /** The children after `_ensure_elements(node, index)`. */
  function Padded(cs: seq<Node>, index: int): seq<Node>
  {
    cs + Placeholders(Shortfall(cs, index))
  }

  lemma {:induction false} PlaceholdersCount(n: nat)
    ensures ElementCount(Placeholders(n)) == n && |Placeholders(n)| == n
    ensures forall k :: 0 <= k < n ==> Placeholders(n)[k] == PlaceholderNode
  {
    if n > 0 {
      PlaceholdersCount(n - 1);
      var p := Placeholders(n);
      assert p == Placeholders(n - 1) + [PlaceholderNode];
      assert p[..n - 1] == Placeholders(n - 1) && p[n - 1] == PlaceholderNode;
      assert ElementCount(p) == ElementCount(Placeholders(n - 1)) + 1;
    }
  }

  /** Padding keeps the existing children in order, appends only placeholders,
      and leaves exactly enough elements for position `index`. */
  lemma PaddedSpec(cs: seq<Node>, index: int)
    ensures |cs| <= |Padded(cs, index)| && Padded(cs, index)[..|cs|] == cs
    ensures forall k :: |cs| <= k < |Padded(cs, index)| ==> Padded(cs, index)[k] == PlaceholderNode
    ensures ElementCount(Padded(cs, index))
         == if index + 1 > ElementCount(cs) then index + 1 else ElementCount(cs)
    ensures index < ElementCount(cs) ==> Padded(cs, index) == cs
  {
    var n := Shortfall(cs, index);
    PlaceholdersCount(n);
    ElementCountAppend(cs, Placeholders(n));
    assert Padded(cs, index)[..|cs|] == cs;
    if n == 0 {
      assert Padded(cs, index) == cs;
    }
  }

  /** The result of `_enter_element`: the entered element, or the name of the
      element that occupied the slot. The document keeps the padding either way. */
  datatype Entry =
    | Entered(doc: Node, cursor: Address)
    | Conflict(doc: Node, found: string)

  /** `_enter_element(node, name, index)` on the container at `c`. */
  function EnterAt(t: Node, c: Address, name: string, index: nat): (r: Entry)
    requires IsContainer(t, c)
    ensures r.doc.Document? == t.Document?
    ensures IsContainer(r.doc, c) && NodeName(NodeAt(r.doc, c)) == NodeName(NodeAt(t, c))
    ensures r.Entered? ==> |r.cursor| == |c| + 1 && r.cursor[..|c|] == c
                           && ValidAddress(r.doc, r.cursor) && NodeAt(r.doc, r.cursor).Element?
                           && NodeAt(r.doc, r.cursor).name == name
  {
    var here := NodeAt(t, c);
    var cs := Padded(here.children, index);
    PaddedSpec(here.children, index);
    var pos := ElementPos(cs, index);
    assert (c + [pos])[..|c|] == c;
    if cs[pos].name == PlaceholderName then
      var n := here.(children := cs[pos := Element(name, map[], [])]);
      ReplaceAtKind(t, c, n);
      ReplacedChild(t, c, n, pos);
      ReplaceAtSelf(t, c, n);
      Entered(ReplaceAt(t, c, n), c + [pos])
    else
      var n := here.(children := cs);
      ReplaceAtKind(t, c, n);
      ReplacedChild(t, c, n, pos);
      ReplaceAtSelf(t, c, n);
      if cs[pos].name == name then Entered(ReplaceAt(t, c, n), c + [pos])
      else Conflict(ReplaceAt(t, c, n), cs[pos].name)
  }

  /** `_find_element(node, name, index)` on the container at `c`: the address of
      the child element at position `index` if it has the name `name`. */
  function FindAt(t: Node, c: Address, name: string, index: nat): (r: Option<Address>)
    requires IsContainer(t, c)
    ensures r.Some? ==> |r.value| == |c| + 1 && r.value[..|c|] == c
                        && ValidAddress(t, r.value) && NodeAt(t, r.value).Element?
                        && NodeAt(t, r.value).name == name
  {
    var cs := NodeAt(t, c).children;
    if index < ElementCount(cs) && cs[ElementPos(cs, index)].name == name then
      var pos := ElementPos(cs, index);
      LookupChild(t, c, pos);
      assert (c + [pos])[..|c|] == c;
      Some(c + [pos])
    else None
  }

  /** `setAttributeNS` on the element at `c`. */
  function SetAttributeAt(t: Node, c: Address, attr: string, v: string): (r: Node)
    requires ValidAddress(t, c) && NodeAt(t, c).Element?
    ensures r.Document? == t.Document?
    ensures ValidAddress(r, c) && NodeAt(r, c) == NodeAt(t, c).(attrs := NodeAt(t, c).attrs[attr := v])
  {
    var n := NodeAt(t, c).(attrs := NodeAt(t, c).attrs[attr := v]);
    ReplaceAtKind(t, c, n);
    ReplaceAtSelf(t, c, n);
    ReplaceAt(t, c, n)
  }

  /** The elements a `name$$attr` component appends: one per value, carrying the
      value without carriage returns. */
  function ValueElements(name: string, attr: string, values: seq<string>): (r: seq<Node>)
    ensures |r| == |values|
  {
    if values == [] then []
    else ValueElements(name, attr, values[..|values| - 1])
         + [Element(name, map[attr := Remove(values[|values| - 1], '\r')], [])]
  }

  // ---------------------------------------------------------------------------
  // The walk of one field's components
  // ---------------------------------------------------------------------------

  /** Where the component loop of `complete_documents` is: still walking at a
      node, stopped by a `break`, or stopped by an exception. */
  datatype WalkState =
    | Walking(doc: Node, cursor: Address)
    | Stopped(doc: Node)
    | Failed(doc: Node, failure: Failure)

  /** A walk at the document node is only ever about to enter an element. */
  predicate Ready(s: WalkState, components: seq<string>)
  {
    s.Walking? ==>
      ValidAddress(s.doc, s.cursor) &&
      (NodeAt(s.doc, s.cursor).Element? ||
       (NodeAt(s.doc, s.cursor).Document? &&
        (components == [] || Classify(components[0]).ElementStep?)))
  }

  /** Where the walk goes once `_enter_element` has looked at the slot: into
      the element, or to the conflict error. */
  function Entering(e: Entry, field: string, name: string, index: int): WalkState
  {
    match e
    case Entered(d, c) => Walking(d, c)
    case Conflict(d, found) => Failed(d, FieldsError(field, name, index, found))
  }

  /** A `name$position` component at the container `c`, with `parsed` the
      position as `int()` reads it: the position must read as an integer; a
      position below 1 ends the walk quietly. */
  function EnterStep(d: Node, c: Address, name: string, position: string, parsed: Option<int>, field: string)
    : (r: WalkState)
    requires IsContainer(d, c)
    ensures r.Walking? ==> ValidAddress(r.doc, r.cursor) && NodeAt(r.doc, r.cursor).Element?
    ensures r.doc.Document? == d.Document?
  {
    match parsed
    case None => Failed(d, ValueError(position))
    case Some(n) =>
      if n - 1 < 0 then Stopped(d)
      else Entering(EnterAt(d, c, name, n - 1), field, name, n - 1)
  }

  /** One iteration of the component loop of `complete_documents`. */
  function Step(s: WalkState, component: string, field: string, value: Value, valuesAreLists: bool): (r: WalkState)
    requires Conforms(value, valuesAreLists) && Ready(s, [component])
    ensures r.Walking? ==> ValidAddress(r.doc, r.cursor) && NodeAt(r.doc, r.cursor).Element?
    ensures r.doc.Document? == s.doc.Document?
  {
    if !s.Walking? then s
    else
      match Classify(component)
      case AttributeLeaf(attr) =>
        if valuesAreLists && value.texts == [] then Failed(s.doc, IndexError)
        else
          var v := if valuesAreLists then value.texts[0] else value.text;
          Stopped(SetAttributeAt(s.doc, s.cursor, attr, Remove(v, '\r')))
      case ElementStep(name, position) =>
        EnterStep(s.doc, s.cursor, name, position, ParseInt(position), field)
      case MultivalueLeaf(name, attr) =>
        var values := if valuesAreLists then value.texts else [value.text];
        var d := AppendAt(s.doc, s.cursor, ValueElements(name, attr, values));
        Walking(d, s.cursor)
      case Unrecognised => s
  }

  /** The whole component loop for one field. */
  function Walk(s: WalkState, components: seq<string>, field: string, value: Value, valuesAreLists: bool): (r: WalkState)
    requires Conforms(value, valuesAreLists) && Ready(s, components)
    ensures r.Walking? && components != [] ==> ValidAddress(r.doc, r.cursor) && NodeAt(r.doc, r.cursor).Element?
    ensures r.doc.Document? == s.doc.Document?
    ensures components == [] ==> r == s
    decreases |components|
  {
    if components == [] || !s.Walking? then s
    else Walk(Step(s, components[0], field, value, valuesAreLists), components[1..], field, value, valuesAreLists)
  }

  // ---------------------------------------------------------------------------
  // complete_documents as a function of the fields
  // ---------------------------------------------------------------------------

  /** The documents after some fields, and the exception that ended the loop. */
  datatype Completion = Completion(documents: map<string, Node>, failure: Option<Failure>)

  /** `new_instance(name)`: a document whose only child is an empty element
      named after the model. */
  function NewInstance(model: string): Node
  {
    Document([Element(model, map[], [])])
  }

  /** One iteration of the field loop of `complete_documents`. */
  function BuildField(docs: map<string, Node>, field: string, value: Value, valuesAreLists: bool): (r: Completion)
    requires AllDocuments(docs) && Conforms(value, valuesAreLists)
    ensures AllDocuments(r.documents)
  {
    if SelectorIndicator in field then Completion(docs, None)
    else
      match ModelNameAndComponents(field)
      case None => Completion(docs, None)
      case Some((model, components)) =>
        var doc := if model in docs then docs[model] else NewInstance(model);
        var s := Walk(Walking(doc, []), components, field, value, valuesAreLists);
        Completion(docs[model := s.doc], if s.Failed? then Some(s.failure) else None)
  }

  /** `complete_documents(documents, fields)`: the fields in order, up to the
      first exception. */
  function BuildDocuments(docs: map<string, Node>, fields: seq<(string, Value)>, valuesAreLists: bool): (r: Completion)
    requires AllDocuments(docs) && AllConform(fields, valuesAreLists)
    ensures AllDocuments(r.documents)
    decreases |fields|
  {
    if fields == [] then Completion(docs, None)
    else
      var r := BuildField(docs, fields[0].0, fields[0].1, valuesAreLists);
      if r.failure.Some? then r
      else BuildDocuments(r.documents, fields[1..], valuesAreLists)
  }

  // ---------------------------------------------------------------------------
  // complete_selectors as a function of the fields
  // ---------------------------------------------------------------------------

  /** Where the component loop of `complete_selectors` is. `Selected` holds
      what `node` was when the loop broke off (`None` when nothing was found). */
  datatype SelectState =
    | Selecting(doc: Node, cursor: Address)
    | Selected(doc: Node, found: Option<Handle>)
    | SelectFailed(doc: Node, failure: Failure)

  predicate SelectReady(s: SelectState, components: seq<string>)
  {
    s.Selecting? ==>
      ValidAddress(s.doc, s.cursor) &&
      (NodeAt(s.doc, s.cursor).Element? ||
       (NodeAt(s.doc, s.cursor).Document? &&
        (components == [] || Classify(components[0]).ElementStep?)))
  }

  /** Where the selection goes once `_enter_element` has looked at the slot. */
  function SelectingEntry(e: Entry, field: string, name: string, index: int): SelectState
  {
    match e
    case Entered(d, c) => Selecting(d, c)
    case Conflict(d, found) => SelectFailed(d, FieldsError(field, name, index, found))
  }

  /** A `name$position` component of a selector at the container `c`: in
      create mode the element is entered as when building documents, in lookup
      mode it is only looked for, and a missing one selects nothing. `parsed`
      is the position as `int()` reads it. */
  function SelectEnterStep(d: Node, c: Address, name: string, position: string, parsed: Option<int>,
                           field: string, create: bool)
    : (r: SelectState)
    requires IsContainer(d, c)
    ensures r.Selecting? ==> ValidAddress(r.doc, r.cursor) && NodeAt(r.doc, r.cursor).Element?
    ensures r.doc.Document? == d.Document?
  {
    match parsed
    case None => SelectFailed(d, ValueError(position))
    case Some(n) =>
      if n - 1 < 0 then Selected(d, Some(NodeRef(c)))
      else if create then SelectingEntry(EnterAt(d, c, name, n - 1), field, name, n - 1)
      else
        match FindAt(d, c, name, n - 1)
        case Some(found) => Selecting(d, found)
        case None => Selected(d, None)
  }

  /** One iteration of the component loop of `complete_selectors`. */
  function SelectStep(s: SelectState, component: string, field: string, create: bool): (r: SelectState)
    requires SelectReady(s, [component])
    ensures r.Selecting? ==> ValidAddress(r.doc, r.cursor) && NodeAt(r.doc, r.cursor).Element?
    ensures r.doc.Document? == s.doc.Document?
  {
    if !s.Selecting? then s
    else
      match Classify(component)
      case AttributeLeaf(attr) =>
        Selected(s.doc, if attr in NodeAt(s.doc, s.cursor).attrs then Some(AttributeRef(s.cursor, attr)) else None)
      case ElementStep(name, position) =>
        SelectEnterStep(s.doc, s.cursor, name, position, ParseInt(position), field, create)
      case MultivalueLeaf(_, _) => s
      case Unrecognised => s
  }

  function SelectWalk(s: SelectState, components: seq<string>, field: string, create: bool): (r: SelectState)
    requires SelectReady(s, components)
    ensures r.Selecting? && components != [] ==> ValidAddress(r.doc, r.cursor) && NodeAt(r.doc, r.cursor).Element?
    ensures r.doc.Document? == s.doc.Document?
    ensures components == [] ==> r == s
    decreases |components|
  {
    if components == [] || !s.Selecting? then s
    else SelectWalk(SelectStep(s, components[0], field, create), components[1..], field, create)
  }

  /** A node chosen by a selector: the model's document and the node in it. */
  datatype Selection = Selection(model: string, handle: Handle)

  /** The selector name and the path of a `name=path` field: everything after
      the first `=`, joined back together. */
  function SelectorParts(field: string): Option<(string, string)>
  {
    var parts := Split(field, SelectorIndicator);
    if |parts| < 2 then None
    else Some((parts[0], Join(parts[1..], SelectorIndicator)))
  }

  /** What one field contributes to the selectors. */
  datatype Resolution =
    | Skipped
    | Resolved(selector: string, model: string, doc: Node, found: Option<Handle>)
    | Unresolved(model: string, doc: Node, failure: Failure)

  /** One iteration of the field loop of `complete_selectors`. */
  function Resolve(docs: map<string, Node>, field: string, create: bool): (r: Resolution)
    requires AllDocuments(docs)
    ensures !r.Skipped? ==> r.model in docs && r.doc.Document?
  {
    match SelectorParts(field)
    case None => Skipped
    case Some((selector, path)) =>
      match ModelNameAndComponents(path)
      case None => Skipped
      case Some((model, components)) =>
        if model !in docs then Skipped
        else
          match SelectWalk(Selecting(docs[model], []), components, field, create)
          case SelectFailed(d, failure) => Unresolved(model, d, failure)
          case Selected(d, found) => Resolved(selector, model, d, found)
          case Selecting(d, c) => Resolved(selector, model, d, Some(NodeRef(c)))
  }

  /** The selectors and documents after some fields, and the exception that
      ended the loop. */
  datatype SelectorsState = SelectorsState(
    selectors: map<string, seq<Selection>>,
    documents: map<string, Node>,
    failure: Option<Failure>)

  function Existing(sels: map<string, seq<Selection>>, name: string): seq<Selection>
  {
    if name in sels then sels[name] else []
  }

  /** The selectors and documents after one field's resolution. */
  function Record(sels: map<string, seq<Selection>>, docs: map<string, Node>, r: Resolution): SelectorsState
  {
    match r
    case Skipped => SelectorsState(sels, docs, None)
    case Unresolved(model, d, failure) => SelectorsState(sels, docs[model := d], Some(failure))
    case Resolved(selector, model, d, found) =>
      var added := if found.Some? then [Selection(model, found.value)] else [];
      SelectorsState(sels[selector := Existing(sels, selector) + added], docs[model := d], None)
  }

  /** `complete_selectors(selectors, fields, documents, create)`. */
  function SelectAll(sels: map<string, seq<Selection>>, docs: map<string, Node>,
                     fields: seq<(string, Value)>, create: bool): (r: SelectorsState)
    requires AllDocuments(docs)
    ensures AllDocuments(r.documents)
    decreases |fields|
  {
    if fields == [] then SelectorsState(sels, docs, None)
    else
      var r := Record(sels, docs, Resolve(docs, fields[0].0, create));
      if r.failure.Some? then r
      else SelectAll(r.selectors, r.documents, fields[1..], create)
  }

  // ---------------------------------------------------------------------------
  // The processor
  // ---------------------------------------------------------------------------

  /** `FieldProcessor`, configured by `values_are_lists`. (Its encoding only
      applies to byte strings, which are not modelled: values are text.) */
  class FieldProcessor {
    const valuesAreLists: bool

    constructor(valuesAreLists: bool)
      ensures this.valuesAreLists == valuesAreLists
    {
      this.valuesAreLists := valuesAreLists;
    }

    /** `_ensure_elements`: append placeholders until position `index` exists. */
    method EnsureElements(children: seq<Node>, index: int) returns (r: seq<Node>)
      ensures r == Padded(children, index)
    {
      r := children;
      var i := ElementCount(children);
      while i <= index
        invariant ElementCount(children) <= i
        invariant i <= index + 1 || i == ElementCount(children)
        invariant r == children + Placeholders(i - ElementCount(children))
        decreases index + 1 - i
      {
        r := r + [PlaceholderNode];
        i := i + 1;
      }
    }

    /** `_enter_element`: pad, then take over a placeholder at the slot, enter
        an element of the same name, or report the name found there. */
    method EnterElement(doc: Node, node: Address, name: string, index: nat) returns (r: Entry)
      requires IsContainer(doc, node)
      ensures r == EnterAt(doc, node, name, index)
    {
      var here := NodeAt(doc, node);
      var children := EnsureElements(here.children, index);
      PaddedSpec(here.children, index);
      var pos := ElementPos(children, index);
      if children[pos].name == PlaceholderName {
        var newNode := Element(name, map[], []);
        r := Entered(ReplaceAt(doc, node, here.(children := children[pos := newNode])), node + [pos]);
      } else if children[pos].name != name {
        r := Conflict(ReplaceAt(doc, node, here.(children := children)), children[pos].name);
      } else {
        r := Entered(ReplaceAt(doc, node, here.(children := children)), node + [pos]);
      }
    }

    /** The multivalue loop: `_append_element` and `setAttributeNS` per value. */
    method AppendValues(doc: Node, node: Address, name: string, attr: string, values: seq<string>) returns (r: Node)
      requires IsContainer(doc, node)
      ensures r == AppendAt(doc, node, ValueElements(name, attr, values))
    {
      var here := NodeAt(doc, node);
      var children := here.children;
      for k := 0 to |values|
        invariant children == here.children + ValueElements(name, attr, values[..k])
      {
        var subnode := Element(name, map[], []);
        subnode := subnode.(attrs := subnode.attrs[attr := Remove(values[k], '\r')]);
        children := children + [subnode];
        assert values[..k + 1][..k] == values[..k];
      }
      assert values[..|values|] == values;
      r := ReplaceAt(doc, node, here.(children := children));
    }

    /** The component loop of `complete_documents` for one field, from the
        document node. */
    method Traverse(doc: Node, components: seq<string>, field: string, value: Value) returns (r: WalkState)
      requires Conforms(value, valuesAreLists) && Ready(Walking(doc, []), components)
      ensures r == Walk(Walking(doc, []), components, field, value, valuesAreLists)
    {
      var d := doc;
      var node: Address := [];
      for i := 0 to |components|
        invariant Ready(Walking(d, node), components[i..])
        invariant Walk(Walking(doc, []), components, field, value, valuesAreLists)
               == Walk(Walking(d, node), components[i..], field, value, valuesAreLists)
      {
        assert components[i..][1..] == components[i + 1..];
        var s := ProcessComponent(d, node, components[i], field, value);
        if !s.Walking? {
          return s;
        }
        d, node := s.doc, s.cursor;
      }
      return Walking(d, node);
    }

    /** The body of the component loop of `complete_documents`: one component
        at the element (or document) `node`. */
    method ProcessComponent(d: Node, node: Address, component: string, field: string, value: Value)
      returns (r: WalkState)
      requires Conforms(value, valuesAreLists) && Ready(Walking(d, node), [component])
      ensures r == Step(Walking(d, node), component, field, value, valuesAreLists)
    {
      var t := Split(component, PairSeparator);
      if |t| == 1 {
        var v: string;
        if valuesAreLists {
          if value.texts == [] {
            return Failed(d, IndexError);
          }
          v := value.texts[0];
        } else {
          v := value.text;
        }
        return Stopped(SetAttributeAt(d, node, t[0], Remove(v, '\r')));
      } else if |t| == 2 {
        r := EnterComponent(d, node, t[0], t[1], field);
        return;
      } else if |t| == 3 && t[1] == "" {
        var values := if valuesAreLists then value.texts else [value.text];
        var appended := AppendValues(d, node, t[0], t[2], values);
        return Walking(appended, node);
      }
      return Walking(d, node);
    }

    /** A `name$position` component: read the position, then enter the
        element there unless the position is below 1. */
    method EnterComponent(d: Node, node: Address, name: string, position: string, field: string)
      returns (r: WalkState)
      requires IsContainer(d, node)
      ensures r == EnterStep(d, node, name, position, ParseInt(position), field)
    {
      var n := ParseInt(position);
      if n.None? {
        return Failed(d, ValueError(position));
      }
      var index := n.value - 1;
      if index < 0 {
        return Stopped(d);
      }
      var e := EnterElement(d, node, name, index);
      if e.Conflict? {
        return Failed(e.doc, FieldsError(field, name, index, e.found));
      }
      return Walking(e.doc, e.cursor);
    }

    /** One iteration of the field loop of `complete_documents`. */
    method AddField(documents: Dict<Node>, field: string, value: Value) returns (failure: Option<Failure>)
      requires AllDocuments(documents.entries) && Conforms(value, valuesAreLists)
      modifies documents
      ensures Completion(documents.entries, failure)
           == BuildField(old(documents.entries), field, value, valuesAreLists)
    {
      hide Walk, Classify, ParseInt;
      if SelectorIndicator in field {
        return None;
      }
      var modelNameAndComponents := ModelNameAndComponents(field);
      if modelNameAndComponents.None? {
        return None;
      }
      var (model, components) := modelNameAndComponents.value;
      if model !in documents.entries {
        documents.entries := documents.entries[model := NewInstance(model)];
      }
      var s := Traverse(documents.entries[model], components, field, value);
      documents.entries := documents.entries[model := s.doc];
      assert documents.entries == old(documents.entries)[model := s.doc];
      if s.Failed? {
        return Some(s.failure);
      }
      return None;
    }

    /** `complete_documents`: fill `documents` from the fields in order; an
        exception ends the loop and leaves the changes made so far. */
    method CompleteDocuments(documents: Dict<Node>, fields: seq<(string, Value)>) returns (failure: Option<Failure>)
      requires AllDocuments(documents.entries) && AllConform(fields, valuesAreLists)
      modifies documents
      ensures Completion(documents.entries, failure)
           == BuildDocuments(old(documents.entries), fields, valuesAreLists)
    {
      hide Walk, Step, Classify, ParseInt;
      for i := 0 to |fields|
        invariant AllDocuments(documents.entries)
        invariant BuildDocuments(old(documents.entries), fields, valuesAreLists)
               == BuildDocuments(documents.entries, fields[i..], valuesAreLists)
      {
        assert fields[i..][1..] == fields[i + 1..];
        var (field, value) := fields[i];
        failure := AddField(documents, field, value);
        if failure.Some? {
          return;
        }
      }
      return None;
    }

    /** `make_documents`: the documents built from the fields into a new
        dictionary, or the exception raised on the way. */
    method MakeDocuments(fields: seq<(string, Value)>) returns (r: Result<map<string, Node>, Failure>)
      requires AllConform(fields, valuesAreLists)
      ensures r.Ok? <==> BuildDocuments(map[], fields, valuesAreLists).failure.None?
      ensures r.Ok? ==> r.value == BuildDocuments(map[], fields, valuesAreLists).documents
      ensures r.Err? ==> Some(r.error) == BuildDocuments(map[], fields, valuesAreLists).failure
    {
      var documents := new Dict<Node>();
      var failure := CompleteDocuments(documents, fields);
      if failure.Some? {
        return Err(failure.value);
      }
      return Ok(documents.entries);
    }

    /** The component loop of `complete_selectors` for one field. */
    method Select(doc: Node, components: seq<string>, field: string, create: bool) returns (r: SelectState)
      requires SelectReady(Selecting(doc, []), components)
      ensures r == SelectWalk(Selecting(doc, []), components, field, create)
    {
      var d := doc;
      var node: Address := [];
      for i := 0 to |components|
        invariant SelectReady(Selecting(d, node), components[i..])
        invariant SelectWalk(Selecting(doc, []), components, field, create)
               == SelectWalk(Selecting(d, node), components[i..], field, create)
      {
        assert components[i..][1..] == components[i + 1..];
        var t := Split(components[i], PairSeparator);
        if |t| == 1 {
          var attributes := NodeAt(d, node).attrs;
          return Selected(d, if t[0] in attributes then Some(AttributeRef(node, t[0])) else None);
        } else if |t| == 2 {
          var n := ParseInt(t[1]);
          if n.None? {
            return SelectFailed(d, ValueError(t[1]));
          }
          var index := n.value - 1;
          if index < 0 {
            return Selected(d, Some(NodeRef(node)));
          }
          if create {
            var e := EnterElement(d, node, t[0], index);
            if e.Conflict? {
              return SelectFailed(e.doc, FieldsError(field, t[0], index, e.found));
            }
            d, node := e.doc, e.cursor;
          } else {
            var found := FindAt(d, node, t[0], index);
            if found.None? {
              return Selected(d, None);
            }
            node := found.value;
          }
        }
      }
      return Selecting(d, node);
    }

    /** Where one selector field leads: its selector name, path, model and the
        node its components reach. */
    method ResolveSelector(docs: map<string, Node>, field: string, create: bool) returns (r: Resolution)
      requires AllDocuments(docs)
      ensures r == Resolve(docs, field, create)
    {
      var selectorComponents := Split(field, SelectorIndicator);
      if |selectorComponents| < 2 {
        return Skipped;
      }
      var selectorName := selectorComponents[0];
      var path := Join(selectorComponents[1..], SelectorIndicator);
      var modelNameAndComponents := ModelNameAndComponents(path);
      if modelNameAndComponents.None? {
        return Skipped;
      }
      var (model, components) := modelNameAndComponents.value;
      if model !in docs {
        return Skipped;
      }
      var s := Select(docs[model], components, field, create);
      match s
      case SelectFailed(d, f) => r := Unresolved(model, d, f);
      case Selected(d, found) => r := Resolved(selectorName, model, d, found);
      case Selecting(d, c) => r := Resolved(selectorName, model, d, Some(NodeRef(c)));
    }

    /** One iteration of the field loop of `complete_selectors`: the selector
        name gets a (possibly empty) list, extended by the node found. */
    method AddSelector(selectors: Dict<seq<Selection>>, field: string, documents: Dict<Node>, create: bool)
      returns (failure: Option<Failure>)
      requires AllDocuments(documents.entries) && selectors as object != documents as object
      modifies selectors, documents
      ensures SelectorsState(selectors.entries, documents.entries, failure)
           == Record(old(selectors.entries), old(documents.entries), Resolve(old(documents.entries), field, create))
    {
      var r := ResolveSelector(documents.entries, field, create);
      failure := RecordResolution(selectors, documents, r);
    }

    /** The second half of that iteration: the document the walk changed is
        stored back, and the node found is added under the selector name. */
    method RecordResolution(selectors: Dict<seq<Selection>>, documents: Dict<Node>, r: Resolution)
      returns (failure: Option<Failure>)
      requires selectors as object != documents as object
      modifies selectors, documents
      ensures SelectorsState(selectors.entries, documents.entries, failure)
           == Record(old(selectors.entries), old(documents.entries), r)
    {
      match r
      case Skipped =>
        failure := None;
      case Unresolved(model, d, f) =>
        documents.entries := documents.entries[model := d];
        failure := Some(f);
      case Resolved(selectorName, model, d, node) =>
        documents.entries := documents.entries[model := d];
        ghost var existing := Existing(old(selectors.entries), selectorName);
        if selectorName !in selectors.entries {
          selectors.entries := selectors.entries[selectorName := []];
        }
        assert selectors.entries == old(selectors.entries)[selectorName := existing];
        if node.Some? {
          selectors.entries := selectors.entries[selectorName := selectors.entries[selectorName] + [Selection(model, node.value)]];
        } else {
          assert existing + [] == existing;
        }
        failure := None;
    }

    /** `complete_selectors`: map selector names to the nodes their paths reach,
        in field order. */
    method CompleteSelectors(selectors: Dict<seq<Selection>>, fields: seq<(string, Value)>,
                             documents: Dict<Node>, create: bool) returns (failure: Option<Failure>)
      requires AllDocuments(documents.entries) && selectors as object != documents as object
      modifies selectors, documents
      ensures SelectorsState(selectors.entries, documents.entries, failure)
           == SelectAll(old(selectors.entries), old(documents.entries), fields, create)
    {
      hide SelectWalk, SelectStep, Classify, ParseInt;
      for i := 0 to |fields|
        invariant AllDocuments(documents.entries)
        invariant SelectAll(old(selectors.entries), old(documents.entries), fields, create)
               == SelectAll(selectors.entries, documents.entries, fields[i..], create)
      {
        assert fields[i..][1..] == fields[i + 1..];
        failure := AddSelector(selectors, fields[i].0, documents, create);
        if failure.Some? {
          return;
        }
      }
      return None;
    }

    /** `get_selectors`: the selectors of the fields in a new dictionary, or the
        exception raised on the way; `documents` is updated in create mode. */
    method GetSelectors(fields: seq<(string, Value)>, documents: Dict<Node>, create: bool)
      returns (r: Result<map<string, seq<Selection>>, Failure>)
      requires AllDocuments(documents.entries)
      modifies documents
      ensures documents.entries == SelectAll(map[], old(documents.entries), fields, create).documents
      ensures r.Ok? <==> SelectAll(map[], old(documents.entries), fields, create).failure.None?
      ensures r.Ok? ==> r.value == SelectAll(map[], old(documents.entries), fields, create).selectors
      ensures r.Err? ==> Some(r.error) == SelectAll(map[], old(documents.entries), fields, create).failure
    {
      var selectors := new Dict<seq<Selection>>();
      var failure := CompleteSelectors(selectors, fields, documents, create);
      if failure.Some? {
        return Err(failure.value);
      }
      return Ok(selectors.entries);
    }
  }
}
