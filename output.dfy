/** The inverse direction of the field processor: the functions a stylesheet
    calls to name a node of the form document as a field path, and the string
    transforms over that same path grammar. */
module Output {
  import opened Wrappers
  import opened Strings
  import opened Constants
  import opened Dom

  /** Separates the several paths of a node-set result: `/a$1/b$1,/a$1/b$2`. */
  const ListSeparator: char := ','

  // ---------------------------------------------------------------------------
  // Paths as text
  // ---------------------------------------------------------------------------

  /** `/s1/s2/.../sn`: the text of a path with the given components. */
  function Rooted(steps: seq<string>): string
    decreases |steps|
  {
    if steps == [] then "" else Rooted(steps[..|steps| - 1]) + [PathSeparator] + steps[|steps| - 1]
  }

  /** A rooted path is empty exactly when it has no components, and
      otherwise starts with `/`. */
  lemma {:induction false} RootedShape(steps: seq<string>)
    ensures Rooted(steps) == [] <==> steps == []
    ensures steps != [] ==> Rooted(steps)[0] == PathSeparator
    decreases |steps|
  {
    if steps != [] {
      var init := steps[..|steps| - 1];
      RootedShape(init);
      if init == [] {
        assert Rooted(steps) == [PathSeparator] + steps[|steps| - 1];
      }
    }
  }

  lemma {:induction false} RootedAppend(a: seq<string>, b: seq<string>)
    ensures Rooted(a + b) == Rooted(a) + Rooted(b)
    decreases |b|
  {
    if b == [] {
      assert a + b == a;
    } else {
      assert (a + b)[..|a + b| - 1] == a + b[..|b| - 1];
      RootedAppend(a, b[..|b| - 1]);
    }
  }

  /** The same text as a `/`-join with an empty first piece, which is what
      splitting a path on `/` takes apart. */
  lemma {:induction false} RootedJoin(steps: seq<string>)
    ensures Rooted(steps) == Join([""] + steps, PathSeparator)
    decreases |steps|
  {
    if steps != [] {
      var init := steps[..|steps| - 1];
      RootedJoin(init);
      JoinLast([""] + steps, PathSeparator);
      assert ([""] + steps)[..|steps|] == [""] + init;
    }
  }

  // ---------------------------------------------------------------------------
  // path_to_node
  // ---------------------------------------------------------------------------

  /** The node a handle starts from: an attribute stands for its owner element. */
  function Subject(h: Handle): Address
  {
    match h
    case NodeRef(p) => p
    case AttributeRef(p, _) => p
  }

  /** `node.parentNode`; the top node has none. */
  function Up(p: Address): Option<Address>
  {
    if p == [] then None else Some(Parent(p))
  }

  /** `count(preceding-sibling::*) + 1`: one more than the number of elements
      before the node among its siblings, whatever their names. */
  function Ordinal(t: Node, p: Address): (k: nat)
    requires ValidAddress(t, p)
    ensures k >= 1
  {
    if p == [] then 1
    else
      ParentValid(t, p);
      ElementCount(NodeAt(t, Parent(p)).children[..Last(p)]) + 1
  }

  /** The `name$k` component naming the node at `p`. */
  function StepName(t: Node, p: Address): string
    requires ValidAddress(t, p)
  {
    NodeName(NodeAt(t, p)) + [PairSeparator] + IntToString(Ordinal(t, p))
  }

  /** The components for the node at `p` and its ancestors, outermost first,
      up to but not including the nearest document node. */
  function ElementSteps(t: Node, p: Address): (steps: seq<string>)
    requires ValidAddress(t, p)
    ensures steps == [] <==> NodeAt(t, p).Document?
    ensures |steps| <= |p| + 1
    decreases |p|
  {
    if NodeAt(t, p).Document? then []
    else if p == [] then [StepName(t, p)]
    else
      ParentValid(t, p);
      ElementSteps(t, Parent(p)) + [StepName(t, p)]
  }

  /** The element components from a node that may be absent. */
  function StepsFrom(t: Node, o: Option<Address>): seq<string>
    requires o.Some? ==> ValidAddress(t, o.value)
  {
    if o.None? then [] else ElementSteps(t, o.value)
  }

  /** The `name` argument: absent, an attribute name, or an
      (element, attribute) pair. */
  datatype NameArg = NoName | Name(name: string) | Pair(element: string, attribute: string)

  /** The argument combinations the code can handle: an attribute reference
      takes a name or none, a multivalue element reference takes a pair. */
  predicate ArgumentsFit(attributeRef: bool, name: NameArg, multivalue: bool)
  {
    (attributeRef ==> !name.Pair?) && (!attributeRef && multivalue ==> name.Pair?)
  }

  /** Where the element components start: at the handle's node, or at its
      parent when the node's own name goes into the last component. */
  function Origin(h: Handle, attributeRef: bool, name: NameArg, multivalue: bool): Option<Address>
  {
    if attributeRef && (name.NoName? || multivalue) then Up(Subject(h)) else Some(Subject(h))
  }

  /** The component after the element components, if any. */
  function Tail(t: Node, h: Handle, attributeRef: bool, name: NameArg, multivalue: bool): seq<string>
    requires ValidAddress(t, Subject(h))
  {
    var tag := NodeName(NodeAt(t, Subject(h)));
    if attributeRef then
      match name
      case Name(n) => if multivalue then [tag + MultiSeparator + n] else [n]
      case _ => [tag]
    else if multivalue && name.Pair? then [name.element + MultiSeparator + name.attribute]
    else []
  }

  predicate ValidOrigin(t: Node, o: Option<Address>)
  {
    o.Some? ==> ValidAddress(t, o.value)
  }

  lemma OriginValid(t: Node, h: Handle, attributeRef: bool, name: NameArg, multivalue: bool)
    requires ValidAddress(t, Subject(h))
    ensures ValidOrigin(t, Origin(h, attributeRef, name, multivalue))
  {
    if Subject(h) != [] {
      ParentValid(t, Subject(h));
    }
  }

  /** The path `path_to_node` produces. */
  function NodePath(t: Node, h: Handle, attributeRef: bool, name: NameArg, multivalue: bool): (r: string)
    requires ValidAddress(t, Subject(h))
    ensures r != [] ==> r[0] == PathSeparator
    ensures r == [] <==> Tail(t, h, attributeRef, name, multivalue) == [] &&
                         (Origin(h, attributeRef, name, multivalue).None? ||
                          NodeAt(t, Origin(h, attributeRef, name, multivalue).value).Document?)
  {
    OriginValid(t, h, attributeRef, name, multivalue);
    var steps := StepsFrom(t, Origin(h, attributeRef, name, multivalue)) + Tail(t, h, attributeRef, name, multivalue);
    RootedShape(steps);
    Rooted(steps)
  }

  /** Climbing one level adds the node's own component in front. */
  lemma StepUp(t: Node, p: Address)
    requires ValidAddress(t, p) && !NodeAt(t, p).Document?
    ensures ValidOrigin(t, Up(p))
    ensures Rooted(ElementSteps(t, p)) == Rooted(StepsFrom(t, Up(p))) + [PathSeparator] + StepName(t, p)
  {
    if p != [] {
      ParentValid(t, p);
    }
    var above := StepsFrom(t, Up(p));
    assert ElementSteps(t, p) == above + [StepName(t, p)];
    assert (above + [StepName(t, p)])[..|above|] == above;
  }

  /** The path splits into the element components and the last component. */
  lemma PathParts(t: Node, h: Handle, attributeRef: bool, name: NameArg, multivalue: bool)
    requires ValidAddress(t, Subject(h))
    ensures ValidOrigin(t, Origin(h, attributeRef, name, multivalue))
    ensures NodePath(t, h, attributeRef, name, multivalue)
         == Rooted(StepsFrom(t, Origin(h, attributeRef, name, multivalue)))
            + Rooted(Tail(t, h, attributeRef, name, multivalue))
  {
    OriginValid(t, h, attributeRef, name, multivalue);
    RootedAppend(StepsFrom(t, Origin(h, attributeRef, name, multivalue)), Tail(t, h, attributeRef, name, multivalue));
  }

  lemma RootedOne(x: string)
    ensures Rooted([x]) == [PathSeparator] + x
  {
    assert [x][..0] == [];
  }

  lemma Regroup(a: string, b: string, c: string, d: string)
    ensures a + b + c + d == a + (b + c + d)
  {
  }

  /** `path_to_node(node, attribute_ref, name, multivalue)`: the last component
      first, then one `/name$k` per node while climbing to the document. */
  method PathToNode(t: Node, h: Handle, attributeRef: bool, name: NameArg, multivalue: bool) returns (path: string)
    requires ValidAddress(t, Subject(h)) && ArgumentsFit(attributeRef, name, multivalue)
    ensures path == NodePath(t, h, attributeRef, name, multivalue)
  {
    var node, l := LastComponent(t, h, attributeRef, name, multivalue);
    PathParts(t, h, attributeRef, name, multivalue);
    ghost var goal := NodePath(t, h, attributeRef, name, multivalue);
    while node.Some? && !NodeAt(t, node.value).Document?
      invariant ValidOrigin(t, node)
      invariant goal == Rooted(StepsFrom(t, node)) + l
      decreases if node.Some? then |node.value| + 1 else 0
    {
      var p := node.value;
      StepUp(t, p);
      ghost var above := Rooted(StepsFrom(t, Up(p)));
      ghost var prev := l;
      var step := StepName(t, p);
      assert goal == above + [PathSeparator] + step + prev;
      l := [PathSeparator] + step + l;
      Regroup(above, [PathSeparator], step, prev);
      node := Up(p);
    }
    path := l;
  }

  /** The first half of `path_to_node`: the last component, and the node the
      climb starts from. */
  method LastComponent(t: Node, h: Handle, attributeRef: bool, name: NameArg, multivalue: bool)
    returns (node: Option<Address>, l: string)
    requires ValidAddress(t, Subject(h)) && ArgumentsFit(attributeRef, name, multivalue)
    ensures node == Origin(h, attributeRef, name, multivalue)
    ensures l == Rooted(Tail(t, h, attributeRef, name, multivalue))
  {
    node := Some(Subject(h));
    l := "";
    if attributeRef {
      var tag := NodeName(NodeAt(t, node.value));
      if name.Name? {
        l := name.name;
        if multivalue {
          l := tag + MultiSeparator + l;
          node := Up(node.value);
        }
        RootedOne(l);
        l := [PathSeparator] + l;
      } else {
        RootedOne(tag);
        l := [PathSeparator] + tag;
        node := Up(node.value);
      }
    } else if multivalue {
      RootedOne(name.element + MultiSeparator + name.attribute);
      l := [PathSeparator] + (name.element + MultiSeparator + name.attribute);
    }
  }

  /** The node steps of a path inside a document: no document node below the top. */
  predicate NoInnerDocument(t: Node, p: Address)
  {
    forall k :: 1 <= k <= |p| ==> Lookup(t, p[..k]).Some? && !Lookup(t, p[..k]).value.Document?
  }

  /** Every node from the document element down to the node at `p` contributes
      its own `name$k`, outermost first, where `k` counts the elements before
      it among its siblings. */
  lemma {:induction false} ElementStepsOfPath(t: Node, p: Address)
    requires t.Document? && ValidAddress(t, p) && NoInnerDocument(t, p)
    ensures |ElementSteps(t, p)| == |p|
    ensures forall k :: 0 <= k < |p| ==> ElementSteps(t, p)[k] == StepName(t, p[..k + 1])
    decreases |p|
  {
    if p != [] {
      var up := Parent(p);
      ParentValid(t, p);
      assert p[..|p|] == p;
      assert !NodeAt(t, p).Document?;
      forall k | 1 <= k <= |up|
        ensures up[..k] == p[..k]
      {
      }
      ElementStepsOfPath(t, up);
      assert ElementSteps(t, p) == ElementSteps(t, up) + [StepName(t, p)];
      forall k | 0 <= k < |p|
        ensures ElementSteps(t, p)[k] == StepName(t, p[..k + 1])
      {
        if k < |up| {
          assert up[..k + 1] == p[..k + 1];
        } else {
          assert p[..k + 1] == p;
        }
      }
    } else {
      assert ElementSteps(t, p) == [];
    }
  }

  /** An element reference names the handle's node, an attribute handle
      counting as its owner element; with an attribute name, that name is
      added as the last component. */
  lemma AttributePath(t: Node, h: Handle, name: NameArg)
    requires ValidAddress(t, Subject(h))
    ensures NodePath(t, h, false, name, false) == Rooted(ElementSteps(t, Subject(h)))
    ensures name.Name? ==>
              NodePath(t, h, true, name, false) == Rooted(ElementSteps(t, Subject(h))) + [PathSeparator] + name.name
  {
    PathParts(t, h, false, name, false);
    if name.Name? {
      PathParts(t, h, true, name, false);
      RootedOne(name.name);
    }
  }

  /** A multivalue attribute reference folds the node into the last component
      `name$$attribute`; the element components stop at its parent. */
  lemma MultivalueAttributePath(t: Node, h: Handle, attribute: string)
    requires ValidAddress(t, Subject(h))
    ensures ValidOrigin(t, Up(Subject(h)))
    ensures NodePath(t, h, true, Name(attribute), true)
         == Rooted(StepsFrom(t, Up(Subject(h)))) + [PathSeparator] + NodeName(NodeAt(t, Subject(h)))
            + MultiSeparator + attribute
  {
    var tag := NodeName(NodeAt(t, Subject(h)));
    PathParts(t, h, true, Name(attribute), true);
    assert Tail(t, h, true, Name(attribute), true) == [tag + MultiSeparator + attribute];
    RootedPair(Rooted(StepsFrom(t, Up(Subject(h)))), tag, attribute);
  }

  /** A last component `a$$b` after the path `front`. */
  lemma RootedPair(front: string, a: string, b: string)
    ensures front + Rooted([a + MultiSeparator + b]) == front + [PathSeparator] + a + MultiSeparator + b
  {
    RootedOne(a + MultiSeparator + b);
    assert [PathSeparator] + (a + MultiSeparator + b) == [PathSeparator] + a + MultiSeparator + b;
  }

  /** An attribute reference without a name uses the node's own name as the
      last component; the element components stop at its parent. */
  lemma NamelessAttributePath(t: Node, h: Handle)
    requires ValidAddress(t, Subject(h))
    ensures ValidOrigin(t, Up(Subject(h)))
    ensures NodePath(t, h, true, NoName, false)
         == Rooted(StepsFrom(t, Up(Subject(h)))) + [PathSeparator] + NodeName(NodeAt(t, Subject(h)))
  {
    PathParts(t, h, true, NoName, false);
    RootedOne(NodeName(NodeAt(t, Subject(h))));
  }

  /** A multivalue element reference adds `element$$attribute` after the
      node's own components. */
  lemma ListAttributePath(t: Node, h: Handle, element: string, attribute: string)
    requires ValidAddress(t, Subject(h))
    ensures NodePath(t, h, false, Pair(element, attribute), true)
         == Rooted(ElementSteps(t, Subject(h))) + [PathSeparator] + element + MultiSeparator + attribute
  {
    PathParts(t, h, false, Pair(element, attribute), true);
    assert Tail(t, h, false, Pair(element, attribute), true) == [element + MultiSeparator + attribute];
    assert StepsFrom(t, Some(Subject(h))) == ElementSteps(t, Subject(h));
    RootedPair(Rooted(ElementSteps(t, Subject(h))), element, attribute);
  }

  // ---------------------------------------------------------------------------
  // other_elements, other_attributes, other_list_attributes
  // ---------------------------------------------------------------------------

  predicate ValidHandles(t: Node, nodes: seq<Handle>)
  {
    forall k :: 0 <= k < |nodes| ==> ValidAddress(t, Subject(nodes[k]))
  }

  /** The path of each node, in node order. */
  function NodePaths(t: Node, nodes: seq<Handle>, attributeRef: bool, name: NameArg, multivalue: bool): seq<string>
    requires ValidHandles(t, nodes)
  {
    seq(|nodes|, k requires 0 <= k < |nodes| => NodePath(t, nodes[k], attributeRef, name, multivalue))
  }

  lemma NodePathsStep(t: Node, nodes: seq<Handle>, i: nat, attributeRef: bool, name: NameArg, multivalue: bool)
    requires ValidHandles(t, nodes) && i < |nodes|
    ensures ValidHandles(t, nodes[..i]) && ValidHandles(t, nodes[..i + 1])
    ensures NodePaths(t, nodes[..i + 1], attributeRef, name, multivalue)
         == NodePaths(t, nodes[..i], attributeRef, name, multivalue) + [NodePath(t, nodes[i], attributeRef, name, multivalue)]
  {
    var front := nodes[..i];
    var longer := nodes[..i + 1];
    assert longer == front + [nodes[i]];
    var a := NodePaths(t, longer, attributeRef, name, multivalue);
    var b := NodePaths(t, front, attributeRef, name, multivalue);
    forall k | 0 <= k < i
      ensures a[k] == b[k]
    {
      assert longer[k] == front[k];
    }
    assert a[i] == NodePath(t, nodes[i], attributeRef, name, multivalue);
  }

  /** The loop the three `other_*` functions share: the path of each node, kept
      only the first time it is produced, joined with commas. */
  method DistinctPaths(t: Node, nodes: seq<Handle>, attributeRef: bool, name: NameArg, multivalue: bool)
    returns (r: string)
    requires ValidHandles(t, nodes) && ArgumentsFit(attributeRef, name, multivalue)
    ensures r == Join(Dedup(NodePaths(t, nodes, attributeRef, name, multivalue)), ListSeparator)
  {
    var names: seq<string> := [];
    for i := 0 to |nodes|
      invariant names == Dedup(NodePaths(t, nodes[..i], attributeRef, name, multivalue))
    {
      var n := PathToNode(t, nodes[i], attributeRef, name, multivalue);
      NodePathsStep(t, nodes, i, attributeRef, name, multivalue);
      DedupSnoc(NodePaths(t, nodes[..i], attributeRef, name, multivalue), n);
      if n !in names {
        names := names + [n];
      }
    }
    assert nodes[..|nodes|] == nodes;
    r := Join(names, ListSeparator);
  }

  /** `other_elements(nodes)`: element references to the nodes. */
  method OtherElements(t: Node, nodes: seq<Handle>) returns (r: string)
    requires ValidHandles(t, nodes)
    ensures r == Join(Dedup(NodePaths(t, nodes, false, NoName, false)), ListSeparator)
  {
    r := DistinctPaths(t, nodes, false, NoName, false);
  }

  /** `other_list_attributes(element_name, attribute_name, nodes)`: a
      `element$$attribute` reference under each node. */
  method OtherListAttributes(t: Node, elementName: string, attributeName: string, nodes: seq<Handle>) returns (r: string)
    requires ValidHandles(t, nodes)
    ensures r == Join(Dedup(NodePaths(t, nodes, false, Pair(elementName, attributeName), true)), ListSeparator)
  {
    r := DistinctPaths(t, nodes, false, Pair(elementName, attributeName), true);
  }

  /** `other_attributes(attribute_name, nodes)`: the named attribute of each node. */
  method OtherAttributes(t: Node, attributeName: string, nodes: seq<Handle>) returns (r: string)
    requires ValidHandles(t, nodes)
    ensures r == Join(Dedup(NodePaths(t, nodes, true, Name(attributeName), false)), ListSeparator)
  {
    r := DistinctPaths(t, nodes, true, Name(attributeName), false);
  }

  /** Read back, a comma-joined de-duplicated list holds every path once, in
      the order of first occurrence, and nothing else. */
  lemma DistinctPathsListed(paths: seq<string>)
    requires paths != []
    requires forall k :: 0 <= k < |paths| ==> ListSeparator !in paths[k]
    ensures var listed := Split(Join(Dedup(paths), ListSeparator), ListSeparator);
            && listed == Dedup(paths)
            && Distinct(listed)
            && (forall x :: x in listed <==> x in paths)
            && (forall i, j :: 0 <= i < j < |listed| ==> FirstIndex(paths, listed[i]) < FirstIndex(paths, listed[j]))
  {
    DedupSpec(paths);
    var d := Dedup(paths);
    assert paths[0] in d;
    forall k | 0 <= k < |d|
      ensures ListSeparator !in d[k]
    {
      assert d[k] in paths;
    }
    SplitJoin(d, ListSeparator);
    forall i, j | 0 <= i < j < |d|
      ensures FirstIndex(paths, d[i]) < FirstIndex(paths, d[j])
    {
      DedupOrder(paths, i, j);
    }
  }

  // ---------------------------------------------------------------------------
  // child_element, child_attribute
  // ---------------------------------------------------------------------------

  /** Each path with one more component. */
  function Extended(paths: seq<string>, component: string): seq<string>
  {
    seq(|paths|, k requires 0 <= k < |paths| => paths[k] + [PathSeparator] + component)
  }

  /** `int(x)` on a finite XPath number: the integer part, rounded toward zero. */
  function Truncate(x: real): (n: int)
    ensures 0.0 <= x ==> 0 <= n && n as real <= x < n as real + 1.0
    ensures x < 0.0 ==> n <= 0 && n as real - 1.0 < x <= n as real
  {
    if x >= 0.0 then x.Floor else -((-x).Floor)
  }

  /** A whole position is written as itself; `1.5` is written as `1`, `-1.5` as `-1`. */
  lemma TruncateWhole(n: int)
    ensures Truncate(n as real) == n
    ensures Truncate(n as real + 0.5) == n || Truncate(n as real + 0.5) == n + 1
  {
  }

  /** `child_element(element_name, position, node_paths)`; the position is an
      XPath number, written as `str(int(position))`. */
  method ChildElement(elementName: string, position: real, nodePaths: string) returns (r: string)
    ensures r == Join(Extended(Split(nodePaths, ListSeparator),
                               elementName + [PairSeparator] + IntToString(Truncate(position))),
                      ListSeparator)
  {
    var paths := Split(nodePaths, ListSeparator);
    var step := elementName + [PairSeparator] + IntToString(Truncate(position));
    var l: seq<string> := [];
    for i := 0 to |paths|
      invariant l == Extended(paths[..i], step)
    {
      l := l + [paths[i] + [PathSeparator] + step];
    }
    assert paths[..|paths|] == paths;
    r := Join(l, ListSeparator);
  }

  /** `child_attribute(attribute_name, node_paths)`. */
  method ChildAttribute(attributeName: string, nodePaths: string) returns (r: string)
    ensures r == Join(Extended(Split(nodePaths, ListSeparator), attributeName), ListSeparator)
  {
    var paths := Split(nodePaths, ListSeparator);
    var l: seq<string> := [];
    for i := 0 to |paths|
      invariant l == Extended(paths[..i], attributeName)
    {
      l := l + [paths[i] + [PathSeparator] + attributeName];
    }
    assert paths[..|paths|] == paths;
    r := Join(l, ListSeparator);
  }

  /** Read back, the result has one path per input path, in the same order,
      each the input path with `/component` added. */
  lemma ExtendedListed(nodePaths: string, component: string)
    requires ListSeparator !in component
    ensures var inputs := Split(nodePaths, ListSeparator);
            var listed := Split(Join(Extended(inputs, component), ListSeparator), ListSeparator);
            && |listed| == |inputs|
            && forall k :: 0 <= k < |inputs| ==> listed[k] == inputs[k] + [PathSeparator] + component
  {
    var inputs := Split(nodePaths, ListSeparator);
    SplitPiecesFree(nodePaths, ListSeparator);
    var e := Extended(inputs, component);
    forall k | 0 <= k < |e|
      ensures ListSeparator !in e[k]
    {
      assert e[k] == inputs[k] + [PathSeparator] + component;
    }
    SplitJoin(e, ListSeparator);
  }

  // ---------------------------------------------------------------------------
  // selector_name
  // ---------------------------------------------------------------------------

  /** Each path with the `field_name=` prefix. */
  function Prefixed(fieldName: string, paths: seq<string>): seq<string>
  {
    seq(|paths|, k requires 0 <= k < |paths| => fieldName + [SelectorIndicator] + paths[k])
  }

  lemma PrefixedSnoc(fieldName: string, paths: seq<string>, p: string)
    ensures Prefixed(fieldName, paths + [p]) == Prefixed(fieldName, paths) + [fieldName + [SelectorIndicator] + p]
  {
  }

  /** The entries `selector_name` collects, as written: the duplicate test
      looks for the bare path among entries that all carry the prefix. */
  function SelectorEntriesAsWritten(fieldName: string, paths: seq<string>): seq<string>
    decreases |paths|
  {
    if paths == [] then []
    else
      var names := SelectorEntriesAsWritten(fieldName, paths[..|paths| - 1]);
      var p := paths[|paths| - 1];
      if p in names then names else names + [fieldName + [SelectorIndicator] + p]
  }

  lemma SelectorEntriesAsWrittenSnoc(fieldName: string, paths: seq<string>, p: string)
    ensures var names := SelectorEntriesAsWritten(fieldName, paths);
            SelectorEntriesAsWritten(fieldName, paths + [p])
            == if p in names then names else names + [fieldName + [SelectorIndicator] + p]
  {
    assert (paths + [p])[..|paths|] == paths;
  }

  /** `selector_name(field_name, nodes)` as written. */
  method SelectorNameAsWritten(t: Node, fieldName: string, nodes: seq<Handle>) returns (r: string)
    requires ValidHandles(t, nodes)
    ensures r == Join(SelectorEntriesAsWritten(fieldName, NodePaths(t, nodes, false, NoName, false)), ListSeparator)
  {
    var names: seq<string> := [];
    for i := 0 to |nodes|
      invariant names == SelectorEntriesAsWritten(fieldName, NodePaths(t, nodes[..i], false, NoName, false))
    {
      var n := PathToNode(t, nodes[i], false, NoName, false);
      NodePathsStep(t, nodes, i, false, NoName, false);
      SelectorEntriesAsWrittenSnoc(fieldName, NodePaths(t, nodes[..i], false, NoName, false), n);
      if n !in names {
        names := names + [fieldName + [SelectorIndicator] + n];
      }
    }
    assert nodes[..|nodes|] == nodes;
    r := Join(names, ListSeparator);
  }

  /** As written, no path is ever suppressed when the paths contain no `=`:
      every path gets its entry, duplicates included. */
  lemma {:induction false} SelectorNameNeverSuppresses(fieldName: string, paths: seq<string>)
    requires forall k :: 0 <= k < |paths| ==> SelectorIndicator !in paths[k]
    ensures SelectorEntriesAsWritten(fieldName, paths) == Prefixed(fieldName, paths)
    decreases |paths|
  {
    if paths != [] {
      var init := paths[..|paths| - 1];
      SelectorNameNeverSuppresses(fieldName, init);
      var p := paths[|paths| - 1];
      assert p !in Prefixed(fieldName, init);
    }
  }

  /** Two nodes with the same path give the same entry twice. */
  lemma SelectorNameDuplicates()
    ensures SelectorEntriesAsWritten("add", ["/a$1", "/a$1"]) == ["add=/a$1", "add=/a$1"]
    ensures !Distinct(SelectorEntriesAsWritten("add", ["/a$1", "/a$1"]))
  {
    var paths := ["/a$1", "/a$1"];
    assert SelectorIndicator !in "/a$1";
    SelectorNameNeverSuppresses("add", paths);
    assert "add" + [SelectorIndicator] + "/a$1" == "add=/a$1";
    assert Prefixed("add", paths) == ["add=/a$1", "add=/a$1"];
    var entries := SelectorEntriesAsWritten("add", paths);
    assert entries[0] == entries[1];
  }

  /** The entries `selector_name` evidently means to produce: each distinct
      path once, prefixed. */
  function SelectorEntries(fieldName: string, paths: seq<string>): seq<string>
  {
    Prefixed(fieldName, Dedup(paths))
  }

  /** `selector_name(field_name, nodes)` with the duplicate test on the path. */
  method SelectorName(t: Node, fieldName: string, nodes: seq<Handle>) returns (r: string)
    requires ValidHandles(t, nodes)
    ensures r == Join(SelectorEntries(fieldName, NodePaths(t, nodes, false, NoName, false)), ListSeparator)
  {
    var seen: seq<string> := [];
    var names: seq<string> := [];
    for i := 0 to |nodes|
      invariant seen == Dedup(NodePaths(t, nodes[..i], false, NoName, false))
      invariant names == Prefixed(fieldName, seen)
    {
      var n := PathToNode(t, nodes[i], false, NoName, false);
      NodePathsStep(t, nodes, i, false, NoName, false);
      DedupSnoc(NodePaths(t, nodes[..i], false, NoName, false), n);
      if n !in seen {
        PrefixedSnoc(fieldName, seen, n);
        seen := seen + [n];
        names := names + [fieldName + [SelectorIndicator] + n];
      }
    }
    assert nodes[..|nodes|] == nodes;
    r := Join(names, ListSeparator);
  }

  /** Every entry is `field_name=path` for a path of the nodes, every path has
      its entry, and no entry occurs twice. */
  lemma SelectorEntriesDistinct(fieldName: string, paths: seq<string>)
    ensures Distinct(SelectorEntries(fieldName, paths))
    ensures forall p :: p in paths <==> fieldName + [SelectorIndicator] + p in SelectorEntries(fieldName, paths)
    ensures forall e :: e in SelectorEntries(fieldName, paths) ==>
              exists p :: p in paths && e == fieldName + [SelectorIndicator] + p
  {
    DedupSpec(paths);
    var d := Dedup(paths);
    var entries := SelectorEntries(fieldName, paths);
    var prefix := fieldName + [SelectorIndicator];
    forall i, j | 0 <= i < j < |entries|
      ensures entries[i] != entries[j]
    {
      assert entries[i][|prefix|..] == d[i];
      assert entries[j][|prefix|..] == d[j];
    }
    forall p | fieldName + [SelectorIndicator] + p in entries
      ensures p in paths
    {
      var k :| 0 <= k < |entries| && entries[k] == prefix + p;
      assert entries[k][|prefix|..] == d[k] == p;
    }
    forall p | p in paths
      ensures fieldName + [SelectorIndicator] + p in entries
    {
      var k :| 0 <= k < |d| && d[k] == p;
      assert entries[k] == prefix + p;
    }
    forall e | e in entries
      ensures exists p :: p in paths && e == fieldName + [SelectorIndicator] + p
    {
      var k :| 0 <= k < |entries| && entries[k] == e;
      assert d[k] in paths;
    }
  }

  // ---------------------------------------------------------------------------
  // element_path, get_field_name, choice
  // ---------------------------------------------------------------------------

  /** `get_field_name`: a field or multivalue name without its `$$attribute` part. */
  function GetFieldName(name: string): (r: string)
    ensures |r| <= |name| && r == name[..|r|]
    ensures forall k: nat :: k < |r| ==> !MarkerAt(name, k, MultiSeparator)
    ensures |r| < |name| ==> MarkerAt(name, |r|, MultiSeparator)
  {
    BeforeMarker(name, MultiSeparator)
  }

  /** One part of `element_path`'s result: a `name$n` part becomes a position
      test, any other part its text before the first `$`. */
  function XPathStep(part: string): string
  {
    var pieces := Split(part, PairSeparator);
    if |pieces| == 2 then "*[position() = " + pieces[1] + "]" else pieces[0]
  }

  function XPathSteps(parts: seq<string>): seq<string>
  {
    seq(|parts|, k requires 0 <= k < |parts| => XPathStep(parts[k]))
  }

  lemma XPathStepsSnoc(parts: seq<string>, i: nat)
    requires i < |parts|
    ensures XPathSteps(parts[..i + 1]) == XPathSteps(parts[..i]) + [XPathStep(parts[i])]
  {
    var a := XPathSteps(parts[..i + 1]);
    var b := XPathSteps(parts[..i]);
    forall k | 0 <= k < i
      ensures a[k] == b[k]
    {
      assert parts[..i + 1][k] == parts[..i][k];
    }
  }

  /** The parts of the first field name, without any `$$attribute` part. */
  function ElementPathParts(fieldNames: string): seq<string>
  {
    Split(GetFieldName(Split(fieldNames, ListSeparator)[0]), PathSeparator)
  }

  /** `element_path(field_names)`. */
  method ElementPath(fieldNames: string) returns (r: string)
    ensures r == Join(XPathSteps(ElementPathParts(fieldNames)), PathSeparator)
  {
    var fieldName := Split(fieldNames, ListSeparator)[0];
    fieldName := GetFieldName(fieldName);
    var parts := Split(fieldName, PathSeparator);
    var newParts: seq<string> := [];
    for i := 0 to |parts|
      invariant newParts == XPathSteps(parts[..i])
    {
      XPathStepsSnoc(parts, i);
      var pathParts := Split(parts[i], PairSeparator);
      if |pathParts| == 2 {
        newParts := newParts + ["*[position() = " + pathParts[1] + "]"];
      } else {
        newParts := newParts + [pathParts[0]];
      }
    }
    assert parts[..|parts|] == parts;
    r := Join(newParts, PathSeparator);
  }

  /** A `name$n` part becomes `*[position() = n]`; a part without `$` is kept. */
  lemma XPathStepOf(name: string, index: string, plain: string)
    requires PairSeparator !in name && PairSeparator !in index && PairSeparator !in plain
    ensures XPathStep(name + [PairSeparator] + index) == "*[position() = " + index + "]"
    ensures XPathStep(plain) == plain
  {
    SplitAt(name, index, PairSeparator);
    SplitFree(index, PairSeparator);
    SplitFree(plain, PairSeparator);
  }

  /** Only the first of several comma-separated names is used. */
  lemma ElementPathFirstName(first: string, rest: string)
    requires ListSeparator !in first
    ensures ElementPathParts(first + [ListSeparator] + rest) == ElementPathParts(first)
  {
    SplitHead(first, rest, ListSeparator);
    SplitFree(first, ListSeparator);
  }

  /** Text free of the path, pair and list separators. */
  predicate Plain(s: string)
  {
    PathSeparator !in s && PairSeparator !in s && ListSeparator !in s
  }

  /** The `name$index` components. */
  function Steps(names: seq<string>, indices: seq<string>): seq<string>
    requires |names| == |indices|
  {
    seq(|names|, k requires 0 <= k < |names| => names[k] + [PairSeparator] + indices[k])
  }

  /** The XPath position tests for the given indices. */
  function PositionTests(indices: seq<string>): seq<string>
  {
    seq(|indices|, k requires 0 <= k < |indices| => "*[position() = " + indices[k] + "]")
  }

  predicate PlainSteps(names: seq<string>, indices: seq<string>)
  {
    |names| == |indices| && (forall k :: 0 <= k < |names| ==> Plain(names[k])) &&
    (forall k :: 0 <= k < |indices| ==> Plain(indices[k]))
  }

  lemma {:induction false} RootedWithout(xs: seq<string>, c: char)
    requires c != PathSeparator && forall k :: 0 <= k < |xs| ==> c !in xs[k]
    ensures c !in Rooted(xs)
    decreases |xs|
  {
    if xs != [] {
      RootedWithout(xs[..|xs| - 1], c);
      assert c !in xs[|xs| - 1];
    }
  }

  lemma {:induction false} RootedFreeOfMarker(xs: seq<string>)
    requires forall k :: 0 <= k < |xs| ==> FreeOfMarker(xs[k], MultiSeparator)
    ensures FreeOfMarker(Rooted(xs), MultiSeparator)
    decreases |xs|
  {
    if xs != [] {
      var init := Rooted(xs[..|xs| - 1]);
      RootedFreeOfMarker(xs[..|xs| - 1]);
      FreeOfMarkerChar([PathSeparator], MultiSeparator);
      FreeOfMarkerConcat(init, [PathSeparator], MultiSeparator);
      FreeOfMarkerConcat(init + [PathSeparator], xs[|xs| - 1], MultiSeparator);
    }
  }

  /** The components of plain `name$index` steps, then a plain last part. */
  lemma PlainStepsFree(names: seq<string>, indices: seq<string>, leaf: seq<string>)
    requires PlainSteps(names, indices) && |leaf| <= 1 && (forall k :: 0 <= k < |leaf| ==> Plain(leaf[k]))
    ensures var xs := Steps(names, indices) + leaf;
            && (forall k :: 0 <= k < |xs| ==> PathSeparator !in xs[k] && ListSeparator !in xs[k])
            && FreeOfMarker(Rooted(xs), MultiSeparator)
            && ListSeparator !in Rooted(xs)
  {
    var xs := Steps(names, indices) + leaf;
    forall k | 0 <= k < |xs|
      ensures PathSeparator !in xs[k] && ListSeparator !in xs[k] && FreeOfMarker(xs[k], MultiSeparator)
    {
      if k < |names| {
        var name := names[k];
        assert xs[k] == name + [PairSeparator] + indices[k];
        FreeOfMarkerChar(name, MultiSeparator);
        FreeOfMarkerChar([PairSeparator], MultiSeparator);
        FreeOfMarkerChar(indices[k], MultiSeparator);
        FreeOfMarkerConcat(name, [PairSeparator], MultiSeparator);
        FreeOfMarkerConcat(name + [PairSeparator], indices[k], MultiSeparator);
      } else {
        FreeOfMarkerChar(xs[k], MultiSeparator);
      }
    }
    RootedFreeOfMarker(xs);
    RootedWithout(xs, ListSeparator);
  }

  /** Each element step of a path becomes a position test and a plain last
      part is kept. */
  lemma XPathOfSteps(names: seq<string>, indices: seq<string>, leaf: seq<string>)
    requires PlainSteps(names, indices) && |leaf| <= 1 && (forall k :: 0 <= k < |leaf| ==> Plain(leaf[k]))
    ensures XPathSteps([""] + Steps(names, indices) + leaf) == [""] + PositionTests(indices) + leaf
  {
    var xs := [""] + Steps(names, indices) + leaf;
    var ys := [""] + PositionTests(indices) + leaf;
    forall k | 0 <= k < |xs|
      ensures XPathStep(xs[k]) == ys[k]
    {
      if k == 0 {
        XPathStepOf("", "", "");
      } else if k <= |names| {
        XPathStepOf(names[k - 1], indices[k - 1], "");
      } else {
        XPathStepOf("", "", xs[k]);
      }
    }
  }

  /** `element_path` of an element reference `/n1$i1/.../nm$im`: one position
      test `*[position() = i]` per step, in the same order. */
  lemma ElementPathOfElements(names: seq<string>, indices: seq<string>)
    requires PlainSteps(names, indices)
    ensures Join(XPathSteps(ElementPathParts(Rooted(Steps(names, indices)))), PathSeparator)
         == Rooted(PositionTests(indices))
  {
    var xs := Steps(names, indices);
    var path := Rooted(xs);
    PlainStepsFree(names, indices, []);
    assert xs + [] == xs;
    SplitFree(path, ListSeparator);
    BeforeMarkerNone(path, MultiSeparator);
    RootedJoin(xs);
    SplitJoin([""] + xs, PathSeparator);
    XPathOfSteps(names, indices, []);
    assert [""] + xs + [] == [""] + xs;
    assert [""] + PositionTests(indices) + [] == [""] + PositionTests(indices);
    RootedJoin(PositionTests(indices));
  }

  /** `element_path` of a multivalue reference `/n1$i1/.../nm$im/leaf$$attr`:
      the position tests followed by `leaf`, the attribute dropped. For
      example `/configuration$1/details$1/base-system$$value` gives two tests
      `*[position() = 1]` followed by `base-system`. */
  lemma ElementPathOfMultivalue(names: seq<string>, indices: seq<string>, leaf: string, attr: string)
    requires PlainSteps(names, indices) && Plain(leaf) && ListSeparator !in attr
    ensures Join(XPathSteps(ElementPathParts(Rooted(Steps(names, indices) + [leaf]) + MultiSeparator + attr)),
                 PathSeparator)
         == Rooted(PositionTests(indices) + [leaf])
  {
    var xs := Steps(names, indices) + [leaf];
    var stem := Rooted(xs);
    PlainStepsFree(names, indices, [leaf]);
    assert stem == Rooted(xs[..|xs| - 1]) + [PathSeparator] + leaf;
    assert stem[|stem| - 1] != PairSeparator;
    SplitFree(stem + MultiSeparator + attr, ListSeparator);
    BeforeMarkerAt(stem, attr, MultiSeparator);
    RootedJoin(xs);
    SplitJoin([""] + xs, PathSeparator);
    XPathOfSteps(names, indices, [leaf]);
    assert [""] + xs == [""] + Steps(names, indices) + [leaf];
    RootedJoin(PositionTests(indices) + [leaf]);
    assert [""] + (PositionTests(indices) + [leaf]) == [""] + PositionTests(indices) + [leaf];
  }

  /** `choice(value, true_string, false_string)`: an omitted or empty
      `false_string` gives the empty string. */
  function Choice(value: bool, trueString: string, falseString: Option<string>): (r: string)
    ensures value ==> r == trueString
    ensures !value && falseString.Some? ==> r == falseString.value
    ensures !value && falseString.None? ==> r == ""
  {
    if value then trueString
    else if falseString.Some? then falseString.value
    else ""
  }

  /** An absent false string is the empty one, and negating the value while
      swapping the two strings gives the same text. */
  lemma ChoiceSymmetric(value: bool, trueString: string, falseString: string)
    ensures Choice(value, trueString, None) == Choice(value, trueString, Some(""))
    ensures Choice(value, trueString, Some(falseString)) == Choice(!value, falseString, Some(trueString))
  {
  }
}
