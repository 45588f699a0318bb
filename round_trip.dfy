/** The two directions of the path protocol agree: the path `path_to_node`
    writes for a node is a selector path that finds that very node, and a
    field path of element steps written with canonical numbers names, once
    built, the element the builder stopped at. */
module RoundTrip {
  import opened Wrappers
  import opened Strings
  import opened Constants
  import opened Dom
  import opened Fields
  import opened FieldProperties
  import opened Output

  /** The nodes from the document element down to `p` are elements with plain names. */
  predicate PlainElementPath(t: Node, p: Address)
  {
    forall k :: 1 <= k <= |p| ==>
      Lookup(t, p[..k]).Some? && Lookup(t, p[..k]).value.Element? && Plain(Lookup(t, p[..k]).value.name)
  }

  /** A component `name$k` written by `path_to_node`, read back. */
  lemma StepNameReadsBack(t: Node, q: Address)
    requires ValidAddress(t, q) && NodeAt(t, q).Element? && Plain(NodeAt(t, q).name)
    ensures PathSeparator !in StepName(t, q)
    ensures Classify(StepName(t, q)) == ElementStep(NodeAt(t, q).name, IntToString(Ordinal(t, q)))
    ensures ParseInt(IntToString(Ordinal(t, q))) == Some(Ordinal(t, q))
  {
    IntToStringFree(Ordinal(t, q), PairSeparator);
    IntToStringFree(Ordinal(t, q), PathSeparator);
    ClassifyElementStep(NodeAt(t, q).name, IntToString(Ordinal(t, q)));
    ParseIntOfString(Ordinal(t, q));
  }

  /** One lookup step along the path: the component written for the node at
      `p[..k+1]` leads from its parent to it. */
  lemma LookupStep(t: Node, p: Address, k: nat, field: string)
    requires t.Document? && ValidAddress(t, p) && PlainElementPath(t, p) && k < |p|
    ensures ValidAddress(t, p[..k + 1]) && NodeAt(t, p[..k + 1]).Element?
    ensures SelectReady(Selecting(t, p[..k]), [StepName(t, p[..k + 1])])
    ensures SelectStep(Selecting(t, p[..k]), StepName(t, p[..k + 1]), field, false) == Selecting(t, p[..k + 1])
  {
    hide ParseInt;
    var q := p[..k];
    var q' := p[..k + 1];
    PrefixValid(t, p, k);
    assert q' == q + [p[k]] && Parent(q') == q && Last(q') == p[k];
    var node := NodeAt(t, q');
    StepNameReadsBack(t, q');
    var cs := NodeAt(t, q).children;
    ElementPosOfOrdinal(cs, p[k]);
    assert FindAt(t, q, node.name, Ordinal(t, q') - 1) == Some(q');
    assert k == 0 ==> q == [] && NodeAt(t, q) == t;
  }

  /** Looking up the remaining components from the `k`-th node on the way
      arrives at the node at `p`. */
  lemma {:induction false} LookupAlong(t: Node, p: Address, k: nat, field: string)
    requires t.Document? && ValidAddress(t, p) && PlainElementPath(t, p) && k <= |p|
    ensures |ElementSteps(t, p)| == |p|
    ensures SelectReady(Selecting(t, p[..k]), ElementSteps(t, p)[k..])
    ensures SelectWalk(Selecting(t, p[..k]), ElementSteps(t, p)[k..], field, false) == Selecting(t, p)
    decreases |p| - k
  {
    hide ParseInt;
    ElementStepsOfPath(t, p);
    var steps := ElementSteps(t, p);
    if k == |p| {
      assert p[..k] == p;
      assert steps[k..] == [];
    } else {
      LookupStep(t, p, k, field);
      assert steps[k..][0] == StepName(t, p[..k + 1]);
      assert steps[k..][1..] == steps[k + 1..];
      LookupAlong(t, p, k + 1, field);
    }
  }

  /** No component written for an element path contains `/`. */
  lemma ElementStepsFree(t: Node, p: Address)
    requires t.Document? && ValidAddress(t, p) && PlainElementPath(t, p)
    ensures |ElementSteps(t, p)| == |p|
    ensures forall k :: 0 <= k < |p| ==> PathSeparator !in ElementSteps(t, p)[k]
  {
    ElementStepsOfPath(t, p);
    forall k | 0 <= k < |p|
      ensures PathSeparator !in ElementSteps(t, p)[k]
    {
      PrefixValid(t, p, k);
      StepNameReadsBack(t, p[..k + 1]);
    }
  }

  /** The first component of an element path, split at `$`, starts with the
      name of the document element. */
  lemma FirstComponent(t: Node, p: Address)
    requires t.Document? && p != [] && ValidAddress(t, p) && PlainElementPath(t, p)
    ensures ValidAddress(t, p[..1]) && NodeAt(t, p[..1]).Element?
    ensures |ElementSteps(t, p)| == |p|
    ensures var pieces := Split(ElementSteps(t, p)[0], PairSeparator);
            |pieces| == 2 && pieces[0] == NodeAt(t, p[..1]).name
  {
    ElementStepsOfPath(t, p);
    PrefixValid(t, p, 0);
    assert p[..0] == [];
    StepNameReadsBack(t, p[..1]);
    var index := IntToString(Ordinal(t, p[..1]));
    IntToStringFree(Ordinal(t, p[..1]), PairSeparator);
    SplitAt(NodeAt(t, p[..1]).name, index, PairSeparator);
    SplitFree(index, PairSeparator);
  }

  /** The path of an element reference splits into the model name and the
      components a selector walks. */
  lemma PathComponents(t: Node, p: Address)
    requires t.Document? && p != [] && ValidAddress(t, p) && PlainElementPath(t, p)
    ensures ValidAddress(t, p[..1]) && NodeAt(t, p[..1]).Element?
    ensures ModelNameAndComponents(NodePath(t, NodeRef(p), false, NoName, false))
         == Some((NodeAt(t, p[..1]).name, ElementSteps(t, p)))
  {
    var steps := ElementSteps(t, p);
    AttributePath(t, NodeRef(p), NoName);
    ElementStepsFree(t, p);
    FirstComponent(t, p);
    RootedJoin(steps);
    var parts := [""] + steps;
    SplitJoin(parts, PathSeparator);
    assert parts[1..] == steps && parts[1] == steps[0];
  }

  /** A selector field `name=path`, with the path `path_to_node` writes for an
      element, resolves in lookup mode to that same element of the model's
      document, changing nothing. */
  lemma SelectorFindsNode(docs: map<string, Node>, selector: string, t: Node, p: Address)
    requires AllDocuments(docs) && t.Document? && p != [] && ValidAddress(t, p) && PlainElementPath(t, p)
    requires SelectorIndicator !in selector
    requires ValidAddress(t, p[..1]) && NodeName(NodeAt(t, p[..1])) in docs
    requires docs[NodeName(NodeAt(t, p[..1]))] == t
    ensures Resolve(docs, selector + [SelectorIndicator] + NodePath(t, NodeRef(p), false, NoName, false), false)
         == Resolved(selector, NodeName(NodeAt(t, p[..1])), t, Some(NodeRef(p)))
  {
    var path := NodePath(t, NodeRef(p), false, NoName, false);
    var field := selector + [SelectorIndicator] + path;
    SelectorPartsOf(selector, path);
    PathComponents(t, p);
    LookupAlong(t, p, 0, field);
    assert p[..0] == [];
    assert ElementSteps(t, p)[0..] == ElementSteps(t, p);
  }

  // ---------------------------------------------------------------------------
  // building: a field of element steps names the element the builder reached
  // ---------------------------------------------------------------------------

  /** Positions written the canonical way, as `str(n)` writes them. */
  function Canonical(ords: seq<nat>): (r: seq<string>)
    ensures |r| == |ords|
    ensures forall k :: 0 <= k < |ords| ==> ParseInt(r[k]) == Some(ords[k])
  {
    var r := seq(|ords|, k requires 0 <= k < |ords| => IntToString(ords[k]));
    forall k | 0 <= k < |ords|
      ensures ParseInt(r[k]) == Some(ords[k])
    {
      ParseIntOfString(ords[k]);
    }
    r
  }

  /** `_enter_element` changes the document only at the container it works on. */
  lemma EnterAtReplaces(t: Node, c: Address, name: string, index: nat)
    requires IsContainer(t, c)
    ensures EnterAt(t, c, name, index).doc == ReplaceAt(t, c, NodeAt(EnterAt(t, c, name, index).doc, c))
  {
    var here := NodeAt(t, c);
    var cs := Padded(here.children, index);
    PaddedSpec(here.children, index);
    var pos := ElementPos(cs, index);
    if cs[pos].name == PlaceholderName {
      ReplaceAtSelf(t, c, here.(children := cs[pos := Element(name, map[], [])]));
    } else {
      ReplaceAtSelf(t, c, here.(children := cs));
    }
  }

  /** Replacing a node by one of the same kind and name keeps the components
      of the node and of every ancestor: only children after the path change. */
  lemma {:induction false} ElementStepsReplaced(t: Node, c: Address, n: Node, q: Address)
    requires ValidAddress(t, c) && NodeName(n) == NodeName(NodeAt(t, c)) && n.Document? == NodeAt(t, c).Document?
    requires |q| <= |c| && q == c[..|q|]
    ensures ValidAddress(t, q) && ValidAddress(ReplaceAt(t, c, n), q)
    ensures ElementSteps(ReplaceAt(t, c, n), q) == ElementSteps(t, q)
    decreases |q|
  {
    hide ReplaceAt, IntToString;
    var t' := ReplaceAt(t, c, n);
    if |q| == |c| {
      assert q == c;
      ReplaceAtSelf(t, c, n);
    } else {
      ReplaceAtAncestor(t, c, n, q);
    }
    if q != [] {
      var up := Parent(q);
      assert up == c[..|up|] && c[|up|] == Last(q);
      ReplaceAtAncestor(t, c, n, up);
      ParentValid(t, q);
      ParentValid(t', q);
      assert NodeAt(t', up).children[..Last(q)] == NodeAt(t, up).children[..Last(q)];
      assert Ordinal(t', q) == Ordinal(t, q);
      ElementStepsReplaced(t, c, n, up);
    }
  }

  /** Entering keeps the components of the container and its ancestors. */
  lemma EnterKeepsSteps(d: Node, c: Address, name: string, index: nat)
    requires IsContainer(d, c)
    ensures ValidAddress(EnterAt(d, c, name, index).doc, c)
    ensures ElementSteps(EnterAt(d, c, name, index).doc, c) == ElementSteps(d, c)
  {
    var e := EnterAt(d, c, name, index);
    EnterAtChildren(d, c, name, index);
    EnterAtReplaces(d, c, name, index);
    ElementStepsReplaced(d, c, NodeAt(e.doc, c), c);
  }

  /** The element entered at position `n - 1` is the `n`-th element child
      of the container. */
  lemma EnteredOrdinal(d: Node, c: Address, name: string, n: nat)
    requires IsContainer(d, c) && n >= 1 && EnterAt(d, c, name, n - 1).Entered?
    ensures var e := EnterAt(d, c, name, n - 1);
            e.cursor != [] && Parent(e.cursor) == c && Ordinal(e.doc, e.cursor) == n
  {
    var e := EnterAt(d, c, name, n - 1);
    var q := e.cursor;
    assert q == c + [q[|c|]];
    EnterAtSlot(d, c, name, n - 1);
  }

  /** The element entered at position `n - 1` is written `name$n`. */
  lemma EnteredStep(d: Node, c: Address, name: string, n: nat)
    requires IsContainer(d, c) && n >= 1 && EnterAt(d, c, name, n - 1).Entered?
    ensures var e := EnterAt(d, c, name, n - 1);
            ValidAddress(e.doc, e.cursor)
            && ElementSteps(e.doc, e.cursor) == ElementSteps(d, c) + [name + [PairSeparator] + IntToString(n)]
  {
    EnterKeepsSteps(d, c, name, n - 1);
    EnteredOrdinal(d, c, name, n);
  }

  /** A canonical `name$n` step is `_enter_element` at position n - 1. */
  lemma CanonicalStepEnters(d: Node, c: Address, name: string, n: nat, field: string, value: Value, valuesAreLists: bool)
    requires Conforms(value, valuesAreLists) && ValidAddress(d, c) && !NodeAt(d, c).Text?
    requires Plain(name) && n >= 1
    ensures Ready(Walking(d, c), [name + [PairSeparator] + IntToString(n)])
    ensures Step(Walking(d, c), name + [PairSeparator] + IntToString(n), field, value, valuesAreLists)
            == Entering(EnterAt(d, c, name, n - 1), field, name, n - 1)
  {
    hide ParseInt;
    ElementComponent(name, n);
    ElementStepIs(d, c, name + [PairSeparator] + IntToString(n), name, IntToString(n), field, value, valuesAreLists);
    EnterStepEnters(d, c, name, IntToString(n), n, field);
  }

  /** One canonical `name$n` step from an element (or from the document node)
      either stops with a conflict or enters an element whose component is
      exactly that step. */
  lemma EnterCanonical(d: Node, c: Address, name: string, n: nat, field: string, value: Value, valuesAreLists: bool)
    requires Conforms(value, valuesAreLists) && ValidAddress(d, c) && !NodeAt(d, c).Text?
    requires Plain(name) && n >= 1
    ensures Ready(Walking(d, c), [name + [PairSeparator] + IntToString(n)])
    ensures var r := Step(Walking(d, c), name + [PairSeparator] + IntToString(n), field, value, valuesAreLists);
            (r.Failed? && r.failure.FieldsError?)
            || (r.Walking? && ValidAddress(r.doc, r.cursor)
                && ElementSteps(r.doc, r.cursor) == ElementSteps(d, c) + [name + [PairSeparator] + IntToString(n)])
  {
    var step := name + [PairSeparator] + IntToString(n);
    var e := EnterAt(d, c, name, n - 1);
    CanonicalStepEnters(d, c, name, n, field, value, valuesAreLists);
    var r := Step(Walking(d, c), step, field, value, valuesAreLists);
    if e.Entered? {
      assert r.Walking? && r.doc == e.doc && r.cursor == e.cursor;
      EnteredStep(d, c, name, n);
    } else {
      assert r == Failed(e.doc, FieldsError(field, name, n - 1, e.found));
    }
  }

  /** The walk over canonical element steps either stops with a conflict or
      ends at an element whose components extend the start's by those steps. */
  lemma {:induction false} WalkCanonical(d: Node, c: Address, names: seq<string>, ords: seq<nat>,
                                         field: string, value: Value, valuesAreLists: bool)
    requires Conforms(value, valuesAreLists) && ValidAddress(d, c) && !NodeAt(d, c).Text?
    requires |names| == |ords| && forall k :: 0 <= k < |names| ==> Plain(names[k]) && ords[k] >= 1
    ensures Ready(Walking(d, c), Steps(names, Canonical(ords)))
    ensures var r := Walk(Walking(d, c), Steps(names, Canonical(ords)), field, value, valuesAreLists);
            (r.Failed? && r.failure.FieldsError?)
            || (r.Walking? && ValidAddress(r.doc, r.cursor)
                && ElementSteps(r.doc, r.cursor) == ElementSteps(d, c) + Steps(names, Canonical(ords)))
    decreases |names|
  {
    if names != [] {
      var steps := Steps(names, Canonical(ords));
      CanonicalStepsFirst(names, ords);
      EnterCanonical(d, c, names[0], ords[0], field, value, valuesAreLists);
      var s := Step(Walking(d, c), steps[0], field, value, valuesAreLists);
      if s.Walking? {
        WalkCanonical(s.doc, s.cursor, names[1..], ords[1..], field, value, valuesAreLists);
        AppendFirst(ElementSteps(d, c), steps);
      }
    }
  }

  /** The canonical steps are the first name's step followed by the rest's. */
  lemma CanonicalStepsFirst(names: seq<string>, ords: seq<nat>)
    requires names != [] && |names| == |ords|
    ensures var steps := Steps(names, Canonical(ords));
            steps != [] && steps[0] == names[0] + [PairSeparator] + IntToString(ords[0])
            && steps[1..] == Steps(names[1..], Canonical(ords[1..]))
  {
    CanonicalTail(ords);
    StepsTail(names, Canonical(ords));
  }

  lemma CanonicalTail(ords: seq<nat>)
    requires ords != []
    ensures Canonical(ords)[0] == IntToString(ords[0]) && Canonical(ords)[1..] == Canonical(ords[1..])
  {
    hide ParseInt, IntToString;
    assert Canonical(ords)[1..] == Canonical(ords[1..]) by {
      forall k | 0 <= k < |ords| - 1
        ensures Canonical(ords)[1..][k] == Canonical(ords[1..])[k]
      {
        assert Canonical(ords)[k + 1] == IntToString(ords[k + 1]);
      }
    }
  }

  lemma StepsTail(names: seq<string>, indices: seq<string>)
    requires names != [] && |names| == |indices|
    ensures Steps(names, indices)[0] == names[0] + [PairSeparator] + indices[0]
    ensures Steps(names, indices)[1..] == Steps(names[1..], indices[1..])
  {
    assert Steps(names, indices)[1..] == Steps(names[1..], indices[1..]);
  }

  /** Appending the steps one at a time. */
  lemma AppendFirst<T>(a: seq<T>, xs: seq<T>)
    requires xs != []
    ensures (a + [xs[0]]) + xs[1..] == a + xs
  {
    assert [xs[0]] + xs[1..] == xs;
  }

  /** No canonical step contains `/` or `=`. */
  lemma CanonicalStepsFree(names: seq<string>, ords: seq<nat>)
    requires |names| == |ords|
    requires forall k :: 0 <= k < |names| ==> Plain(names[k]) && SelectorIndicator !in names[k]
    ensures forall k :: 0 <= k < |names| ==>
              PathSeparator !in Steps(names, Canonical(ords))[k] && SelectorIndicator !in Steps(names, Canonical(ords))[k]
  {
    var steps := Steps(names, Canonical(ords));
    forall k | 0 <= k < |steps|
      ensures PathSeparator !in steps[k] && SelectorIndicator !in steps[k]
    {
      assert Canonical(ords)[k] == IntToString(ords[k]);
      IntToStringFree(ords[k], PathSeparator);
      IntToStringFree(ords[k], SelectorIndicator);
    }
  }

  /** A path of `name$index` steps names the model of its first step. */
  lemma StepsModel(names: seq<string>, indices: seq<string>)
    requires names != [] && |names| == |indices|
    requires forall k :: 0 <= k < |names| ==> Plain(names[k]) && PathSeparator !in indices[k]
    requires PairSeparator !in indices[0]
    ensures ModelNameAndComponents(Join([""] + Steps(names, indices), PathSeparator))
         == Some((names[0], Steps(names, indices)))
  {
    var steps := Steps(names, indices);
    var first := names[0] + [PairSeparator] + indices[0];
    assert steps[0] == first;
    assert [first] + steps[1..] == steps;
    forall k | 0 <= k < |steps[1..]|
      ensures PathSeparator !in steps[1..][k]
    {
      assert steps[1..][k] == names[k + 1] + [PairSeparator] + indices[k + 1];
    }
    ModelNameOfPath(names[0], indices[0], steps[1..]);
    assert [""] + steps == [""] + [first] + steps[1..];
  }

  /** The first canonical step names the model. */
  lemma CanonicalModel(names: seq<string>, ords: seq<nat>)
    requires names != [] && |names| == |ords|
    requires forall k :: 0 <= k < |names| ==> Plain(names[k])
    ensures ModelNameAndComponents(Join([""] + Steps(names, Canonical(ords)), PathSeparator))
         == Some((names[0], Steps(names, Canonical(ords))))
  {
    var indices := Canonical(ords);
    forall k | 0 <= k < |ords|
      ensures PathSeparator !in indices[k]
    {
      assert indices[k] == IntToString(ords[k]);
      IntToStringFree(ords[k], PathSeparator);
    }
    assert indices[0] == IntToString(ords[0]);
    IntToStringFree(ords[0], PairSeparator);
    StepsModel(names, indices);
  }

  /** A field of canonical element steps is not a selector field, and it
      splits into the first name and its steps. */
  lemma CanonicalField(names: seq<string>, ords: seq<nat>)
    requires names != [] && |names| == |ords|
    requires forall k :: 0 <= k < |names| ==> Plain(names[k]) && SelectorIndicator !in names[k] && ords[k] >= 1
    ensures SelectorIndicator !in Rooted(Steps(names, Canonical(ords)))
    ensures ModelNameAndComponents(Rooted(Steps(names, Canonical(ords))))
         == Some((names[0], Steps(names, Canonical(ords))))
  {
    var steps := Steps(names, Canonical(ords));
    CanonicalStepsFree(names, ords);
    RootedWithout(steps, SelectorIndicator);
    RootedJoin(steps);
    CanonicalModel(names, ords);
  }

  /** `complete_documents` on a field that names a model walks that model's
      document (or a new one) along the field's components. */
  lemma BuildModelField(docs: map<string, Node>, field: string, model: string, components: seq<string>,
                        value: Value, valuesAreLists: bool)
    requires AllDocuments(docs) && Conforms(value, valuesAreLists)
    requires SelectorIndicator !in field && ModelNameAndComponents(field) == Some((model, components))
    ensures var doc := if model in docs then docs[model] else NewInstance(model);
            Ready(Walking(doc, []), components)
            && var s := Walk(Walking(doc, []), components, field, value, valuesAreLists);
               BuildField(docs, field, value, valuesAreLists)
               == Completion(docs[model := s.doc], if s.Failed? then Some(s.failure) else None)
  {
  }

  /** Where a walk over `steps` from the document node may end: at the
      conflict error, or at an element whose components are `steps`. */
  predicate EndsAt(s: WalkState, steps: seq<string>)
  {
    (s.Failed? && s.failure.FieldsError?)
    || (s.Walking? && ValidAddress(s.doc, s.cursor) && ElementSteps(s.doc, s.cursor) == steps)
  }

  /** The walk from the document node over canonical steps ends where
      `EndsAt` allows. */
  lemma WalkCanonicalRoot(doc: Node, names: seq<string>, ords: seq<nat>,
                          field: string, value: Value, valuesAreLists: bool)
    requires Conforms(value, valuesAreLists) && doc.Document?
    requires |names| == |ords| && forall k :: 0 <= k < |names| ==> Plain(names[k]) && ords[k] >= 1
    ensures Ready(Walking(doc, []), Steps(names, Canonical(ords)))
    ensures EndsAt(Walk(Walking(doc, []), Steps(names, Canonical(ords)), field, value, valuesAreLists),
                   Steps(names, Canonical(ords)))
  {
    hide Walk, Step, Classify, ParseInt;
    var steps := Steps(names, Canonical(ords));
    WalkCanonical(doc, [], names, ords, field, value, valuesAreLists);
    assert [] + steps == steps;
  }

  /** A field made of canonical element steps, once built, names the element
      where the builder stopped: `path_to_node` on it gives the field back.
      The only other outcome is the conflict error. */
  lemma BuiltFieldReadsBack(docs: map<string, Node>, names: seq<string>, ords: seq<nat>,
                            value: Value, valuesAreLists: bool)
    requires AllDocuments(docs) && Conforms(value, valuesAreLists)
    requires names != [] && |names| == |ords|
    requires forall k :: 0 <= k < |names| ==> Plain(names[k]) && SelectorIndicator !in names[k] && ords[k] >= 1
    ensures var field := Rooted(Steps(names, Canonical(ords)));
            var r := BuildField(docs, field, value, valuesAreLists);
            && names[0] in r.documents
            && ((r.failure.Some? && r.failure.value.FieldsError?)
                || (r.failure.None?
                    && exists c :: ValidAddress(r.documents[names[0]], c)
                                   && NodePath(r.documents[names[0]], NodeRef(c), false, NoName, false) == field))
  {
    var steps := Steps(names, Canonical(ords));
    var field := Rooted(steps);
    var model := names[0];
    var doc := if model in docs then docs[model] else NewInstance(model);
    CanonicalField(names, ords);
    BuildModelField(docs, field, model, steps, value, valuesAreLists);
    WalkCanonicalRoot(doc, names, ords, field, value, valuesAreLists);
    WalkedReadsBack(Walk(Walking(doc, []), steps, field, value, valuesAreLists), steps);
  }

  /** A walk that ends at the element whose components are `steps` stands
      at the node whose path is `steps`. */
  lemma WalkedReadsBack(s: WalkState, steps: seq<string>)
    requires EndsAt(s, steps)
    ensures (s.Failed? && s.failure.FieldsError?)
            || (s.Walking? && ValidAddress(s.doc, s.cursor)
                && NodePath(s.doc, NodeRef(s.cursor), false, NoName, false) == Rooted(steps))
  {
    if s.Walking? {
      AttributePath(s.doc, NodeRef(s.cursor), NoName);
    }
  }
}
