/** `XSLForms.Utils`: the helpers that the form-editing actions use to add
    elements at selected positions of a document and to remove them again.

    A position is the address of an element; the document is a `Dom.Node`
    value, so each DOM mutation is a function from the old tree to the new
    one. Appending a child never moves an existing node, so the positions
    handed to `AddElements` keep naming the same elements while it works.
    Removing a child does move its later siblings, and the removed subtree
    lives on as a detached node; `RemoveElements` keeps track of both. */
module Utils {
  import opened Wrappers
  import opened Dom

  /** The exceptions these helpers can raise. */
  datatype Raised = IndexError | AttributeError

  /** A new, empty element (`createElementNS(None, name)`). */
  function NewElement(name: string): Node
  {
    Element(name, map[], [])
  }

  predicate Named(n: Node, name: string)
  {
    n.Element? && n.name == name
  }

  predicate ElementAt(t: Node, p: Address)
  {
    ValidAddress(t, p) && NodeAt(t, p).Element?
  }

  /** The node at `b` still exists after an edit, with its kind and name. */
  predicate Kept(t: Node, r: Node, b: Address)
  {
    ValidAddress(t, b) && ValidAddress(r, b) &&
    NodeName(NodeAt(r, b)) == NodeName(NodeAt(t, b)) &&
    NodeAt(r, b).Text? == NodeAt(t, b).Text? &&
    NodeAt(r, b).Document? == NodeAt(t, b).Document?
  }

  /** `a` and `b` are on different branches: neither contains the other. */
  predicate Apart(a: Address, b: Address)
  {
    !AncestorOrSelf(a, b) && !AncestorOrSelf(b, a)
  }

  function Reverse(names: seq<string>): seq<string>
  {
    seq(|names|, k requires 0 <= k < |names| => names[|names| - 1 - k])
  }

  /** `reversed_element_names[:-1]`: the enclosing elements, outermost first. */
  function Containers(names: seq<string>): seq<string>
    requires names != []
  {
    Reverse(names)[..|names| - 1]
  }

  // ---------------------------------------------------------------------------
  // add_elements
  // ---------------------------------------------------------------------------

  /** The index of the first child element called `name`: the first result
      of `element.xpath(name)` for a plain element name. */
  function FirstNamed(cs: seq<Node>, name: string): (r: Option<nat>)
    ensures r.Some? ==> r.value < |cs| && Named(cs[r.value], name)
    ensures r.Some? ==> forall j :: 0 <= j < r.value ==> !Named(cs[j], name)
    ensures r.None? ==> forall j :: 0 <= j < |cs| ==> !Named(cs[j], name)
  {
    if cs == [] then None
    else if Named(cs[0], name) then Some(0)
    else
      match FirstNamed(cs[1..], name)
      case None => None
      case Some(i) => Some(i + 1)
  }

  /** One turn of the inner loop: the first child called `name` of the
      element at `p`, or else a new one appended to it. */
  function EnsureChild(t: Node, p: Address, name: string): (r: (Node, Address))
    requires ElementAt(t, p)
    ensures r.0.Document? == t.Document?
    ensures |r.1| == |p| + 1 && r.1[..|p|] == p
    ensures ElementAt(r.0, r.1) && NodeAt(r.0, r.1).name == name
  {
    var cs := NodeAt(t, p).children;
    match FirstNamed(cs, name)
    case Some(i) =>
      LookupChild(t, p, i);
      assert (p + [i])[..|p|] == p;
      (t, p + [i])
    case None =>
      var t' := AppendAt(t, p, [NewElement(name)]);
      LookupChild(t', p, |cs|);
      assert (p + [|cs|])[..|p|] == p;
      (t', p + [|cs|])
  }

  /** The whole inner loop: the chain of elements named by `names`, each
      found or created inside the one before, starting below `p`. */
  function Nest(t: Node, p: Address, names: seq<string>): (r: (Node, Address))
    requires ElementAt(t, p)
    ensures r.0.Document? == t.Document?
    ensures |r.1| == |p| + |names| && r.1[..|p|] == p && ElementAt(r.0, r.1)
    decreases |names|
  {
    if names == [] then (t, p)
    else
      var s := EnsureChild(t, p, names[0]);
      var r := Nest(s.0, s.1, names[1..]);
      assert r.1[..|p|] == r.1[..|s.1|][..|p|];
      r
  }

  /** One turn of the outer loop: the new element `names[0]` inside the chain
      `names[|names|-1]`, ..., `names[1]` below the position `p`. */
  function AddAt(t: Node, p: Address, names: seq<string>): (r: Node)
    requires ElementAt(t, p) && names != []
    ensures r.Document? == t.Document?
  {
    var s := Nest(t, p, Containers(names));
    AppendAt(s.0, s.1, [NewElement(names[0])])
  }

  /** The outer loop, position after position. */
  function AddEach(t: Node, positions: seq<Address>, names: seq<string>): (r: Node)
    requires names != []
    requires forall k :: 0 <= k < |positions| ==> ElementAt(t, positions[k])
    ensures r.Document? == t.Document?
    decreases |positions|
  {
    if positions == [] then t
    else
      var t' := AddAt(t, positions[0], names);
      AddAtKeepsAll(t, positions[0], names, positions[1..]);
      AddEach(t', positions[1..], names)
  }

  /** What `add_elements(positions, *names)` does to the document, or the
      exception it raises. */
  function AddElementsSpec(t: Node, positions: seq<Address>, names: seq<string>): Result<Node, Raised>
    requires forall k :: 0 <= k < |positions| ==> ElementAt(t, positions[k])
  {
    if positions == [] then Ok(t)
    else if names == [] then Err(IndexError)
    else Ok(AddEach(t, positions, names))
  }

  /** `add_elements`. */
  method AddElements(t: Node, positions: seq<Address>, names: seq<string>) returns (r: Result<Node, Raised>)
    requires forall k :: 0 <= k < |positions| ==> ElementAt(t, positions[k])
    ensures r == AddElementsSpec(t, positions, names)
    ensures positions == [] ==> r == Ok(t)
    ensures r.Err? <==> positions != [] && names == []
  {
    if |positions| == 0 {
      return Ok(t);
    }
    var reversed := Reverse(names);
    if |reversed| == 0 {
      // `reversed_element_names[-1]` on an empty list
      return Err(IndexError);
    }
    var doc := t;
    for k := 0 to |positions|
      invariant forall j :: k <= j < |positions| ==> ElementAt(doc, positions[j])
      invariant AddEach(t, positions, names) == AddEach(doc, positions[k..], names)
    {
      ghost var start := doc;
      var element: Address := positions[k];
      var containers := reversed[..|reversed| - 1];
      assert containers == Containers(names);
      for i := 0 to |containers|
        invariant ElementAt(doc, element)
        invariant forall j :: k < j < |positions| ==> ElementAt(doc, positions[j])
        invariant Nest(start, positions[k], containers) == Nest(doc, element, containers[i..])
      {
        ghost var before := doc;
        var children := NodeAt(doc, element).children;
        var found := FirstNamed(children, containers[i]);
        if found.None? {
          doc := AppendAt(doc, element, [NewElement(containers[i])]);
          element := element + [|children|];
        } else {
          element := element + [found.value];
        }
        assert (doc, element) == EnsureChild(before, element[..|element| - 1], containers[i]);
        forall j | k < j < |positions|
          ensures ElementAt(doc, positions[j])
        {
          EnsureChildKeeps(before, element[..|element| - 1], containers[i], positions[j]);
        }
        assert containers[i..][1..] == containers[i + 1..];
      }
      ghost var nested := doc;
      doc := AppendAt(doc, element, [NewElement(reversed[|reversed| - 1])]);
      forall j | k < j < |positions|
        ensures ElementAt(doc, positions[j])
      {
        AppendKeeps(nested, element, [NewElement(names[0])], positions[j]);
      }
      assert positions[k..][1..] == positions[k + 1..];
    }
    assert positions[|positions|..] == [];
    return Ok(doc);
  }

  // ---------------------------------------------------------------------------
  // what adding keeps and what it makes
  // ---------------------------------------------------------------------------

  lemma AncestorOfLonger(b: Address, p: Address, q: Address)
    requires |p| <= |q| && q[..|p|] == p && AncestorOrSelf(b, q)
    ensures !Apart(b, p)
  {
    if |b| <= |p| {
      assert b == p[..|b|];
    } else {
      assert b[..|p|] == p;
    }
  }

  /** Finding or creating one child keeps every node, and changes none that
      is not `p` or above it. */
  lemma EnsureChildKeeps(t: Node, p: Address, name: string, b: Address)
    requires ElementAt(t, p) && ValidAddress(t, b)
    ensures Kept(t, EnsureChild(t, p, name).0, b)
    ensures !AncestorOrSelf(b, p) ==> NodeAt(EnsureChild(t, p, name).0, b) == NodeAt(t, b)
  {
    if FirstNamed(NodeAt(t, p).children, name).None? {
      AppendKeeps(t, p, [NewElement(name)], b);
    }
  }

  /** Each container is the first existing child of that name, if there is
      one, and the document is then unchanged; otherwise it is a new, empty
      element appended after all the children. */
  lemma EnsureChildReusesFirst(t: Node, p: Address, name: string)
    requires ElementAt(t, p)
    ensures var cs := NodeAt(t, p).children;
            var r := EnsureChild(t, p, name);
            if exists j :: 0 <= j < |cs| && Named(cs[j], name) then
              r.0 == t && r.1[|p|] < |cs| && Named(cs[r.1[|p|]], name) &&
              forall j :: 0 <= j < r.1[|p|] ==> !Named(cs[j], name)
            else
              IsContainer(r.0, p) && NodeAt(r.0, p).children == cs + [NewElement(name)] &&
              r.1 == p + [|cs|]
  {
  }

  /** The chain walk keeps every node, and changes only the ones on the path
      down to the innermost element of the chain. */
  lemma {:induction false} NestKeeps(t: Node, p: Address, names: seq<string>, b: Address)
    requires ElementAt(t, p) && ValidAddress(t, b)
    ensures Kept(t, Nest(t, p, names).0, b)
    ensures !AncestorOrSelf(b, Nest(t, p, names).1) ==> NodeAt(Nest(t, p, names).0, b) == NodeAt(t, b)
    decreases |names|
  {
    if names != [] {
      var s := EnsureChild(t, p, names[0]);
      var r := Nest(s.0, s.1, names[1..]);
      EnsureChildKeeps(t, p, names[0], b);
      NestKeeps(s.0, s.1, names[1..], b);
      if !AncestorOrSelf(b, r.1) {
        assert r.1[..|p|] == p;
        assert !AncestorOrSelf(b, p);
      }
    }
  }

  /** Below depth `from`, the path `q` runs through elements named `names`,
      one per level. */
  predicate Chain(t: Node, q: Address, from: nat, names: seq<string>)
  {
    |q| == from + |names| &&
    forall i :: from < i <= |q| ==> ElementAt(t, q[..i]) && NodeAt(t, q[..i]).name == names[i - from - 1]
  }

  /** The chain walk leaves, below `p`, one element per name, in order. */
  lemma {:induction false} NestChain(t: Node, p: Address, names: seq<string>)
    requires ElementAt(t, p)
    ensures Chain(Nest(t, p, names).0, Nest(t, p, names).1, |p|, names)
    decreases |names|
  {
    if names != [] {
      var s := EnsureChild(t, p, names[0]);
      var r := Nest(s.0, s.1, names[1..]);
      assert Nest(t, p, names) == r;
      NestChain(s.0, s.1, names[1..]);
      assert r.1[..|s.1|] == s.1;
      NestKeeps(s.0, s.1, names[1..], s.1);
      assert ElementAt(r.0, s.1) && NodeAt(r.0, s.1).name == names[0];
      forall i | |p| < i <= |r.1|
        ensures ElementAt(r.0, r.1[..i]) && NodeAt(r.0, r.1[..i]).name == names[i - |p| - 1]
      {
        if i == |s.1| {
          assert r.1[..i] == s.1;
        } else {
          assert names[1..][i - |s.1| - 1] == names[i - |p| - 1];
        }
      }
    }
  }

  /** Adding at one position keeps every node of the document, and leaves
      untouched every node that is neither inside that position nor above it. */
  lemma AddAtKeeps(t: Node, p: Address, names: seq<string>, b: Address)
    requires ElementAt(t, p) && names != [] && ValidAddress(t, b)
    ensures Kept(t, AddAt(t, p, names), b)
    ensures Apart(b, p) ==> NodeAt(AddAt(t, p, names), b) == NodeAt(t, b)
  {
    var s := Nest(t, p, Containers(names));
    NestKeeps(t, p, Containers(names), b);
    AppendKeeps(s.0, s.1, [NewElement(names[0])], b);
    if AncestorOrSelf(b, s.1) {
      AncestorOfLonger(b, p, s.1);
    }
  }

  lemma AddAtKeepsAll(t: Node, p: Address, names: seq<string>, positions: seq<Address>)
    requires ElementAt(t, p) && names != []
    requires forall k :: 0 <= k < |positions| ==> ElementAt(t, positions[k])
    ensures forall k :: 0 <= k < |positions| ==> ElementAt(AddAt(t, p, names), positions[k])
  {
    forall k | 0 <= k < |positions|
      ensures ElementAt(AddAt(t, p, names), positions[k])
    {
      AddAtKeeps(t, p, names, positions[k]);
    }
  }

  /** What one position gets: below `p`, an element for each of
      `names[|names|-1]` down to `names[1]`, the innermost of which now ends
      with the new, empty element `names[0]`. */
  lemma AddAtShape(t: Node, p: Address, names: seq<string>)
    requires ElementAt(t, p) && names != []
    ensures var q := Nest(t, p, Containers(names)).1;
            var r := AddAt(t, p, names);
            |q| == |p| + |names| - 1 && q[..|p|] == p &&
            (forall i :: |p| < i <= |q| ==>
               ElementAt(r, q[..i]) && NodeAt(r, q[..i]).name == names[|names| + |p| - i]) &&
            ElementAt(r, q) &&
            NodeAt(r, q).children == NodeAt(Nest(t, p, Containers(names)).0, q).children + [NewElement(names[0])]
  {
    var s := Nest(t, p, Containers(names));
    var r := AddAt(t, p, names);
    NestChain(t, p, Containers(names));
    assert Chain(s.0, s.1, |p|, Containers(names));
    forall i | |p| < i <= |s.1|
      ensures ElementAt(r, s.1[..i]) && NodeAt(r, s.1[..i]).name == names[|names| + |p| - i]
    {
      AppendKeeps(s.0, s.1, [NewElement(names[0])], s.1[..i]);
    }
  }

  /** Adding at every position keeps every node of the document with its
      kind and name: in particular, each position is still an element. */
  lemma {:induction false} AddEachKeeps(t: Node, positions: seq<Address>, names: seq<string>, b: Address)
    requires names != []
    requires forall k :: 0 <= k < |positions| ==> ElementAt(t, positions[k])
    requires ValidAddress(t, b)
    ensures Kept(t, AddEach(t, positions, names), b)
    decreases |positions|
  {
    if positions != [] {
      var t' := AddAt(t, positions[0], names);
      AddAtKeeps(t, positions[0], names, b);
      AddAtKeepsAll(t, positions[0], names, positions[1..]);
      AddEachKeeps(t', positions[1..], names, b);
    }
  }

  // ---------------------------------------------------------------------------
  // remove_elements
  // ---------------------------------------------------------------------------

  /** A node the caller holds: in tree `tree` of the forest, at `address`.
      Tree 0 is the document; each removed subtree becomes a tree of its own,
      the way a node detached by `removeChild` lives on without a parent. */
  datatype Position = Position(tree: nat, address: Address)

  predicate ValidPosition(trees: seq<Node>, l: Position)
  {
    l.tree < |trees| && ValidAddress(trees[l.tree], l.address)
  }

  /** The node `up` without its child `i`. */
  function Without(up: Node, i: nat): Node
    requires !up.Text? && i < |up.children|
  {
    up.(children := up.children[..i] + up.children[i + 1..])
  }

  /** `parentNode.removeChild(node)` for the node at `a`: its parent loses
      that one child and keeps the others in order. */
  function RemoveAt(t: Node, a: Address): (r: Node)
    requires ValidAddress(t, a) && a != []
    ensures IsContainer(r, Parent(a))
    ensures var cs := NodeAt(t, Parent(a)).children;
            NodeAt(r, Parent(a)).children == cs[..Last(a)] + cs[Last(a) + 1..]
  {
    ParentValid(t, a);
    var n := Without(NodeAt(t, Parent(a)), Last(a));
    ReplaceAtSelf(t, Parent(a), n);
    ReplaceAt(t, Parent(a), n)
  }

  /** One removal on the forest: the tree loses the node, which becomes the
      new last tree. */
  function RemoveOne(trees: seq<Node>, l: Position): (r: seq<Node>)
    requires ValidPosition(trees, l) && l.address != []
    ensures |r| == |trees| + 1
  {
    trees[l.tree := RemoveAt(trees[l.tree], l.address)] + [NodeAt(trees[l.tree], l.address)]
  }

  /** Where a held node `m` is after the node at `l` has been removed and
      made tree `detached`. */
  function Rebase(m: Position, l: Position, detached: nat): (r: Position)
    requires l.address != []
    ensures m.tree != l.tree ==> r == m
    ensures r.tree == m.tree || r.tree == detached
    ensures |r.address| <= |m.address|
  {
    var a := l.address;
    var b := m.address;
    if m.tree != l.tree then m
    else if AncestorOrSelf(a, b) then Position(detached, b[|a|..])
    else if |a| <= |b| && b[..|a| - 1] == Parent(a) && b[|a| - 1] > Last(a) then
      Position(m.tree, b[|a| - 1 := b[|a| - 1] - 1])
    else m
  }

  function RebaseAll(ms: seq<Position>, l: Position, detached: nat): seq<Position>
    requires l.address != []
  {
    seq(|ms|, k requires 0 <= k < |ms| => Rebase(ms[k], l, detached))
  }

  /** The outcome of `remove_elements`: the forest, and whether it stopped
      with an `AttributeError`. */
  datatype Removal = Removal(trees: seq<Node>, failed: bool)

  /** The loop of `remove_elements` over the positions still to remove. A
      node without a parent (the document itself, or a node removed
      already) has no `parentNode` to call `removeChild` on. */
  function RemoveAll(trees: seq<Node>, ps: seq<Position>): (r: Removal)
    requires forall k :: 0 <= k < |ps| ==> ValidPosition(trees, ps[k])
    ensures !r.failed ==> |r.trees| == |trees| + |ps|
    ensures r.failed ==> |trees| <= |r.trees| < |trees| + |ps|
    ensures |ps| >= 1 && ps[0].address == [] ==> r == Removal(trees, true)
    decreases |ps|
  {
    if ps == [] then Removal(trees, false)
    else if ps[0].address == [] then Removal(trees, true)
    else
      RebaseAllValid(trees, ps[0], ps[1..]);
      RemoveAll(RemoveOne(trees, ps[0]), RebaseAll(ps[1..], ps[0], |trees|))
  }

  /** The positions of the document as held nodes. */
  function Held(positions: seq<Address>): seq<Position>
  {
    seq(|positions|, k requires 0 <= k < |positions| => Position(0, positions[k]))
  }

  /** `remove_elements`. The DOM keeps a node's identity when it moves or is
      detached; an address does not, so the positions still to be removed
      are re-expressed after each removal. */
  method RemoveElements(doc: Node, positions: seq<Address>) returns (r: Removal)
    requires forall k :: 0 <= k < |positions| ==> ValidAddress(doc, positions[k])
    ensures r == RemoveAll([doc], Held(positions))
    ensures positions == [] ==> r == Removal([doc], false)
  {
    var trees := [doc];
    var held := Held(positions);
    if |positions| == 0 {
      return Removal(trees, false);
    }
    for k := 0 to |held|
      invariant |held| == |positions|
      invariant forall j :: k <= j < |held| ==> ValidPosition(trees, held[j])
      invariant RemoveAll([doc], Held(positions)) == RemoveAll(trees, held[k..])
    {
      var position := held[k];
      if position.address == [] {
        return Removal(trees, true);
      }
      RebaseAllValid(trees, position, held[k + 1..]);
      assert held[k..][1..] == held[k + 1..];
      var detached := |trees|;
      ghost var waiting := held[k + 1..];
      trees := RemoveOne(trees, position);
      held := held[..k + 1] + RebaseAll(held[k + 1..], position, detached);
      assert held[k + 1..] == RebaseAll(waiting, position, detached);
    }
    assert held[|held|..] == [];
    return Removal(trees, false);
  }

  // ---------------------------------------------------------------------------
  // what removing keeps
  // ---------------------------------------------------------------------------

  lemma LookupFirst(n: Node, i: nat, rest: Address)
    requires !n.Text? && i < |n.children|
    ensures Lookup(n, [i] + rest) == Lookup(n.children[i], rest)
  {
    LookupChild(n, [], i);
    assert [] + [i] == [i];
    LookupConcat(n, [i], rest);
  }

  /** Looking up below the `i`-th child, when that succeeds. */
  lemma LookupFirstValid(n: Node, i: nat, rest: Address)
    requires ValidAddress(n, [i] + rest)
    ensures !n.Text? && i < |n.children| && Lookup(n, [i] + rest) == Lookup(n.children[i], rest)
  {
    PrefixValid(n, [i] + rest, 0);
    assert ([i] + rest)[..0] == [] && ([i] + rest)[..1] == [i];
    LookupFirst(n, i, rest);
  }

  /** A later sibling of the removed node, or a node inside one, moves up by
      one place among the parent's children and is otherwise the same. */
  lemma RemoveShifts(t: Node, a: Address, b: Address)
    requires ValidAddress(t, a) && a != [] && ValidAddress(t, b)
    requires |a| <= |b| && b[..|a| - 1] == Parent(a) && b[|a| - 1] > Last(a)
    ensures var b' := b[|a| - 1 := b[|a| - 1] - 1];
            ValidAddress(RemoveAt(t, a), b') && NodeAt(RemoveAt(t, a), b') == NodeAt(t, b)
  {
    var p := Parent(a);
    var j := b[|a| - 1];
    var rest := b[|a|..];
    assert b == p + ([j] + rest);
    assert b[|a| - 1 := j - 1] == p + ([j - 1] + rest);
    RemoveShiftsAt(t, a, j, rest);
  }

  /** `RemoveShifts` with the later sibling's address taken apart. */
  lemma RemoveShiftsAt(t: Node, a: Address, j: nat, rest: Address)
    requires ValidAddress(t, a) && a != [] && ValidAddress(t, Parent(a) + ([j] + rest)) && j > Last(a)
    ensures ValidAddress(RemoveAt(t, a), Parent(a) + ([j - 1] + rest))
    ensures NodeAt(RemoveAt(t, a), Parent(a) + ([j - 1] + rest)) == NodeAt(t, Parent(a) + ([j] + rest))
  {
    var p := Parent(a);
    ParentValid(t, a);
    var up := NodeAt(t, p);
    var n := Without(up, Last(a));
    LookupBelowChild(t, p, j, rest);
    LookupBelowReplaced(t, p, n, j - 1, rest);
    assert n.children[j - 1] == up.children[j];
  }

  /** Looking up below the `j`-th child of the node at `p`. */
  lemma LookupBelowChild(t: Node, p: Address, j: nat, rest: Address)
    requires ValidAddress(t, p) && ValidAddress(t, p + ([j] + rest))
    ensures !NodeAt(t, p).Text? && j < |NodeAt(t, p).children|
    ensures Lookup(t, p + ([j] + rest)) == Lookup(NodeAt(t, p).children[j], rest)
  {
    LookupConcat(t, p, [j] + rest);
    LookupFirstValid(NodeAt(t, p), j, rest);
  }

  /** Looking up below the `i`-th child of a node put in place at `p`. */
  lemma LookupBelowReplaced(t: Node, p: Address, n: Node, i: nat, rest: Address)
    requires ValidAddress(t, p) && !n.Text? && i < |n.children|
    ensures Lookup(ReplaceAt(t, p, n), p + ([i] + rest)) == Lookup(n.children[i], rest)
  {
    ReplaceAtBelow(t, p, n, [i] + rest);
    LookupFirst(n, i, rest);
  }

  /** Removing the node at `a` keeps every node outside it: each is found
      again at `b` itself or, after a later sibling, one place earlier;
      only the nodes above `a` change, and they keep their kind and name. */
  lemma RemoveKeeps(t: Node, a: Address, b: Address)
    requires ValidAddress(t, a) && a != [] && ValidAddress(t, b) && !AncestorOrSelf(a, b)
    ensures var b' := if |a| <= |b| && b[..|a| - 1] == Parent(a) && b[|a| - 1] > Last(a)
                      then b[|a| - 1 := b[|a| - 1] - 1] else b;
            ValidAddress(RemoveAt(t, a), b') &&
            NodeName(NodeAt(RemoveAt(t, a), b')) == NodeName(NodeAt(t, b)) &&
            NodeAt(RemoveAt(t, a), b').Text? == NodeAt(t, b).Text? &&
            NodeAt(RemoveAt(t, a), b').Document? == NodeAt(t, b).Document? &&
            (!AncestorOrSelf(b, Parent(a)) ==> NodeAt(RemoveAt(t, a), b') == NodeAt(t, b))
  {
    var p := Parent(a);
    if |a| <= |b| && b[..|a| - 1] == p && b[|a| - 1] > Last(a) {
      RemoveShifts(t, a, b);
    } else {
      var l := CommonPrefix(b, p);
      if l == |b| {
        RemoveKeepsAbove(t, a, b);
      } else if l == |p| {
        var j := b[|p|];
        var rest := b[|a|..];
        assert b[..|p|] == p;
        assert b[..|a|] == p + [j] && a == p + [Last(a)];
        assert b == p + ([j] + rest);
        RemoveKeepsEarlierAt(t, a, j, rest);
      } else {
        RemoveKeepsAside(t, a, b, l);
      }
    }
  }

  /** An ancestor of the removed node, or its parent, keeps its kind and name. */
  lemma RemoveKeepsAbove(t: Node, a: Address, b: Address)
    requires ValidAddress(t, a) && a != [] && AncestorOrSelf(b, Parent(a))
    ensures ValidAddress(RemoveAt(t, a), b) && ValidAddress(t, b)
    ensures NodeName(NodeAt(RemoveAt(t, a), b)) == NodeName(NodeAt(t, b))
    ensures NodeAt(RemoveAt(t, a), b).Text? == NodeAt(t, b).Text?
    ensures NodeAt(RemoveAt(t, a), b).Document? == NodeAt(t, b).Document?
  {
    var p := Parent(a);
    ParentValid(t, a);
    var n := Without(NodeAt(t, p), Last(a));
    if |b| == |p| {
      assert b == p;
      ReplaceAtSelf(t, p, n);
    } else {
      ReplaceAtAncestor(t, p, n, b);
    }
  }

  /** An earlier sibling of the removed node, or a node inside one, stays
      where it is. */
  lemma RemoveKeepsEarlierAt(t: Node, a: Address, j: nat, rest: Address)
    requires ValidAddress(t, a) && a != [] && ValidAddress(t, Parent(a) + ([j] + rest)) && j < Last(a)
    ensures ValidAddress(RemoveAt(t, a), Parent(a) + ([j] + rest))
    ensures NodeAt(RemoveAt(t, a), Parent(a) + ([j] + rest)) == NodeAt(t, Parent(a) + ([j] + rest))
  {
    var p := Parent(a);
    ParentValid(t, a);
    var up := NodeAt(t, p);
    var n := Without(up, Last(a));
    LookupBelowChild(t, p, j, rest);
    LookupBelowReplaced(t, p, n, j, rest);
    assert n.children[j] == up.children[j];
  }

  /** A node whose path branches off from the parent's at depth `l` stays
      where it is. */
  lemma RemoveKeepsAside(t: Node, a: Address, b: Address, l: nat)
    requires ValidAddress(t, a) && a != [] && ValidAddress(t, b)
    requires l < |Parent(a)| && l < |b| && b[..l] == Parent(a)[..l] && b[l] != Parent(a)[l]
    ensures ValidAddress(RemoveAt(t, a), b) && NodeAt(RemoveAt(t, a), b) == NodeAt(t, b)
  {
    ParentValid(t, a);
    ReplaceAtDiverge(t, Parent(a), Without(NodeAt(t, Parent(a)), Last(a)), b, l);
  }

  /** A node inside the removed one is found in the detached subtree, at the
      rest of its path. */
  lemma RemoveDetaches(t: Node, a: Address, b: Address)
    requires ValidAddress(t, a) && a != [] && ValidAddress(t, b) && AncestorOrSelf(a, b)
    ensures ValidAddress(NodeAt(t, a), b[|a|..]) && NodeAt(NodeAt(t, a), b[|a|..]) == NodeAt(t, b)
  {
    assert b == a + b[|a|..];
    LookupConcat(t, a, b[|a|..]);
  }

  /** After one removal every held node is still there, where `Rebase` says:
      the same node, unless it is an ancestor of the removed one, which keeps
      its kind and name. */
  lemma RebaseKeeps(trees: seq<Node>, l: Position, m: Position)
    requires ValidPosition(trees, l) && l.address != [] && ValidPosition(trees, m)
    ensures var r := RemoveOne(trees, l);
            var m' := Rebase(m, l, |trees|);
            ValidPosition(r, m') &&
            NodeName(NodeAt(r[m'.tree], m'.address)) == NodeName(NodeAt(trees[m.tree], m.address)) &&
            NodeAt(r[m'.tree], m'.address).Text? == NodeAt(trees[m.tree], m.address).Text? &&
            (!(m.tree == l.tree && AncestorOrSelf(m.address, Parent(l.address))) ==>
               NodeAt(r[m'.tree], m'.address) == NodeAt(trees[m.tree], m.address))
  {
    var r := RemoveOne(trees, l);
    if m.tree == l.tree {
      var t := trees[l.tree];
      assert r[l.tree] == RemoveAt(t, l.address);
      if AncestorOrSelf(l.address, m.address) {
        assert r[|trees|] == NodeAt(t, l.address);
        RemoveDetaches(t, l.address, m.address);
      } else {
        RemoveKeeps(t, l.address, m.address);
      }
    } else {
      assert r[m.tree] == trees[m.tree];
    }
  }

  lemma RebaseAllValid(trees: seq<Node>, l: Position, ms: seq<Position>)
    requires ValidPosition(trees, l) && l.address != []
    requires forall k :: 0 <= k < |ms| ==> ValidPosition(trees, ms[k])
    ensures forall k :: 0 <= k < |ms| ==>
              ValidPosition(RemoveOne(trees, l), RebaseAll(ms, l, |trees|)[k])
  {
    forall k | 0 <= k < |ms|
      ensures ValidPosition(RemoveOne(trees, l), RebaseAll(ms, l, |trees|)[k])
    {
      RebaseKeeps(trees, l, ms[k]);
    }
  }

  /** Removing the same node twice raises `AttributeError`: once detached,
      it has no parent. */
  lemma RemoveTwiceFails(trees: seq<Node>, l: Position)
    requires ValidPosition(trees, l) && l.address != []
    ensures RemoveAll(trees, [l, l]).failed
    ensures RemoveAll(trees, [l, l]).trees == RemoveOne(trees, l)
  {
    assert Rebase(l, l, |trees|).address == [];
    RebaseAllValid(trees, l, [l]);
  }

  /** A later sibling of a removed node is held one place earlier. */
  lemma RebaseLaterSibling(p: Address, i: nat, j: nat, detached: nat)
    requires i < j
    ensures Rebase(Position(0, p + [j]), Position(0, p + [i]), detached) == Position(0, p + [j - 1])
  {
    var a := p + [i];
    var b := p + [j];
    assert Parent(a) == p && Last(a) == i;
    assert b[..|a| - 1] == p && b[|a| - 1] == j;
    assert b[..|a|] != a;
    assert b[|a| - 1 := j - 1] == p + [j - 1];
  }

  /** The first of the two removals: the later sibling is then one place
      earlier. */
  lemma RemoveEarlierSibling(t: Node, p: Address, i: nat, j: nat)
    requires IsContainer(t, p) && i < j < |NodeAt(t, p).children|
    ensures ValidAddress(t, p + [i]) && NodeAt(t, p + [i]) == NodeAt(t, p).children[i]
    ensures var cs := NodeAt(t, p).children;
            var r := RemoveAt(t, p + [i]);
            IsContainer(r, p) && NodeAt(r, p).children == cs[..i] + cs[i + 1..] &&
            ValidAddress(r, p + [j - 1]) && NodeAt(r, p + [j - 1]) == cs[j]
  {
    var cs := NodeAt(t, p).children;
    LookupChild(t, p, i);
    assert Parent(p + [i]) == p && Last(p + [i]) == i;
    ChildAfterRemoval(RemoveAt(t, p + [i]), p, cs, i, j);
  }

  /** Once child `i` of `cs` is gone, child `j` after it is child `j - 1`. */
  lemma ChildAfterRemoval(r: Node, p: Address, cs: seq<Node>, i: nat, j: nat)
    requires i < j < |cs| && IsContainer(r, p) && NodeAt(r, p).children == cs[..i] + cs[i + 1..]
    ensures ValidAddress(r, p + [j - 1]) && NodeAt(r, p + [j - 1]) == cs[j]
  {
    assert NodeAt(r, p).children[j - 1] == cs[j];
    LookupChild(r, p, j - 1);
  }

  /** Removing two children of the same element, the earlier first: both come
      out, in the order given, and the remaining children keep their order. */
  lemma RemoveTwoSiblings(t: Node, p: Address, i: nat, j: nat)
    requires IsContainer(t, p) && i < j < |NodeAt(t, p).children|
    ensures var cs := NodeAt(t, p).children;
            var r := RemoveAll([t], Held([p + [i], p + [j]]));
            !r.failed && |r.trees| == 3 && r.trees[1] == cs[i] && r.trees[2] == cs[j] &&
            IsContainer(r.trees[0], p) &&
            NodeAt(r.trees[0], p).children == cs[..i] + cs[i + 1..j] + cs[j + 1..]
  {
    var cs := NodeAt(t, p).children;
    RemoveEarlierSibling(t, p, i, j);
    LookupChild(t, p, j);
    RebaseLaterSibling(p, i, j, 1);
    var first := Position(0, p + [i]);
    var second := Position(0, p + [j]);
    var moved := Position(0, p + [j - 1]);
    assert Held([p + [i], p + [j]]) == [first, second];
    RemoveAllPair([t], first, second);
    var r1 := RemoveAt(t, p + [i]);
    assert RemoveOne([t], first) == [r1, cs[i]];
    SecondRemoval(r1, p, cs, i, j, cs[i]);
  }

  /** The second of the two removals, from the tree the first one left. */
  lemma SecondRemoval(r1: Node, p: Address, cs: seq<Node>, i: nat, j: nat, detached: Node)
    requires i < j < |cs| && IsContainer(r1, p) && NodeAt(r1, p).children == cs[..i] + cs[i + 1..]
    requires ValidAddress(r1, p + [j - 1]) && NodeAt(r1, p + [j - 1]) == cs[j]
    ensures RemoveOne([r1, detached], Position(0, p + [j - 1])) == [RemoveAt(r1, p + [j - 1]), detached, cs[j]]
    ensures IsContainer(RemoveAt(r1, p + [j - 1]), p)
    ensures NodeAt(RemoveAt(r1, p + [j - 1]), p).children == cs[..i] + cs[i + 1..j] + cs[j + 1..]
  {
    LaterChildRemoved(r1, p, cs, i, j);
  }

  lemma LaterChildRemoved(r1: Node, p: Address, cs: seq<Node>, i: nat, j: nat)
    requires i < j < |cs| && IsContainer(r1, p) && NodeAt(r1, p).children == cs[..i] + cs[i + 1..]
    requires ValidAddress(r1, p + [j - 1])
    ensures IsContainer(RemoveAt(r1, p + [j - 1]), p)
    ensures NodeAt(RemoveAt(r1, p + [j - 1]), p).children == cs[..i] + cs[i + 1..j] + cs[j + 1..]
  {
    assert Parent(p + [j - 1]) == p && Last(p + [j - 1]) == j - 1;
    DropTwo(cs, i, j);
  }

  /** Two removals in a row, the second at the rebased position. */
  lemma RemoveAllPair(trees: seq<Node>, l: Position, m: Position)
    requires ValidPosition(trees, l) && l.address != [] && ValidPosition(trees, m)
    requires Rebase(m, l, |trees|).address != []
    ensures ValidPosition(RemoveOne(trees, l), Rebase(m, l, |trees|))
    ensures RemoveAll(trees, [l, m])
         == Removal(RemoveOne(RemoveOne(trees, l), Rebase(m, l, |trees|)), false)
  {
    var m' := Rebase(m, l, |trees|);
    RebaseAllValid(trees, l, [m]);
    assert [l, m][1..] == [m];
    assert RebaseAll([m], l, |trees|) == [m'];
    var trees1 := RemoveOne(trees, l);
    assert RemoveAll(trees, [l, m]) == RemoveAll(trees1, [m']);
    assert [m'][1..] == [] && RebaseAll([], m', |trees1|) == [];
    assert RemoveAll(trees1, [m']) == RemoveAll(RemoveOne(trees1, m'), []);
  }

  /** Dropping child `j - 1` of what is left after dropping child `i < j`. */
  lemma DropTwo(cs: seq<Node>, i: nat, j: nat)
    requires i < j < |cs|
    ensures var ds := cs[..i] + cs[i + 1..];
            ds[..j - 1] + ds[j..] == cs[..i] + cs[i + 1..j] + cs[j + 1..]
  {
    var ds := cs[..i] + cs[i + 1..];
    assert ds[..j - 1] == cs[..i] + cs[i + 1..j];
    assert ds[j..] == cs[j + 1..];
  }
}
