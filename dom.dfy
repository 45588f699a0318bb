/** The part of the DOM that the field-path code touches, as values.

    A tree is a `Node`; a node inside it is named by its `Address`, the raw
    child indices leading to it from the top (the document node). The form
    processing code only appends children and replaces a child in place, so
    an address obtained once keeps naming the same slot while the document
    grows, which is what lets a selector hold on to a node. (Removal, which
    does move nodes, is handled where it happens, in `Utils`.) */
module Dom {
  import opened Wrappers

  datatype Node =
    | Document(children: seq<Node>)
    | Element(name: string, attrs: map<string, string>, children: seq<Node>)
    | Text(content: string)

  type Address = seq<nat>

  /** A reference to a node or to one attribute of an element. */
  datatype Handle =
    | NodeRef(address: Address)
    | AttributeRef(owner: Address, attr: string)

  /** DOM `nodeName`. */
  function NodeName(n: Node): string
  {
    match n
    case Document(_) => "#document"
    case Element(name, _, _) => name
    case Text(_) => "#text"
  }

  function Parent(p: Address): Address
    requires p != []
  {
    p[..|p| - 1]
  }

  function Last(p: Address): nat
    requires p != []
  {
    p[|p| - 1]
  }

  /** The node at `p`, if every index on the way names an existing child. */
  function Lookup(t: Node, p: Address): Option<Node>
    decreases |p|
  {
    if p == [] then Some(t)
    else
      match Lookup(t, Parent(p))
      case None => None
      case Some(up) =>
        if !up.Text? && Last(p) < |up.children| then Some(up.children[Last(p)]) else None
  }

  predicate ValidAddress(t: Node, p: Address)
  {
    Lookup(t, p).Some?
  }

  function NodeAt(t: Node, p: Address): Node
    requires ValidAddress(t, p)
  {
    Lookup(t, p).value
  }

  /** A node that can hold children: the document or an element. */
  predicate IsContainer(t: Node, p: Address)
  {
    ValidAddress(t, p) && !NodeAt(t, p).Text?
  }

  /** One step down: the child `i` of the node at `p`. */
  lemma LookupChild(t: Node, p: Address, i: nat)
    ensures ValidAddress(t, p + [i]) <==> IsContainer(t, p) && i < |NodeAt(t, p).children|
    ensures ValidAddress(t, p + [i]) ==> NodeAt(t, p + [i]) == NodeAt(t, p).children[i]
  {
    assert Parent(p + [i]) == p;
  }

  /** The parent of a node is a container holding it at its last index. */
  lemma ParentValid(t: Node, p: Address)
    requires ValidAddress(t, p) && p != []
    ensures IsContainer(t, Parent(p)) && Last(p) < |NodeAt(t, Parent(p)).children|
    ensures NodeAt(t, p) == NodeAt(t, Parent(p)).children[Last(p)]
  {
  }

  /** Every prefix of a valid address is valid and names a container. */
  lemma {:induction false} PrefixValid(t: Node, p: Address, k: nat)
    requires ValidAddress(t, p) && k < |p|
    ensures IsContainer(t, p[..k]) && p[k] < |NodeAt(t, p[..k]).children|
    ensures ValidAddress(t, p[..k + 1])
    ensures NodeAt(t, p[..k + 1]) == NodeAt(t, p[..k]).children[p[k]]
    decreases |p|
  {
    if k + 1 < |p| {
      assert Parent(p)[..k] == p[..k] && Parent(p)[..k + 1] == p[..k + 1];
      PrefixValid(t, Parent(p), k);
    } else {
      assert p[..k] == Parent(p) && p[..k + 1] == p;
    }
  }

  /** The container `n` with its child `i` replaced by `c`. */
  function WithChild(n: Node, i: nat, c: Node): (r: Node)
    requires !n.Text? && i < |n.children|
    ensures !r.Text? && NodeName(r) == NodeName(n) && |r.children| == |n.children|
    ensures r.Document? == n.Document?
  {
    n.(children := n.children[i := c])
  }

  /** The tree `t` with the node at `p` replaced by `n` (DOM `replaceChild`,
      and every in-place change of one node, seen from the top). */
  function ReplaceAt(t: Node, p: Address, n: Node): Node
    requires ValidAddress(t, p)
    decreases |p|
  {
    if p == [] then n
    else ReplaceAt(t, Parent(p), WithChild(NodeAt(t, Parent(p)), Last(p), n))
  }

  lemma {:induction false} ReplaceAtSelf(t: Node, p: Address, n: Node)
    requires ValidAddress(t, p)
    ensures ValidAddress(ReplaceAt(t, p, n), p) && NodeAt(ReplaceAt(t, p, n), p) == n
    decreases |p|
  {
    if p != [] {
      var up := NodeAt(t, Parent(p));
      ReplaceAtSelf(t, Parent(p), WithChild(up, Last(p), n));
      LookupChild(ReplaceAt(t, p, n), Parent(p), Last(p));
      assert Parent(p) + [Last(p)] == p;
    }
  }

  /** Putting back the node that is already there changes nothing. */
  lemma {:induction false} ReplaceAtSame(t: Node, p: Address)
    requires ValidAddress(t, p)
    ensures ReplaceAt(t, p, NodeAt(t, p)) == t
    decreases |p|
  {
    if p != [] {
      var up := NodeAt(t, Parent(p));
      assert up.children[Last(p) := up.children[Last(p)]] == up.children;
      assert WithChild(up, Last(p), NodeAt(t, p)) == up;
      ReplaceAtSame(t, Parent(p));
    }
  }

  /** The top of the tree stays a document when the replacement keeps the kind. */
  lemma {:induction false} ReplaceAtKind(t: Node, p: Address, n: Node)
    requires ValidAddress(t, p) && n.Document? == NodeAt(t, p).Document?
    ensures ReplaceAt(t, p, n).Document? == t.Document?
    decreases |p|
  {
    if p != [] {
      ReplaceAtKind(t, Parent(p), WithChild(NodeAt(t, Parent(p)), Last(p), n));
    }
  }

  /** After replacing the container at `c`, its children are reachable below `c`. */
  lemma ReplacedChild(t: Node, c: Address, n: Node, i: nat)
    requires ValidAddress(t, c) && !n.Text? && i < |n.children|
    ensures ValidAddress(ReplaceAt(t, c, n), c + [i])
    ensures NodeAt(ReplaceAt(t, c, n), c + [i]) == n.children[i]
  {
    ReplaceAtSelf(t, c, n);
    LookupChild(ReplaceAt(t, c, n), c, i);
  }

  /** `appendChild` of each of `more`, in order, on the container at `c`. */
  function AppendAt(t: Node, c: Address, more: seq<Node>): (r: Node)
    requires IsContainer(t, c)
    ensures r.Document? == t.Document?
    ensures IsContainer(r, c)
    ensures NodeAt(r, c) == NodeAt(t, c).(children := NodeAt(t, c).children + more)
  {
    var n := NodeAt(t, c).(children := NodeAt(t, c).children + more);
    ReplaceAtKind(t, c, n);
    ReplaceAtSelf(t, c, n);
    ReplaceAt(t, c, n)
  }

  /** `insertBefore(n, ref)` on the container at `c`, where `ref` is its child `i`. */
  function InsertAt(t: Node, c: Address, i: nat, n: Node): (r: Node)
    requires IsContainer(t, c) && i <= |NodeAt(t, c).children|
    ensures r.Document? == t.Document?
    ensures IsContainer(r, c)
    ensures NodeAt(r, c) == NodeAt(t, c).(children := NodeAt(t, c).children[..i] + [n] + NodeAt(t, c).children[i..])
  {
    var m := NodeAt(t, c).(children := NodeAt(t, c).children[..i] + [n] + NodeAt(t, c).children[i..]);
    ReplaceAtKind(t, c, m);
    ReplaceAtSelf(t, c, m);
    ReplaceAt(t, c, m)
  }

  /** Replacing the node at `p` changes each ancestor at `q` only in the child
      that leads to `p`. */
  lemma {:induction false} ReplaceAtAncestor(t: Node, p: Address, n: Node, q: Address)
    requires ValidAddress(t, p) && |q| < |p| && q == p[..|q|]
    ensures IsContainer(t, q) && p[|q|] < |NodeAt(t, q).children|
    ensures ValidAddress(ReplaceAt(t, p, n), q + [p[|q|]])
    ensures ValidAddress(ReplaceAt(t, p, n), q)
    ensures NodeAt(ReplaceAt(t, p, n), q)
         == WithChild(NodeAt(t, q), p[|q|], NodeAt(ReplaceAt(t, p, n), q + [p[|q|]]))
    decreases |p|
  {
    PrefixValid(t, p, |q|);
    assert p[..|q| + 1] == q + [p[|q|]];
    var up := NodeAt(t, Parent(p));
    var t' := ReplaceAt(t, p, n);
    assert t' == ReplaceAt(t, Parent(p), WithChild(up, Last(p), n));
    ReplaceAtSelf(t, Parent(p), WithChild(up, Last(p), n));
    if |q| + 1 == |p| {
      assert q == Parent(p) && q + [p[|q|]] == p;
      LookupChild(t', q, p[|q|]);
    } else {
      assert q == Parent(p)[..|q|] && Parent(p)[|q|] == p[|q|];
      ReplaceAtAncestor(t, Parent(p), WithChild(up, Last(p), n), q);
    }
  }

  /** Looking up a path in two legs: first to `a`, then from the node there. */
  lemma {:induction false} LookupConcat(t: Node, a: Address, b: Address)
    requires ValidAddress(t, a)
    ensures Lookup(t, a + b) == Lookup(NodeAt(t, a), b)
    decreases |b|
  {
    if b == [] {
      assert a + b == a;
    } else {
      assert Parent(a + b) == a + Parent(b) && Last(a + b) == Last(b);
      LookupConcat(t, a, Parent(b));
    }
  }

  /** Replacing the node at `p` leaves alone every node whose path branches off
      from `p` at depth `l`. */
  lemma ReplaceAtDiverge(t: Node, p: Address, n: Node, b: Address, l: nat)
    requires ValidAddress(t, p) && ValidAddress(t, b)
    requires l < |p| && l < |b| && b[..l] == p[..l] && b[l] != p[l]
    ensures ValidAddress(ReplaceAt(t, p, n), b) && NodeAt(ReplaceAt(t, p, n), b) == NodeAt(t, b)
  {
    var t' := ReplaceAt(t, p, n);
    var q := p[..l];
    ReplaceAtAncestor(t, p, n, q);
    PrefixValid(t, b, l);
    assert b[..l + 1] == q + [b[l]];
    LookupChild(t', q, b[l]);
    LookupChild(t, q, b[l]);
    var c := q + [b[l]];
    assert b == c + b[l + 1..];
    LookupConcat(t, c, b[l + 1..]);
    LookupConcat(t', c, b[l + 1..]);
  }

  /** Below the replaced node, paths are looked up in the new node. */
  lemma ReplaceAtBelow(t: Node, p: Address, n: Node, rest: Address)
    requires ValidAddress(t, p)
    ensures Lookup(ReplaceAt(t, p, n), p + rest) == Lookup(n, rest)
  {
    ReplaceAtSelf(t, p, n);
    LookupConcat(ReplaceAt(t, p, n), p, rest);
  }

  /** Replacing the node at `p` by one that keeps the child on the way to `b`
      leaves the node at `b` alone. */
  lemma ReplaceAtSameChild(t: Node, p: Address, n: Node, b: Address)
    requires ValidAddress(t, p) && ValidAddress(t, b)
    requires |p| < |b| && b[..|p|] == p
    requires !n.Text? && b[|p|] < |n.children|
    requires Lookup(t, b[..|p| + 1]) == Some(n.children[b[|p|]])
    ensures ValidAddress(ReplaceAt(t, p, n), b) && NodeAt(ReplaceAt(t, p, n), b) == NodeAt(t, b)
  {
    var t' := ReplaceAt(t, p, n);
    var c := b[..|p| + 1];
    assert c == p + [b[|p|]];
    ReplaceAtSelf(t, p, n);
    LookupChild(t', p, b[|p|]);
    assert b == c + b[|p| + 1..];
    PrefixValid(t, b, |p|);
    LookupConcat(t, c, b[|p| + 1..]);
    LookupConcat(t', c, b[|p| + 1..]);
  }

  /** The length of the longest common prefix of two paths. */
  function CommonPrefix(b: Address, p: Address): (l: nat)
    ensures l <= |b| && l <= |p| && b[..l] == p[..l]
    ensures l < |b| && l < |p| ==> b[l] != p[l]
  {
    if b == [] || p == [] || b[0] != p[0] then 0
    else
      var l := CommonPrefix(b[1..], p[1..]) + 1;
      assert b[..l] == [b[0]] + b[1..][..l - 1];
      assert p[..l] == [p[0]] + p[1..][..l - 1];
      l
  }

  /** Whether `b` is `p` or one of its ancestors. */
  predicate AncestorOrSelf(b: Address, p: Address)
  {
    |b| <= |p| && b == p[..|b|]
  }

  /** Appending children keeps every node where it was: each address stays
      valid with the same kind and name, and only the container and its
      ancestors change at all. */
  lemma AppendKeeps(t: Node, c: Address, more: seq<Node>, b: Address)
    requires IsContainer(t, c) && ValidAddress(t, b)
    ensures ValidAddress(AppendAt(t, c, more), b)
    ensures var m := NodeAt(AppendAt(t, c, more), b);
            var o := NodeAt(t, b);
            NodeName(m) == NodeName(o) && m.Text? == o.Text? && m.Document? == o.Document?
    ensures !AncestorOrSelf(b, c) ==> NodeAt(AppendAt(t, c, more), b) == NodeAt(t, b)
  {
    var old_ := NodeAt(t, c);
    var n := old_.(children := old_.children + more);
    var t' := AppendAt(t, c, more);
    assert t' == ReplaceAt(t, c, n);
    var l := CommonPrefix(b, c);
    if l == |b| {
      if |b| == |c| {
        assert b == c;
      } else {
        ReplaceAtAncestor(t, c, n, b);
      }
    } else if l == |c| {
      PrefixValid(t, b, |c|);
      ReplaceAtSameChild(t, c, n, b);
    } else {
      ReplaceAtDiverge(t, c, n, b, l);
    }
  }

  // ---------------------------------------------------------------------------
  // element-only ordinals: `node.xpath("*")` and `count(preceding-sibling::*)`
  // ---------------------------------------------------------------------------

  /** How many of `cs` are elements. */
  function ElementCount(cs: seq<Node>): nat
  {
    if cs == [] then 0
    else ElementCount(cs[..|cs| - 1]) + (if cs[|cs| - 1].Element? then 1 else 0)
  }

  lemma {:induction false} ElementCountAppend(a: seq<Node>, b: seq<Node>)
    ensures ElementCount(a + b) == ElementCount(a) + ElementCount(b)
    decreases |b|
  {
    if b != [] {
      assert (a + b)[..|a + b| - 1] == a + b[..|b| - 1];
      ElementCountAppend(a, b[..|b| - 1]);
    } else {
      assert a + b == a;
    }
  }

  /** Counting along prefixes: one more exactly at each element. */
  lemma ElementCountStep(cs: seq<Node>, i: nat)
    requires i < |cs|
    ensures ElementCount(cs[..i + 1]) == ElementCount(cs[..i]) + (if cs[i].Element? then 1 else 0)
  {
    assert cs[..i + 1][..i] == cs[..i];
  }

  lemma ElementCountMonotone(cs: seq<Node>, i: nat, j: nat)
    requires i <= j <= |cs|
    ensures ElementCount(cs[..i]) <= ElementCount(cs[..j])
  {
    assert cs[..j] == cs[..i] + cs[i..j];
    ElementCountAppend(cs[..i], cs[i..j]);
  }

  /** The raw index of the element with ordinal `k`, i.e. `xpath("*")[k]`. */
  function ElementPos(cs: seq<Node>, k: nat): (i: nat)
    requires k < ElementCount(cs)
    ensures i < |cs| && cs[i].Element? && ElementCount(cs[..i]) == k
  {
    var init := cs[..|cs| - 1];
    if k < ElementCount(init) then
      var i := ElementPos(init, k);
      assert init[..i] == cs[..i];
      i
    else
      assert init == cs[..|cs| - 1];
      |cs| - 1
  }

  /** Swapping one element for another keeps every element ordinal. */
  lemma ElementCountUpdate(cs: seq<Node>, i: nat, n: Node)
    requires i < |cs| && cs[i].Element? && n.Element?
    ensures ElementCount(cs[i := n]) == ElementCount(cs)
    ensures cs[i := n][..i] == cs[..i]
  {
    var cs' := cs[i := n];
    assert cs == (cs[..i] + [cs[i]]) + cs[i + 1..];
    assert cs' == (cs[..i] + [n]) + cs[i + 1..];
    assert [cs[i]][..0] == [] && [n][..0] == [];
    ElementCountAppend(cs[..i] + [cs[i]], cs[i + 1..]);
    ElementCountAppend(cs[..i], [cs[i]]);
    ElementCountAppend(cs[..i] + [n], cs[i + 1..]);
    ElementCountAppend(cs[..i], [n]);
  }

  /** An element's ordinal leads back to it: `xpath("*")[count(preceding-sibling::*)]`
      is the element itself. */
  lemma ElementPosOfOrdinal(cs: seq<Node>, i: nat)
    requires i < |cs| && cs[i].Element?
    ensures ElementCount(cs[..i]) < ElementCount(cs)
    ensures ElementPos(cs, ElementCount(cs[..i])) == i
  {
    ElementCountStep(cs, i);
    assert cs[..|cs|] == cs;
    ElementCountMonotone(cs, i + 1, |cs|);
    var k := ElementCount(cs[..i]);
    var j := ElementPos(cs, k);
    ElementCountStep(cs, j);
    if j < i {
      ElementCountMonotone(cs, j + 1, i);
    } else if i < j {
      ElementCountMonotone(cs, i + 1, j);
    }
  }

  /** Appending children does not move the earlier elements' ordinals. */
  lemma ElementPosAppend(cs: seq<Node>, more: seq<Node>, k: nat)
    requires k < ElementCount(cs)
    ensures ElementCount(cs) <= ElementCount(cs + more)
    ensures ElementPos(cs + more, k) == ElementPos(cs, k)
  {
    ElementCountAppend(cs, more);
    var i := ElementPos(cs, k);
    assert (cs + more)[..i] == cs[..i];
    ElementPosOfOrdinal(cs + more, i);
  }
}
