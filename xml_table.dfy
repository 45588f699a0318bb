/** The table converter: an insertion-ordered dictionary, and a converter that
    writes rows (sequences or mappings) as `row` elements with one child per
    column under a root element. */
module XmlTable {
  import opened Wrappers
  import opened Strings
  import opened Dom

  // ---------------------------------------------------------------------------
  // OrderedDict
  // ---------------------------------------------------------------------------

  /** The key list and the mapping describe the same keys, each listed once. */
  ghost predicate Consistent<K(!new), V>(data: map<K, V>, keys: seq<K>)
  {
    (forall k :: k in data <==> k in keys) && Distinct(keys)
  }

  /** The key list after `__setitem__(key, ...)`. */
  function KeysAfterSet<K(==,!new)>(keys: seq<K>, key: K): seq<K>
  {
    if key in keys then keys else keys + [key]
  }

  /** The key list with `key` taken out, the rest in order. */
  function KeysWithout<K(==,!new)>(keys: seq<K>, key: K): (r: seq<K>)
    ensures forall k :: k in r <==> k in keys && k != key
    ensures |r| <= |keys|
  {
    if keys == [] then []
    else if keys[0] == key then KeysWithout(keys[1..], key)
    else [keys[0]] + KeysWithout(keys[1..], key)
  }

  /** The `(key, value)` pairs in key order. */
  function ItemsOf<K(==,!new), V>(data: map<K, V>, keys: seq<K>): seq<(K, V)>
    requires forall k :: k in keys ==> k in data
  {
    seq(|keys|, i requires 0 <= i < |keys| => (keys[i], data[keys[i]]))
  }

  /** Assigning keeps the dictionary consistent: a new key goes to the end of
      the order, an existing key keeps its place and only its value changes. */
  lemma SetConsistent<K(!new), V>(data: map<K, V>, keys: seq<K>, key: K, value: V)
    requires Consistent(data, keys)
    ensures Consistent(data[key := value], KeysAfterSet(keys, key))
    ensures key !in data ==> ItemsOf(data[key := value], KeysAfterSet(keys, key)) == ItemsOf(data, keys) + [(key, value)]
    ensures key in data ==>
              var before := ItemsOf(data, keys);
              var after := ItemsOf(data[key := value], KeysAfterSet(keys, key));
              |after| == |before| &&
              forall i :: 0 <= i < |before| ==> after[i] == if before[i].0 == key then (key, value) else before[i]
  {
    if key !in data {
      var keys' := keys + [key];
      forall i, j | 0 <= i < j < |keys'|
        ensures keys'[i] != keys'[j]
      {
        if j == |keys| {
          assert keys'[i] in keys;
        }
      }
    }
  }

  /** A key list without repeats stays without repeats when one key is taken out. */
  lemma {:induction false} KeysWithoutDistinct<K(!new)>(keys: seq<K>, key: K)
    requires Distinct(keys)
    ensures Distinct(KeysWithout(keys, key))
    decreases |keys|
  {
    if keys != [] {
      assert Distinct(keys[1..]) by {
        forall i, j | 0 <= i < j < |keys[1..]|
          ensures keys[1..][i] != keys[1..][j]
        {
          assert keys[1..][i] == keys[i + 1] && keys[1..][j] == keys[j + 1];
        }
      }
      KeysWithoutDistinct(keys[1..], key);
      if keys[0] != key {
        var rest := KeysWithout(keys[1..], key);
        assert keys[0] !in keys[1..] by {
          forall j | 0 <= j < |keys[1..]|
            ensures keys[1..][j] != keys[0]
          {
            assert keys[1..][j] == keys[j + 1];
          }
        }
        assert keys[0] !in rest;
        forall i, j | 0 <= i < j < |[keys[0]] + rest|
          ensures ([keys[0]] + rest)[i] != ([keys[0]] + rest)[j]
        {
          if i == 0 {
            assert ([keys[0]] + rest)[j] == rest[j - 1];
          } else {
            assert ([keys[0]] + rest)[i] == rest[i - 1] && ([keys[0]] + rest)[j] == rest[j - 1];
          }
        }
      }
    }
  }

  /** Deleting the right way keeps the dictionary consistent and removes the
      key from both parts. */
  lemma DeleteConsistent<K(!new), V>(data: map<K, V>, keys: seq<K>, key: K)
    requires Consistent(data, keys)
    ensures Consistent(data - {key}, KeysWithout(keys, key))
    ensures key !in KeysWithout(keys, key)
  {
    KeysWithoutDistinct(keys, key);
  }

  /** A dictionary that remembers the order in which keys were first assigned. */
  class OrderedDict<K(==,!new), V> {
    var data: map<K, V>
    var keys: seq<K>

    ghost predicate Valid()
      reads this
    {
      Consistent(data, keys)
    }

    /** An empty dictionary. */
    constructor ()
      ensures Valid() && data == map[] && keys == []
    {
      data := map[];
      keys := [];
    }

    /** `OrderedDict(mapping)`: the entries of `initial`, with the keys in
      `order`, the order in which `initial.keys()` lists them. */
    constructor FromMapping(initial: map<K, V>, order: seq<K>)
      requires Consistent(initial, order)
      ensures Valid() && data == initial && keys == order
    {
      data := initial;
      keys := order;
    }

    /** `d[key] = value`. */
    method Set(key: K, value: V)
      requires Valid()
      modifies this
      ensures Valid()
      ensures data == old(data)[key := value]
      ensures keys == KeysAfterSet(old(keys), key)
    {
      SetConsistent(data, keys, key, value);
      data := data[key := value];
      if key !in keys {
        keys := keys + [key];
      }
    }

    /** `del d[key]` as evidently intended: the entry goes, and so does the key
      from the order. An absent key is a `KeyError` (`found` is false) and
      changes nothing. */
    method Delete(key: K) returns (found: bool)
      requires Valid()
      modifies this
      ensures Valid()
      ensures found == (key in old(data))
      ensures data == old(data) - {key}
      ensures keys == KeysWithout(old(keys), key)
    {
      found := key in data;
      DeleteConsistent(data, keys, key);
      if found {
        data := data - {key};
        var i := 0;
        while keys[i] != key
          invariant 0 <= i < |keys| && key in keys[i..]
          invariant forall j :: 0 <= j < i ==> keys[j] != key
          decreases |keys| - i
        {
          assert keys[i..] == [keys[i]] + keys[i + 1..];
          i := i + 1;
        }
        KeysWithoutAt(keys, key, i);
        keys := keys[..i] + keys[i + 1..];
      } else {
        KeysWithoutAbsent(keys, key);
      }
    }

    /** `d.keys()`: the keys in first-assignment order. */
    method Keys() returns (r: seq<K>)
      requires Valid()
      ensures r == keys && Distinct(r)
      ensures forall k :: k in r <==> k in data
    {
      r := keys;
    }

    /** `d.items()`: each key in order with its current value. */
    method Items() returns (r: seq<(K, V)>)
      requires Valid()
      ensures |r| == |keys|
      ensures forall i :: 0 <= i < |r| ==> r[i].0 == keys[i] && r[i].0 in data && r[i].1 == data[keys[i]]
      ensures r == ItemsOf(data, keys)
    {
      r := [];
      for i := 0 to |keys|
        invariant r == ItemsOf(data, keys[..i])
      {
        assert keys[..i + 1] == keys[..i] + [keys[i]];
        r := r + [(keys[i], data[keys[i]])];
      }
      assert keys[..|keys|] == keys;
    }

    /** `d.values()`: the values of `items()`, in the same order. */
    method Values() returns (r: seq<V>)
      requires Valid()
      ensures |r| == |keys|
      ensures forall i :: 0 <= i < |r| ==> keys[i] in data && r[i] == data[keys[i]]
    {
      var items := Items();
      r := [];
      for i := 0 to |items|
        invariant |r| == i
        invariant forall j :: 0 <= j < i ==> r[j] == items[j].1
      {
        r := r + [items[i].1];
      }
    }
  }

  /** Taking out a key found at `i` of a list without repeats is cutting at `i`. */
  lemma {:induction false} KeysWithoutAt<K(!new)>(keys: seq<K>, key: K, i: nat)
    requires Distinct(keys) && i < |keys| && keys[i] == key
    ensures KeysWithout(keys, key) == keys[..i] + keys[i + 1..]
    decreases i
  {
    if i == 0 {
      KeysWithoutAbsent(keys[1..], key);
      assert keys[..0] + keys[1..] == keys[1..];
    } else {
      assert Distinct(keys[1..]) by {
        forall a, b | 0 <= a < b < |keys[1..]|
          ensures keys[1..][a] != keys[1..][b]
        {
          assert keys[1..][a] == keys[a + 1] && keys[1..][b] == keys[b + 1];
        }
      }
      KeysWithoutAt(keys[1..], key, i - 1);
      assert keys[..i] == [keys[0]] + keys[1..][..i - 1];
      assert keys[i + 1..] == keys[1..][i..];
    }
  }

  /** Taking out a key that is not there changes nothing. */
  lemma {:induction false} KeysWithoutAbsent<K(!new)>(keys: seq<K>, key: K)
    requires key !in keys
    ensures KeysWithout(keys, key) == keys
    decreases |keys|
  {
    if keys != [] {
      assert key !in keys[1..];
      KeysWithoutAbsent(keys[1..], key);
      assert [keys[0]] + keys[1..] == keys;
    }
  }

  /** What `__delitem__` leaves behind: the mapping, the key list, and the
      exception it raised, if any. */
  datatype Deletion<V> = Deletion(data: map<int, V>, keys: seq<int>, error: Option<string>)

  /** `__delitem__` as written, for integer keys: after removing the entry it
      runs `del self._keys[key]`, which deletes the key list's element at
      POSITION `key` (counted from the end when negative), or raises
      `IndexError` when there is no such position. With keys of any other type
      the statement raises `TypeError`, likewise after the entry is gone. */
  function DeleteAsWritten<V>(data: map<int, V>, keys: seq<int>, key: int): (r: Deletion<V>)
    ensures key in data ==> r.data == data - {key}
    ensures key !in data ==> r == Deletion(data, keys, Some("KeyError"))
  {
    if key !in data then Deletion(data, keys, Some("KeyError"))
    else
      var i := if key < 0 then key + |keys| else key;
      if 0 <= i < |keys| then Deletion(data - {key}, keys[..i] + keys[i + 1..], None)
      else Deletion(data - {key}, keys, Some("IndexError"))
  }

  /** After `d[5] = "a"; d[0] = "b"; del d[0]` the key list still holds 0, which
      is no longer a key, and has lost 5, which is; `items()` would then raise
      `KeyError`. */
  lemma DeleteAsWrittenBreaksOrder()
    ensures var data := map[5 := "a", 0 := "b"];
            var r := DeleteAsWritten(data, [5, 0], 0);
            Consistent(data, [5, 0]) && r.error.None? && r.keys == [0] && r.data == map[5 := "a"]
            && !Consistent(r.data, r.keys)
  {
    var data := map[5 := "a", 0 := "b"];
    var r := DeleteAsWritten(data, [5, 0], 0);
    assert [5, 0][..0] + [5, 0][1..] == [0];
    assert data - {0} == map[5 := "a"];
    assert 5 in r.data && 5 !in r.keys;
  }

  // ---------------------------------------------------------------------------
  // Converter
  // ---------------------------------------------------------------------------

  /** A row given to `add_row`: a sequence of column texts, or the items of a
      mapping (in the mapping's own iteration order), already converted with
      `unicode()`. */
  datatype Row = Columns(columns: seq<string>) | Items(items: seq<(string, string)>)

  /** The element a `column` text becomes: a `column` element holding the text. */
  function ColumnElement(prefix: string, text: string): Node
  {
    Element(prefix + "column", map[], [Text(text)])
  }

  /** The element a mapping item becomes: named after the key, or a `column`
      with a `name` attribute holding the key; either way holding the value. */
  function ItemElement(prefix: string, name: string, value: string, useKeyAsElementName: bool): Node
  {
    if useKeyAsElementName then Element(prefix + name, map[], [Text(value)])
    else Element(prefix + "column", map[prefix + "name" := name], [Text(value)])
  }

  function RowChildren(prefix: string, row: Row, useKeyAsElementName: bool): seq<Node>
  {
    match row
    case Columns(cs) => seq(|cs|, i requires 0 <= i < |cs| => ColumnElement(prefix, cs[i]))
    case Items(its) => seq(|its|, i requires 0 <= i < |its| => ItemElement(prefix, its[i].0, its[i].1, useKeyAsElementName))
  }

  function RowElement(prefix: string, rowElementName: string, row: Row, useKeyAsElementName: bool): Node
  {
    Element(prefix + rowElementName, map[], RowChildren(prefix, row, useKeyAsElementName))
  }

  /** What `last_row_element` refers to. */
  datatype LastRow = NoRow | RowAt(address: Address) | DetachedRow(element: Node)

  /** The row element holds one child per column or item, in order: a
      sequence row gives `column` elements, a mapping row gives key-named
      elements or `column` elements with a `name` attribute; each child holds
      the text of its column or value. */
  lemma RowElementShape(prefix: string, rowElementName: string, row: Row, useKeyAsElementName: bool)
    ensures var e := RowElement(prefix, rowElementName, row, useKeyAsElementName);
            && e.Element? && e.name == prefix + rowElementName
            && |e.children| == (if row.Columns? then |row.columns| else |row.items|)
            && (forall i :: 0 <= i < |e.children| ==> e.children[i].Element? && |e.children[i].children| == 1)
            && (row.Columns? ==> forall i :: 0 <= i < |row.columns| ==>
                  e.children[i].name == prefix + "column" && e.children[i].children[0] == Text(row.columns[i]))
            && (row.Items? ==> forall i :: 0 <= i < |row.items| ==>
                  e.children[i].children[0] == Text(row.items[i].1)
                  && (useKeyAsElementName ==> e.children[i].name == prefix + row.items[i].0)
                  && (!useKeyAsElementName ==>
                        e.children[i].name == prefix + "column" && e.children[i].attrs[prefix + "name"] == row.items[i].0))
  {
  }

  /** Where the new row goes: `-1` appends it; otherwise it goes before the
      child element at (0-based) position `index`, found among the element
      children only; any other index has no such element (`IndexError`). */
  function RowSlot(children: seq<Node>, index: int): Option<nat>
  {
    if index == -1 then Some(|children|)
    else if 0 <= index < ElementCount(children) then Some(ElementPos(children, index))
    else None
  }

  /** The inserted row becomes the element at position `index`: the elements
      before it stay before it, and the one that was at `index` follows it. */
  lemma RowSlotPosition(children: seq<Node>, index: int, row: Node)
    requires RowSlot(children, index).Some? && row.Element?
    ensures var pos := RowSlot(children, index).value;
            var after := children[..pos] + [row] + children[pos..];
            && pos <= |children|
            && ElementCount(after) == ElementCount(children) + 1
            && ElementCount(after[..pos]) == (if index == -1 then ElementCount(children) else index)
            && after[pos] == row
  {
    var pos := RowSlot(children, index).value;
    InsertedCount(children, pos, row);
    if index == -1 {
      assert children[..pos] == children;
    }
  }

  /** Inserting one element at `pos` adds one to the count and keeps what is
      before it. */
  lemma InsertedCount(children: seq<Node>, pos: nat, row: Node)
    requires row.Element? && pos <= |children|
    ensures var after := children[..pos] + [row] + children[pos..];
            && ElementCount(after) == ElementCount(children) + 1
            && after[..pos] == children[..pos] && after[pos] == row
  {
    var a := children[..pos];
    var b := children[pos..];
    assert a + b == children;
    ElementAdded(a, row, b);
    assert (a + [row] + b)[..pos] == a;
  }

  lemma ElementAdded(a: seq<Node>, row: Node, b: seq<Node>)
    requires row.Element?
    ensures ElementCount(a + [row] + b) == ElementCount(a + b) + 1
  {
    ElementCountAppend(a + [row], b);
    ElementCountAppend(a, [row]);
    ElementCountAppend(a, b);
    assert [row][..0] == [];
  }

  /** The row element of `add_row` with its column children appended one by
      one, each column element receiving its text node. */
  method NewRowElement(prefix: string, rowElementName: string, row: Row, useKeyAsElementName: bool)
    returns (element: Node)
    ensures element == RowElement(prefix, rowElementName, row, useKeyAsElementName)
  {
    var children: seq<Node> := [];
    match row {
      case Columns(cs) =>
        for i := 0 to |cs|
          invariant |children| == i
          invariant forall j :: 0 <= j < i ==> children[j] == ColumnElement(prefix, cs[j])
        {
          children := children + [Element(prefix + "column", map[], [Text(cs[i])])];
        }
      case Items(its) =>
        for i := 0 to |its|
          invariant |children| == i
          invariant forall j :: 0 <= j < i ==>
                      children[j] == ItemElement(prefix, its[j].0, its[j].1, useKeyAsElementName)
        {
          var (name, value) := its[i];
          var column: Node;
          if useKeyAsElementName {
            column := Element(prefix + name, map[], []);
          } else {
            column := Element(prefix + "column", map[prefix + "name" := name], []);
          }
          column := column.(children := column.children + [Text(value)]);
          children := children + [column];
        }
    }
    element := Element(prefix + rowElementName, map[], children);
  }

  /** `doc.xpath("*")[0]`: the first element child of the document, or
      `IndexError` (here `None`) when it has none. */
  function DocumentRoot(doc: Node): (r: Option<Address>)
    ensures r.None? <==> doc.Text? || ElementCount(doc.children) == 0
    ensures r.Some? ==> && !doc.Text? && |r.value| == 1 && r.value[0] < |doc.children|
                        && IsContainer(doc, r.value) && NodeAt(doc, r.value) == doc.children[r.value[0]]
                        && NodeAt(doc, r.value).Element?
                        && forall j :: 0 <= j < r.value[0] ==> !doc.children[j].Element?
  {
    if doc.Text? || ElementCount(doc.children) == 0 then None
    else
      FirstElementChild(doc);
      Some([ElementPos(doc.children, 0)])
  }

  lemma FirstElementChild(doc: Node)
    requires !doc.Text? && ElementCount(doc.children) > 0
    ensures var i := ElementPos(doc.children, 0);
            && IsContainer(doc, [i]) && NodeAt(doc, [i]) == doc.children[i]
            && forall j :: 0 <= j < i ==> !doc.children[j].Element?
  {
    var i := ElementPos(doc.children, 0);
    hide ElementPos;
    NoElementBefore(doc.children, i);
    LookupChild(doc, [], i);
    assert [] + [i] == [i];
  }

  /** No element comes before a position where the element count is zero. */
  lemma NoElementBefore(cs: seq<Node>, i: nat)
    requires i <= |cs| && ElementCount(cs[..i]) == 0
    ensures forall j :: 0 <= j < i ==> !cs[j].Element?
  {
    forall j | 0 <= j < i
      ensures !cs[j].Element?
    {
      ElementCountStep(cs, j);
      ElementCountMonotone(cs, j + 1, i);
    }
  }

  /** The converter: a document, the element rows are added under, and the
      last row element created. The name prefix stands for the namespace
      prefix of every element and attribute it creates. */
  class Converter {
    var doc: Node
    /** The tree holding `root` when that element is not part of `doc`, as for
      the converter `last_row()` returns after an `IndexError`, rooted at the
      detached row element; `None` when `root` is in `doc`. */
    var detached: Option<Node>
    var root: Address
    var prefix: string
    var lastRow: LastRow

    /** The tree that rows are added to. */
    function Tree(): Node
      reads this
    {
      if detached.Some? then detached.value else doc
    }

    ghost predicate Valid()
      reads this
    {
      && IsContainer(Tree(), root)
      && (lastRow.RowAt? ==>
            |lastRow.address| == |root| + 1 && lastRow.address[..|root|] == root
            && ValidAddress(Tree(), lastRow.address) && NodeAt(Tree(), lastRow.address).Element?)
      && (lastRow.DetachedRow? ==> lastRow.element.Element?)
    }

    /** `Converter(prefix=prefix)`: a new document with a `table` element as root. */
    constructor (prefix: string)
      ensures Valid() && this.prefix == prefix && lastRow == NoRow
      ensures doc == Document([Element(prefix + "table", map[], [])]) && detached == None && root == [0]
    {
      this.prefix := prefix;
      doc := Document([Element(prefix + "table", map[], [])]);
      detached := None;
      root := [0];
      lastRow := NoRow;
      assert Parent([0]) == [];
    }

    /** `Converter(ns, prefix, doc, root)`: rows go under an existing element,
      which lies in `doc` (`detached == None`) or in a tree of its own. */
    constructor Over(prefix: string, doc: Node, detached: Option<Node>, root: Address)
      requires IsContainer(if detached.Some? then detached.value else doc, root)
      ensures Valid() && this.prefix == prefix && this.doc == doc && this.detached == detached
      ensures this.root == root && lastRow == NoRow
    {
      this.prefix := prefix;
      this.doc := doc;
      this.detached := detached;
      this.root := root;
      lastRow := NoRow;
    }

    /** `Converter(ns, prefix, doc)` without a root: rows go under the first
      element of the document; a document without one raises `IndexError`
      (here `None`). */
    static method OverDocument(prefix: string, doc: Node) returns (r: Option<Converter>)
      ensures r.None? <==> DocumentRoot(doc).None?
      ensures r.Some? ==> && fresh(r.value) && r.value.Valid()
                          && r.value.prefix == prefix && r.value.doc == doc && r.value.detached == None
                          && r.value.root == DocumentRoot(doc).value && r.value.lastRow == NoRow
    {
      var root := DocumentRoot(doc);
      if root.None? {
        return None;
      }
      var c := new Converter.Over(prefix, doc, None, root.value);
      return Some(c);
    }

    /** `add_row(row, index, row_element_name, use_key_as_element_name)`: the
      row element, with its columns built one by one, appended (index -1) or
      inserted before the element at position `index`; any other index raises
      `IndexError` before any column is added, leaving the new, still empty
      row element detached. A converter rooted outside `doc` changes only its
      own tree. */
    method AddRow(row: Row, index: int, rowElementName: string, useKeyAsElementName: bool)
      returns (ok: bool)
      requires Valid()
      modifies this
      ensures Valid() && root == old(root) && prefix == old(prefix)
      ensures detached.Some? == old(detached).Some? && (old(detached).Some? ==> doc == old(doc))
      ensures ok == RowSlot(NodeAt(old(Tree()), root).children, index).Some?
      ensures ok ==>
                var pos := RowSlot(NodeAt(old(Tree()), root).children, index).value;
                && Tree() == InsertAt(old(Tree()), root, pos, RowElement(prefix, rowElementName, row, useKeyAsElementName))
                && lastRow == RowAt(root + [pos])
                && ValidAddress(Tree(), root + [pos])
                && NodeAt(Tree(), root + [pos]) == RowElement(prefix, rowElementName, row, useKeyAsElementName)
      ensures !ok ==> && doc == old(doc) && detached == old(detached)
                      && lastRow == DetachedRow(Element(prefix + rowElementName, map[], []))
    {
      var slot := RowSlot(NodeAt(Tree(), root).children, index);
      if slot.Some? {
        var element := NewRowElement(prefix, rowElementName, row, useKeyAsElementName);
        var pos := slot.value;
        var here := NodeAt(Tree(), root).children;
        var t := InsertAt(Tree(), root, pos, element);
        if detached.Some? {
          detached := Some(t);
        } else {
          doc := t;
        }
        lastRow := RowAt(root + [pos]);
        LookupChild(t, root, pos);
        assert (root + [pos])[..|root|] == root;
        assert (here[..pos] + [element] + here[pos..])[pos] == element;
        ok := true;
      } else {
        lastRow := DetachedRow(Element(prefix + rowElementName, map[], []));
        ok := false;
      }
    }

    /** `last_row()`: nothing before any row was added, otherwise a converter
      over the same document, with the same prefix, rooted at the most recently
      added row. After an `IndexError` that row is the detached element, which
      becomes the new converter's tree of its own. */
    method LastRow() returns (r: Option<Converter>)
      requires Valid()
      ensures r.None? <==> lastRow == NoRow
      ensures r.Some? ==> && fresh(r.value) && r.value.Valid() && r.value.prefix == prefix
                          && r.value.doc == doc && r.value.lastRow == NoRow
      ensures lastRow.RowAt? ==> r.Some? && r.value.detached == detached && r.value.root == lastRow.address
      ensures lastRow.DetachedRow? ==> r.Some? && r.value.detached == Some(lastRow.element) && r.value.root == []
    {
      if lastRow.NoRow? {
        r := None;
      } else if lastRow.RowAt? {
        var c := new Converter.Over(prefix, doc, detached, lastRow.address);
        r := Some(c);
      } else {
        var c := new Converter.Over(prefix, doc, Some(lastRow.element), []);
        r := Some(c);
      }
    }
  }
}
