/** Looking up a path in the hive of a tree finds what looking it up in the tree finds. */
module HiveTreeLookup {
  import opened Wrappers
  import opened Bytes
  import opened Strings
  import opened HiveOrder
  import opened HiveRoundTrip
  import opened HiveStrings
  import opened HiveLookup
  import opened Mkhive
  import R = HiveReading

  predicate KidNamed(node: Node, j: nat, name: Name)
    requires j < |node.subkeys|
  {
    SameName(Utf16(node.subkeys[j].name), name)
  }

  /** The first subkey from place `i` of the hash order on that has the name. */
  function KidFrom(node: Node, order: seq<nat>, i: nat, name: Name): (r: Option<nat>)
    requires forall q :: 0 <= q < |order| ==> order[q] < |node.subkeys|
    ensures r.Some? ==> r.value < |node.subkeys| && KidNamed(node, r.value, name)
    decreases |order| - i
  {
    if i >= |order| then None
    else if KidNamed(node, order[i], name) then Some(order[i])
    else KidFrom(node, order, i + 1, name)
  }

  function FindKid(node: Node, name: Name): (r: Option<nat>)
    ensures r.Some? ==> r.value < |node.subkeys| && KidNamed(node, r.value, name)
  {
    KidFrom(node, Order(NameHashes(node.subkeys)), 0, name)
  }

  /** No two subkeys of a key have the same name but for case. */
  predicate DistinctKids(node: Node) {
    forall i, j :: 0 <= i < j < |node.subkeys| ==>
      !SameName(Utf16(node.subkeys[i].name), Utf16(node.subkeys[j].name))
  }

  /** Descends in the tree; empty components are skipped. */
  function FindPath(node: Node, path: seq<Name>): Option<Node>
    decreases |path|
  {
    if path == [] then Some(node)
    else if path[0] == [] then FindPath(node, path[1..])
    else match FindKid(node, path[0])
      case None => None
      case Some(j) => FindPath(node.subkeys[j].node, path[1..])
  }

  lemma {:induction false} KidFromMisses(node: Node, order: seq<nat>, i: nat, name: Name, q: nat)
    requires forall p :: 0 <= p < |order| ==> order[p] < |node.subkeys|
    requires KidFrom(node, order, i, name) == None && i <= q < |order|
    ensures !KidNamed(node, order[q], name)
    decreases |order| - i
  {
    hide KidNamed;
    if q > i {
      KidFromMisses(node, order, i + 1, name, q);
    }
  }

  /** With distinct subkeys the order does not matter: the one subkey with the name is found, if there is one. */
  lemma FindKidIff(node: Node, name: Name, j: nat)
    requires DistinctKids(node) && j < |node.subkeys|
    ensures FindKid(node, name) == Some(j) <==> KidNamed(node, j, name)
  {
    hide Order;
    var order := Order(NameHashes(node.subkeys));
    if KidNamed(node, j, name) {
      var q := OrderHits(NameHashes(node.subkeys), j);
      if FindKid(node, name) == None {
        KidFromMisses(node, order, 0, name, q);
      }
    }
  }

  lemma {:induction false} FindNodeDecodes(h: seq<byte>, items: seq<R.Read<R.KeyNode>>, node: Node, order: seq<nat>,
                                           i: nat, name: Name)
    requires i <= |order| == |items| && (forall q :: 0 <= q < |order| ==> order[q] < |node.subkeys|)
    requires forall q {:trigger order[q]} :: 0 <= q < |order| ==> DecodesChild(h, items[q], node, order[q])
    requires NodesIn(h, items)
    ensures NodesIn(h, items[i..])
    ensures match KidFrom(node, order, i, name)
      case None => FindNode(h, items[i..], name) == None
      case Some(j) =>
        && FindNode(h, items[i..], name).Some?
        && DecodesChild(h, FindNode(h, items[i..], name).value, node, j)
    decreases |order| - i
  {
    hide SameName, Utf16, DecodesValues, DecodesSubkeys, R.KeyName;
    if i == |order| {
    } else {
      assert DecodesChild(h, items[i], node, order[i]);
      assert items[i..][0] == items[i] && items[i..][1..] == items[i + 1..];
      FindNodeDecodes(h, items, node, order, i + 1, name);
    }
  }

  lemma SubkeyDecodes(h: seq<byte>, item: R.Read<R.KeyNode>, keyName: seq<byte>, node: Node, name: Name)
    requires Decodes(h, item, keyName, node)
    ensures match FindKid(node, name)
      case None => SubkeyByName(h, item.value, name) == None
      case Some(j) =>
        && SubkeyByName(h, item.value, name).Some?
        && DecodesChild(h, SubkeyByName(h, item.value, name).value, node, j)
  {
    hide Order, NameHashes, FindNode, KidFrom, DecodesChild, R.SubkeyListOf, R.ListItems, DecodesValues, R.KeyName;
    if node.subkeys != [] {
      var order := Order(NameHashes(node.subkeys));
      var items := R.ListItems(h, R.SubkeyListOf(h, item.value).value.value);
      FindNodeDecodes(h, items, node, order, 0, name);
      assert items[0..] == items;
    } else {
      assert KidFrom(node, Order(NameHashes(node.subkeys)), 0, name) == None by {
        NoKids(node, name);
      }
    }
  }

  lemma NoKids(node: Node, name: Name)
    requires node.subkeys == []
    ensures KidFrom(node, Order(NameHashes(node.subkeys)), 0, name) == None
  {
  }

  /**
   In the hive of a tree, `subpath` ends without a key exactly where the tree has none, and otherwise at a
   key that decodes to the subtree the path leads to.
   */
  lemma {:induction false} SubpathDecodes(h: seq<byte>, item: R.Read<R.KeyNode>, keyName: seq<byte>, node: Node,
                                          path: seq<Name>)
    returns (subName: seq<byte>)
    requires Decodes(h, item, keyName, node)
    ensures match FindPath(node, path)
      case None => SubkeyByPath(h, item.value, path) == None
      case Some(sub) =>
        && SubkeyByPath(h, item.value, path).Some?
        && Decodes(h, SubkeyByPath(h, item.value, path).value, subName, sub)
    decreases |path|
  {
    hide FindKid, SubkeyByName, DecodesValues, DecodesSubkeys, R.KeyName;
    subName := keyName;
    if path == [] {
    } else {
      if path[0] == [] {
        subName := SubpathDecodes(h, item, keyName, node, path[1..]);
      } else {
        SubkeyDecodes(h, item, keyName, node, path[0]);
        var found := FindKid(node, path[0]);
        if found.Some? {
          var kid := node.subkeys[found.value];
          var child := SubkeyByName(h, item.value, path[0]).value;
          assert DecodesChild(h, child, node, found.value);
          subName := SubpathDecodes(h, child, kid.name, kid.node, path[1..]);
        }
      }
    }
  }

  // ------------------------------------------------------------------ values

  /** The first stored value with the name: of two values set under one name, the older one. */
  function ValueFrom(kept: seq<NamedValue>, i: nat, name: Name): (r: Option<nat>)
    ensures r.Some? ==> r.value < |kept|
    decreases |kept| - i
  {
    if i >= |kept| then None
    else if SameName(Utf16(kept[i].name), name) then Some(i)
    else ValueFrom(kept, i + 1, name)
  }

  lemma {:induction false} FindValueDecodes(h: seq<byte>, items: seq<R.Read<R.KeyValue>>, kept: seq<NamedValue>, i: nat,
                                            name: Name)
    requires i <= |kept| == |items| && ValuesIn(h, items)
    requires forall q {:trigger DecodesValue(h, items[q], kept[q])} ::
      0 <= q < |kept| ==> DecodesValue(h, items[q], kept[q])
    ensures ValuesIn(h, items[i..])
    ensures match ValueFrom(kept, i, name)
      case None => FindValue(h, items[i..], name) == None
      case Some(j) => FindValue(h, items[i..], name) == Some(items[j])
    decreases |kept| - i
  {
    hide SameName, Utf16, R.ValueName, R.Data, R.DataType;
    if i == |kept| {
    } else {
      assert DecodesValue(h, items[i], kept[i]);
      assert items[i..][0] == items[i] && items[i..][1..] == items[i + 1..];
      FindValueDecodes(h, items, kept, i + 1, name);
    }
  }

  /** `value` finds the first stored value with the name, and that value decodes. */
  lemma ValueByNameDecodes(h: seq<byte>, item: R.Read<R.KeyNode>, keyName: seq<byte>, node: Node, name: Name)
    requires Decodes(h, item, keyName, node)
    ensures match ValueFrom(Kept(node.values), 0, name)
      case None => ValueByName(h, item.value, name) == None
      case Some(j) =>
        && ValueByName(h, item.value, name).Some?
        && DecodesValue(h, ValueByName(h, item.value, name).value, Kept(node.values)[j])
  {
    hide FindValue, DecodesSubkeys, R.KeyName, R.ValueListOf, R.ValueItems, DecodesValue, Kept;
    var kept := Kept(node.values);
    if kept != [] {
      var items := R.ValueItems(h, R.ValueListOf(h, item.value).value.value);
      FindValueDecodes(h, items, kept, 0, name);
      assert items[0..] == items;
      if ValueFrom(kept, 0, name).Some? {
        assert DecodesValue(h, items[ValueFrom(kept, 0, name).value], kept[ValueFrom(kept, 0, name).value]);
      }
    }
  }
}
