/** Lookup by name and by path: linear, case-insensitive, first match; and what it finds in a built hive. */
module HiveLookup {
  import opened Wrappers
  import opened Bytes
  import opened Strings
  import opened HiveReading
  import opened HiveStrings
  import opened HiveIterators

  type Name = seq<u16>

  ghost predicate NodesIn(h: seq<byte>, items: seq<Read<KeyNode>>) {
    forall i :: 0 <= i < |items| && items[i].Ok? ==> items[i].value.In(h)
  }

  /** The first node of a list with the given name, or the first error met before it. */
  ghost function FindNode(h: seq<byte>, items: seq<Read<KeyNode>>, name: Name): (r: Option<Read<KeyNode>>)
    requires NodesIn(h, items)
    ensures r.Some? && r.value.Ok? ==> r.value.value.In(h)
  {
    if items == [] then None
    else match items[0]
      case Err(e) => Some(Err(e))
      case Ok(node) =>
        match KeyName(h, node)
        case Err(e) => Some(Err(e))
        case Ok(s) => if SameName(Units(s), name) then Some(Ok(node)) else FindNode(h, items[1..], name)
  }

  ghost function SubkeyByName(h: seq<byte>, node: KeyNode, name: Name): (r: Option<Read<KeyNode>>)
    requires node.In(h)
    ensures r.Some? && r.value.Ok? ==> r.value.value.In(h)
  {
    match SubkeyListOf(h, node)
    case None => None
    case Some(Err(e)) => Some(Err(e))
    case Some(Ok(list)) => FindNode(h, ListItems(h, list), name)
  }

  /** Descends one component at a time; empty components are skipped. */
  ghost function SubkeyByPath(h: seq<byte>, node: KeyNode, path: seq<Name>): (r: Option<Read<KeyNode>>)
    requires node.In(h)
    ensures r.Some? && r.value.Ok? ==> r.value.value.In(h)
    decreases |path|
  {
    if path == [] then Some(Ok(node))
    else if path[0] == [] then SubkeyByPath(h, node, path[1..])
    else
      var found := SubkeyByName(h, node, path[0]);
      if found == None || found.value.Err? then found else SubkeyByPath(h, found.value.value, path[1..])
  }

  ghost predicate ValuesIn(h: seq<byte>, items: seq<Read<KeyValue>>) {
    forall i :: 0 <= i < |items| && items[i].Ok? ==> items[i].value.In(h)
  }

  ghost function FindValue(h: seq<byte>, items: seq<Read<KeyValue>>, name: Name): (r: Option<Read<KeyValue>>)
    requires ValuesIn(h, items)
    ensures r.Some? && r.value.Ok? ==> r.value.value.In(h)
  {
    if items == [] then None
    else match items[0]
      case Err(e) => Some(Err(e))
      case Ok(value) =>
        match ValueName(h, value)
        case Err(e) => Some(Err(e))
        case Ok(s) => if SameName(Units(s), name) then Some(Ok(value)) else FindValue(h, items[1..], name)
  }

  ghost function ValueByName(h: seq<byte>, node: KeyNode, name: Name): (r: Option<Read<KeyValue>>)
    requires node.In(h)
    ensures r.Some? && r.value.Ok? ==> r.value.value.In(h)
  {
    match ValueListOf(h, node)
    case None => None
    case Some(Err(e)) => Some(Err(e))
    case Some(Ok(items)) => FindValue(h, ValueItems(h, items), name)
  }

  // ------------------------------------------------------------------ the loops

  method Subkey(h: seq<byte>, node: KeyNode, name: Name) returns (r: Option<Read<KeyNode>>)
    requires node.In(h)
    ensures r == SubkeyByName(h, node, name)
  {
    hide SubkeyListOf, KeyName, SameName, LeafItems, IndexRootItems;
    var list := SubkeyListOf(h, node);
    match list
    case None =>
      return None;
    case Some(Err(e)) =>
      return Some(Err(e));
    case Some(Ok(subkeys)) =>
      var it := new SubKeyNodes(h, subkeys);
      ghost var n := |it.Rest()|;
      while true
        invariant it.Valid() && fresh(it.Repr()) && NodesIn(h, it.Rest())
        invariant FindNode(h, it.Rest(), name) == SubkeyByName(h, node, name)
        decreases |it.Rest()|
      {
        var item := it.Next();
        match item
        case None =>
          return None;
        case Some(Err(e)) =>
          return Some(Err(e));
        case Some(Ok(subkey)) =>
          var subkeyName := KeyName(h, subkey);
          if subkeyName.Err? {
            return Some(Err(subkeyName.error));
          }
          var order := CmpIter(Units(subkeyName.value), name);
          if order == Equal {
            return Some(Ok(subkey));
          }
      }
  }

  const BACKSLASH: u16 := 0x5C

  /** The components of a path, empty ones included; `cur` is the one being read. */
  function Split(path: Name, cur: Name): (parts: seq<Name>)
    ensures |parts| > 0
    decreases |path|
  {
    if path == [] then [cur]
    else if path[0] == BACKSLASH then [cur] + Split(path[1..], [])
    else Split(path[1..], cur + [path[0]])
  }

  /** Splitting loses nothing, and no component holds a backslash. */
  lemma {:induction false} SplitJoins(path: Name, cur: Name)
    requires BACKSLASH !in cur
    ensures Join(Split(path, cur), BACKSLASH) == cur + path
    ensures forall part :: part in Split(path, cur) ==> BACKSLASH !in part
    decreases |path|
  {
    if path == [] {
      assert cur + path == cur;
    } else if path[0] == BACKSLASH {
      SplitJoins(path[1..], []);
      assert Split(path, cur)[1..] == Split(path[1..], []);
      assert cur + path == cur + [BACKSLASH] + ([] + path[1..]);
    } else {
      SplitJoins(path[1..], cur + [path[0]]);
      assert cur + path == cur + [path[0]] + path[1..];
    }
  }

  method SplitPath(path: Name) returns (parts: seq<Name>)
    ensures parts == Split(path, [])
  {
    parts := [];
    var cur: Name := [];
    for i := 0 to |path|
      invariant parts + Split(path[i..], cur) == Split(path, [])
    {
      assert path[i..][0] == path[i] && path[i..][1..] == path[i + 1..];
      if path[i] == BACKSLASH {
        parts := parts + [cur];
        cur := [];
      } else {
        cur := cur + [path[i]];
      }
    }
    parts := parts + [cur];
  }

  /** Splits the path at backslashes and descends by one component after the other. */
  method Subpath(h: seq<byte>, node: KeyNode, pathName: Name) returns (r: Option<Read<KeyNode>>)
    requires node.In(h)
    ensures r == SubkeyByPath(h, node, Split(pathName, []))
  {
    hide SubkeyByName;
    var path := SplitPath(pathName);
    var current := node;
    for i := 0 to |path|
      invariant current.In(h)
      invariant SubkeyByPath(h, current, path[i..]) == SubkeyByPath(h, node, path)
    {
      assert path[i..][0] == path[i] && path[i..][1..] == path[i + 1..];
      if path[i] != [] {
        var found := Subkey(h, current, path[i]);
        match found
        case None =>
          return None;
        case Some(Err(e)) =>
          return Some(Err(e));
        case Some(Ok(child)) =>
          current := child;
      }
    }
    return Some(Ok(current));
  }

  method Value(h: seq<byte>, node: KeyNode, name: Name) returns (r: Option<Read<KeyValue>>)
    requires node.In(h)
    ensures r == ValueByName(h, node, name)
  {
    hide ValueListOf, ValueName, SameName, ValueItems;
    var list := ValueListOf(h, node);
    match list
    case None =>
      return None;
    case Some(Err(e)) =>
      return Some(Err(e));
    case Some(Ok(items)) =>
      var it := new KeyValues(h, items);
      while true
        invariant it.Valid() && fresh(it) && ValuesIn(h, it.Rest())
        invariant FindValue(h, it.Rest(), name) == ValueByName(h, node, name)
        decreases |it.Rest()|
      {
        var item := it.Next();
        match item
        case None =>
          return None;
        case Some(Err(e)) =>
          return Some(Err(e));
        case Some(Ok(value)) =>
          var valueName := ValueName(h, value);
          if valueName.Err? {
            return Some(Err(valueName.error));
          }
          var order := CmpIter(Units(valueName.value), name);
          if order == Equal {
            return Some(Ok(value));
          }
      }
  }
}
