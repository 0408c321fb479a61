/** From operations to lookups: what a tree of AddReg operations holds, and nothing else, is found in its hive. */
module HiveOfTree {
  import opened Wrappers
  import opened Bytes
  import opened Strings
  import opened HiveRoundTrip
  import opened HiveStrings
  import opened HiveTreeLookup
  import opened Mkhive
  import L = HiveLookup
  import K = KeyTrees
  import R = HiveReading

  // ------------------------------------------------------------------ a tree and its lists

  ghost predicate ListsValue(node: Node, key: K.Key, name: seq<byte>)
    requires name in key.values
  {
    exists i ::
      0 <= i < |node.values| && node.values[i].name == name && node.values[i].value == key.values[name]
  }

  ghost predicate ListsKid(node: Node, key: K.Key, name: seq<byte>)
    requires name in key.subkeys
    decreases node, 0
  {
    exists i ::
      0 <= i < |node.subkeys| && node.subkeys[i].name == name && Lists(node.subkeys[i].node, key.subkeys[name])
  }

  /** `node` enumerates the maps of `key`, in whatever order, and nothing else. */
  ghost predicate Lists(node: Node, key: K.Key)
    decreases node, 1
  {
    && (forall i {:trigger node.values[i]} :: 0 <= i < |node.values| ==> node.values[i].name in key.values)
    && (forall i {:trigger node.subkeys[i]} :: 0 <= i < |node.subkeys| ==> node.subkeys[i].name in key.subkeys)
    && (forall n {:trigger ListsValue(node, key, n)} :: n in key.values ==> ListsValue(node, key, n))
    && (forall n {:trigger ListsKid(node, key, n)} :: n in key.subkeys ==> ListsKid(node, key, n))
  }

  /** A stored name answers to the name that is asked for. */
  predicate Alike(stored: seq<byte>, asked: L.Name) {
    SameName(Utf16(stored), asked)
  }

  /** Sibling names differ by more than case. */
  ghost predicate Tidy(node: Node) {
    && DistinctKids(node)
    && (forall i, j {:trigger node.values[i], node.values[j]} :: 0 <= i < j < |node.values| ==>
          !Alike(node.values[i].name, Utf16(node.values[j].name)))
    && (forall i {:trigger node.subkeys[i]} :: 0 <= i < |node.subkeys| ==> Tidy(node.subkeys[i].node))
  }

  // ------------------------------------------------------------------ keys

  ghost predicate AlikePath(path: K.Path, asked: seq<L.Name>) {
    |path| == |asked| && forall i {:trigger path[i]} :: 0 <= i < |path| ==> Alike(path[i], asked[i])
  }

  lemma {:induction false} SplitPass(units: L.Name, cur: L.Name, n: nat)
    requires n <= |units| && forall i :: 0 <= i < n ==> units[i] != L.BACKSLASH
    ensures L.Split(units, cur) == L.Split(units[n..], cur + units[..n])
  {
    if n == 0 {
      assert cur + units[..0] == cur;
    } else {
      SplitPass(units[1..], cur + [units[0]], n - 1);
      assert units[1..][n - 1..] == units[n..];
      assert cur + [units[0]] + units[1..][..n - 1] == cur + units[..n];
    }
  }

  /** A character other than the backslash has no backslash among its bytes or units. */
  lemma NoBackslash(s: seq<byte>)
    requires s != [] && Utf8(s) && s[0] != 0x5C
    ensures forall i :: 0 <= i < Length(s) ==> s[i] != 0x5C
    ensures forall i :: 0 <= i < |Encoded(s)| ==> Encoded(s)[i] != L.BACKSLASH
    ensures Utf8(s[..Length(s)]) && Utf16(s[..Length(s)]) == Encoded(s)
  {
    CharOfLength(s);
    FirstAlone(s);
  }

  lemma PartsEnd(cur: seq<byte>)
    ensures AlikePath(K.Parts([], cur), NonEmpty(L.Split(Utf16([]), Utf16(cur))))
  {
    hide SameName, Length, Char, Encoded;
    SameItself(cur);
    assert Utf16([]) == [];
    assert cur == [] <==> Utf16(cur) == [];
  }

  lemma AlikeFront(name: seq<byte>, path: K.Path, asked: seq<L.Name>)
    requires AlikePath(path, asked)
    ensures AlikePath([name] + path, [Utf16(name)] + asked)
  {
    hide Alike, Utf16;
    SameItself(name);
    var longer, more := [name] + path, [Utf16(name)] + asked;
    forall i {:trigger longer[i]} | 0 <= i < |longer| ensures Alike(longer[i], more[i]) {
      if i > 0 {
        assert path[i - 1] == longer[i];
      }
    }
  }

  lemma PartsNext(path: seq<byte>, cur: seq<byte>)
    requires path != [] && path[0] == 0x5C && Utf8(path)
    requires AlikePath(K.Parts(path[1..], []), NonEmpty(L.Split(Utf16(path[1..]), Utf16([]))))
    ensures AlikePath(K.Parts(path, cur), NonEmpty(L.Split(Utf16(path), Utf16(cur))))
  {
    hide Alike, AlikePath, Length, Char, Encoded, Utf8;
    FirstUnits(path);
    var parts, split := K.Parts(path[1..], []), L.Split(Utf16(path[1..]), []);
    assert Utf16([]) == [] && (cur == [] <==> Utf16(cur) == []);
    AlikeFront(cur, parts, NonEmpty(split));
    assert ([Utf16(cur)] + split)[1..] == split;
    assert L.Split(Utf16(path), Utf16(cur)) == [Utf16(cur)] + split;
    assert [] + parts == parts;
  }

  /** The path of an AddReg operation, asked for as it is written, leads to its parts. */
  lemma {:induction false} PartsFollowed(path: seq<byte>, cur: seq<byte>)
    requires Utf8(path) && Utf8(cur)
    ensures AlikePath(K.Parts(path, cur), NonEmpty(L.Split(Utf16(path), Utf16(cur))))
    decreases |path|
  {
    hide SameName, Utf8, Length, Char, Encoded, Utf16, K.Parts, L.Split;
    SameItself(cur);
    if path == [] {
      PartsEnd(cur);
    } else {
      var n := Length(path);
      TailValid(path);
      FirstUnits(path);
      if path[0] == 0x5C {
        AsciiUnits([]);
        PartsFollowed(path[1..], []);
        PartsNext(path, cur);
      } else {
        NoBackslash(path);
        K.PartsPass(path, cur, n);
        SplitPass(Utf16(path), Utf16(cur), |Encoded(path)|);
        UnitsJoin(cur, path[..n]);
        PartsFollowed(path[n..], cur + path[..n]);
      }
    }
  }

  lemma AlikeStep(path: K.Path, asked: seq<L.Name>)
    requires asked != [] && asked[0] != [] && path != []
    ensures AlikePath(path, NonEmpty(asked)) <==> Alike(path[0], asked[0]) && AlikePath(path[1..], NonEmpty(asked[1..]))
  {
    hide Alike;
    var rest := NonEmpty(asked[1..]);
    assert NonEmpty(asked)[1..] == rest;
    if Alike(path[0], asked[0]) && AlikePath(path[1..], rest) {
      forall i {:trigger path[i]} | 0 <= i < |path| ensures Alike(path[i], NonEmpty(asked)[i]) {
        if i > 0 {
          assert path[1..][i - 1] == path[i];
        }
      }
    }
    if AlikePath(path, NonEmpty(asked)) {
      forall i {:trigger path[1..][i]} | 0 <= i < |path| - 1 ensures Alike(path[1..][i], rest[i]) {
        assert Alike(path[i + 1], NonEmpty(asked)[i + 1]);
      }
    }
  }

  /** The entry of a tidy list that has the name of a key is that key's. */
  lemma KidListed(node: Node, key: K.Key, j: nat)
    requires Lists(node, key) && Tidy(node) && j < |node.subkeys|
    ensures node.subkeys[j].name in key.subkeys && Lists(node.subkeys[j].node, key.subkeys[node.subkeys[j].name])
  {
    hide SameName, Utf16;
    var name := node.subkeys[j].name;
    assert ListsKid(node, key, name);
    var i :| 0 <= i < |node.subkeys| && node.subkeys[i].name == name && Lists(node.subkeys[i].node, key.subkeys[name]);
    assert SameName(Utf16(name), Utf16(name)) by {
      SameItself(name);
    }
  }

  lemma SameItself(name: seq<byte>)
    ensures Alike(name, Utf16(name))
  {
  }

  /** A key of the tree is found under every path that differs from its own by case and empty components. */
  lemma {:induction false} PathFound(node: Node, key: K.Key, path: K.Path, asked: seq<L.Name>)
    requires Lists(node, key) && Tidy(node) && K.Find(key, path).Some? && AlikePath(path, NonEmpty(asked))
    ensures FindPath(node, asked).Some?
    ensures Lists(FindPath(node, asked).value, K.Find(key, path).value) && Tidy(FindPath(node, asked).value)
    decreases |asked|
  {
    hide DistinctKids, Utf16, FindKid, SameName;
    if asked == [] {
      assert path == [];
    } else if asked[0] == [] {
      PathFound(node, key, path, asked[1..]);
    } else {
      AlikeStep(path, asked);
      assert ListsKid(node, key, path[0]);
      var i :| 0 <= i < |node.subkeys| && node.subkeys[i].name == path[0]
        && Lists(node.subkeys[i].node, key.subkeys[path[0]]);
      FindKidIff(node, asked[0], i);
      PathFound(node.subkeys[i].node, key.subkeys[path[0]], path[1..], asked[1..]);
    }
  }

  /** Whatever key is found under a path, the tree has it under a path that differs only so. */
  lemma {:induction false} PathFrom(node: Node, key: K.Key, asked: seq<L.Name>) returns (path: K.Path)
    requires Lists(node, key) && Tidy(node) && FindPath(node, asked).Some?
    ensures AlikePath(path, NonEmpty(asked)) && K.Find(key, path).Some?
    ensures Lists(FindPath(node, asked).value, K.Find(key, path).value) && Tidy(FindPath(node, asked).value)
    decreases |asked|
  {
    hide DistinctKids, Utf16, FindKid, SameName;
    if asked == [] {
      path := [];
    } else if asked[0] == [] {
      path := PathFrom(node, key, asked[1..]);
    } else {
      var j := FindKid(node, asked[0]).value;
      var name := node.subkeys[j].name;
      KidListed(node, key, j);
      var rest := PathFrom(node.subkeys[j].node, key.subkeys[name], asked[1..]);
      path := [name] + rest;
      assert path[1..] == rest;
      AlikeStep(path, asked);
    }
  }

  // ------------------------------------------------------------------ values

  /** Every stored value comes from one of the tree's values. */
  lemma {:induction false} KeptFrom(values: seq<NamedValue>, j: nat) returns (i: nat)
    requires j < |Kept(values)|
    ensures i < |values| && Kept(values)[j].name == values[i].name
    ensures Conversion(values[i].value) == Some(Kept(values)[j].value)
    decreases |values|
  {
    var n := |values| - 1;
    if j < |Kept(values[..n])| {
      i := KeptFrom(values[..n], j);
    } else {
      i := n;
    }
  }

  lemma {:induction false} KeptHas(values: seq<NamedValue>, i: nat) returns (j: nat)
    requires i < |values| && Conversion(values[i].value).Some?
    ensures j < |Kept(values)|
    ensures Kept(values)[j] == NamedValue(values[i].name, Conversion(values[i].value).value)
    decreases |values|
  {
    hide Conversion;
    var n := |values| - 1;
    if i == n {
      j := |Kept(values)| - 1;
    } else {
      j := KeptHas(values[..n], i);
    }
  }

  lemma {:induction false} ValueFromHits(kept: seq<NamedValue>, from: nat, name: L.Name, j: nat)
    requires from <= j < |kept| && Alike(kept[j].name, name)
    ensures ValueFrom(kept, from, name).Some?
    decreases |kept| - from
  {
    hide SameName, Utf16;
    if Alike(kept[from].name, name) {
    } else {
      ValueFromHits(kept, from + 1, name, j);
    }
  }

  /** What is found under a name is a value of the tree under a name alike, as it was converted. */
  lemma ValueComesFrom(node: Node, key: K.Key, asked: L.Name) returns (name: seq<byte>)
    requires Lists(node, key) && Tidy(node) && ValueFrom(Kept(node.values), 0, asked).Some?
    ensures name in key.values && Alike(name, asked) && Conversion(key.values[name]).Some?
    ensures Kept(node.values)[ValueFrom(Kept(node.values), 0, asked).value]
            == NamedValue(name, Conversion(key.values[name]).value)
  {
    hide Conversion, Kept, DistinctKids, Utf16, SameName;
    var found := ValueFrom(Kept(node.values), 0, asked).value;
    FoundAlike(Kept(node.values), 0, asked);
    var source := KeptFrom(node.values, found);
    name := node.values[source].name;
    assert ListsValue(node, key, name);
    var i :| 0 <= i < |node.values| && node.values[i].name == name && node.values[i].value == key.values[name];
    SameItself(name);
  }

  lemma {:induction false} FoundAlike(kept: seq<NamedValue>, from: nat, asked: L.Name)
    requires ValueFrom(kept, from, asked).Some?
    ensures Alike(kept[ValueFrom(kept, from, asked).value].name, asked)
    decreases |kept| - from
  {
    hide SameName, Utf16;
    if Alike(kept[from].name, asked) {
    } else {
      FoundAlike(kept, from + 1, asked);
    }
  }

  /** Names alike one asked name are alike each other, so in a tidy list they are one. */
  lemma AlikeBoth(a: seq<byte>, b: seq<byte>, asked: L.Name)
    requires Alike(a, asked) && Alike(b, asked)
    ensures Alike(a, Utf16(b)) && Alike(b, Utf16(a))
  {
  }

  /** A value that is kept is found under every name alike. */
  lemma ValueFound(node: Node, key: K.Key, name: seq<byte>, asked: L.Name)
    requires Lists(node, key) && Tidy(node) && Alike(name, asked)
    requires name in key.values && Conversion(key.values[name]).Some?
    ensures var kept := Kept(node.values);
            ValueFrom(kept, 0, asked).Some?
            && kept[ValueFrom(kept, 0, asked).value] == NamedValue(name, Conversion(key.values[name]).value)
  {
    hide Conversion, Kept, DistinctKids, Utf16, SameName;
    assert ListsValue(node, key, name);
    var i :| 0 <= i < |node.values| && node.values[i].name == name && node.values[i].value == key.values[name];
    var j := KeptHas(node.values, i);
    ValueFromHits(Kept(node.values), 0, asked, j);
    var other := ValueComesFrom(node, key, asked);
    assert ListsValue(node, key, other);
    var k :| 0 <= k < |node.values| && node.values[k].name == other;
    AlikeBoth(name, other, asked);
    assert i == k;
  }

  // ------------------------------------------------------------------ lookups in the hive

  /** `subpath` and then `value`. */
  ghost function Lookup(h: seq<byte>, item: R.Read<R.KeyNode>, asked: seq<L.Name>,
                        name: L.Name): (r: Option<R.Read<R.KeyValue>>)
    requires item.Ok? && item.value.In(h)
    ensures r.Some? && r.value.Ok? ==> r.value.value.In(h)
  {
    match L.SubkeyByPath(h, item.value, asked)
    case None => None
    case Some(Err(e)) => Some(Err(e))
    case Some(Ok(found)) => L.ValueByName(h, found, name)
  }

  /** The tree has a value that is stored, under a path and a name alike those asked for. */
  ghost predicate Holds(key: K.Key, asked: seq<L.Name>, name: L.Name, path: K.Path, own: seq<byte>) {
    && AlikePath(path, NonEmpty(asked)) && Alike(own, name)
    && K.ValueAt(key, path, own).Some? && Storable(K.ValueAt(key, path, own).value)
  }

  /** What a tree holds, its hive yields under every path and name alike: type and data as they are stored. */
  lemma HiveHoldsValue(h: seq<byte>, item: R.Read<R.KeyNode>, rootName: seq<byte>, node: Node, key: K.Key,
                       asked: seq<L.Name>, name: L.Name, path: K.Path, own: seq<byte>)
    requires Decodes(h, item, rootName, node) && Lists(node, key) && Tidy(node)
    requires Holds(key, asked, name, path, own)
    ensures item.Ok? && item.value.In(h)
    ensures var v := Lookup(h, item, asked, name);
            && v.Some? && v.value.Ok? && v.value.value.In(h)
            && ValueReads(h, v.value, NamedValue(own, K.ValueAt(key, path, own).value))
  {
    assert item.Ok? && item.value.In(h);
    hide Conversion, Kept, Lists, Tidy, FindPath, ValueFrom, L.SubkeyByPath, L.ValueByName, AlikePath, Alike,
         R.Data, R.DataType, R.ValueName, DecodesSubkeys, DecodesValues, StoredAs, Storable;
    var value := K.ValueAt(key, path, own).value;
    ConversionIff(value, 0, []);
    ConversionIff(value, Conversion(value).value.valueType, Conversion(value).value.data);
    PathFound(node, key, path, asked);
    var subName := SubpathDecodes(h, item, rootName, node, asked);
    var sub := FindPath(node, asked).value;
    ValueFound(sub, K.Find(key, path).value, own, name);
    ValueByNameDecodes(h, L.SubkeyByPath(h, item.value, asked).value, subName, sub, name);
  }

  /** What a hive yields at all, its tree holds under a path and a name alike. */
  lemma HiveAddsNothing(h: seq<byte>, item: R.Read<R.KeyNode>, rootName: seq<byte>, node: Node, key: K.Key,
                        asked: seq<L.Name>, name: L.Name) returns (path: K.Path, own: seq<byte>)
    requires Decodes(h, item, rootName, node) && Lists(node, key) && Tidy(node)
    requires item.Ok? && item.value.In(h) && Lookup(h, item, asked, name).Some?
    ensures Holds(key, asked, name, path, own)
  {
    hide Conversion, Kept, Lists, Tidy, FindPath, ValueFrom, L.SubkeyByPath, L.ValueByName, AlikePath, Alike,
         DecodesValue, DecodesSubkeys, DecodesValues;
    var subName := SubpathDecodes(h, item, rootName, node, asked);
    assert FindPath(node, asked).Some?;
    path := PathFrom(node, key, asked);
    var sub := FindPath(node, asked).value;
    ValueByNameDecodes(h, L.SubkeyByPath(h, item.value, asked).value, subName, sub, name);
    own := ValueComesFrom(sub, K.Find(key, path).value, name);
    ConversionIff(K.ValueAt(key, path, own).value, 0, []);
  }

  /** A lookup in the hive ends without a value exactly if the tree holds none under a path and a name alike. */
  lemma HiveFindsIff(h: seq<byte>, item: R.Read<R.KeyNode>, rootName: seq<byte>, node: Node, key: K.Key,
                     asked: seq<L.Name>, name: L.Name)
    requires Decodes(h, item, rootName, node) && Lists(node, key) && Tidy(node)
    ensures item.Ok? && item.value.In(h)
    ensures Lookup(h, item, asked, name) != None <==> exists path, own :: Holds(key, asked, name, path, own)
  {
    assert item.Ok? && item.value.In(h);
    hide Decodes, Lists, Tidy, Lookup, Holds;
    if Lookup(h, item, asked, name) != None {
      var path, own := HiveAddsNothing(h, item, rootName, node, key, asked, name);
    }
    if path, own :| Holds(key, asked, name, path, own) {
      HiveHoldsValue(h, item, rootName, node, key, asked, name, path, own);
    }
  }

  /** The components of a path, looked up as they are spelled, lead to those that are not empty. */
  lemma ComponentsFollowed(path: seq<byte>, parts: seq<K.Name>)
    requires K.Spells(path, parts) && Utf8(path)
    ensures AlikePath(NonEmpty(parts), NonEmpty(L.Split(Utf16(path), [])))
  {
    hide Alike, Utf8, Utf16, L.Split, K.Parts, AlikePath;
    K.PartsOf(path, parts, []);
    assert [] + parts[0] == parts[0] && [parts[0]] + parts[1..] == parts;
    AsciiUnits([]);
    assert Utf16([]) == Latin1Units([]) == [];
    PartsFollowed(path, []);
  }

  /** An operation without flags leaves a tree that holds its value at its place. */
  lemma OperationHolds(before: K.Key, hiveRoot: K.Name, op: K.AddRegOp, parts: seq<K.Name>, asked: seq<L.Name>)
    requires !K.Flag(op, 0x2) && !K.Flag(op, 0x4) && !K.Flag(op, 0x8) && !K.Flag(op, 0x10) && !K.Flag(op, 0x20)
    requires K.Spells(op.keyPath, parts) && Storable(RegValue(op.valueType, op.data))
    requires AlikePath(K.Place(hiveRoot, parts), NonEmpty(asked))
    ensures var after, path := K.AfterApply(before, hiveRoot, op).root, K.Place(hiveRoot, parts);
            && K.ValueAt(after, path, op.valueName) == Some(RegValue(op.valueType, op.data))
            && Holds(after, asked, Utf16(op.valueName), path, op.valueName)
  {
    hide K.AfterApply, K.Place, K.ValueAt, Storable, AlikePath, Alike, K.Spells, Utf16;
    K.OwnValue(before, hiveRoot, op, parts);
    SameItself(op.valueName);
  }

  /**
   From an operation to a lookup: after an operation without flags, asking the hive of its tree for the key path
   behind the hive's own root, in whatever spelling, and for the value's name yields the value that was set.
   */
  lemma OperationSeen(h: seq<byte>, item: R.Read<R.KeyNode>, rootName: seq<byte>, node: Node, before: K.Key,
                      hiveRoot: K.Name, op: K.AddRegOp, parts: seq<K.Name>, path: seq<byte>, behind: seq<K.Name>)
    requires !K.Flag(op, 0x2) && !K.Flag(op, 0x4) && !K.Flag(op, 0x8) && !K.Flag(op, 0x10) && !K.Flag(op, 0x20)
    requires K.Spells(op.keyPath, parts) && Storable(RegValue(op.valueType, op.data))
    requires Decodes(h, item, rootName, node) && Lists(node, K.AfterApply(before, hiveRoot, op).root) && Tidy(node)
    requires K.Spells(path, behind) && Utf8(path) && NonEmpty(behind) == K.Place(hiveRoot, parts)
    ensures item.Ok? && item.value.In(h)
    ensures var v := Lookup(h, item, L.Split(Utf16(path), []), Utf16(op.valueName));
            v.Some? && ValueReads(h, v.value, NamedValue(op.valueName, RegValue(op.valueType, op.data)))
  {
    assert item.Ok? && item.value.In(h);
    hide Decodes, Lists, Tidy, Lookup, L.Split, Utf16, Utf8, K.AfterApply, K.Place, K.ValueAt, Storable, Holds,
         AlikePath, K.Spells, ValueReads;
    ComponentsFollowed(path, behind);
    OperationHolds(before, hiveRoot, op, parts, L.Split(Utf16(path), []));
    HiveHoldsValue(h, item, rootName, node, K.AfterApply(before, hiveRoot, op).root,
                   L.Split(Utf16(path), []), Utf16(op.valueName), K.Place(hiveRoot, parts), op.valueName);
  }

  lemma BothKept(first: NamedValue, second: NamedValue)
    requires Conversion(first.value) == Some(first.value) && Conversion(second.value) == Some(second.value)
    ensures Kept([first, second]) == [first, second]
  {
    var values := [first, second];
    assert values[..1] == [first] && values[..1][..0] == [];
    assert Kept(values[..1]) == [first];
  }

  lemma LettersAlike()
    ensures Alike([0x41], [0x61]) && Alike([0x61], [0x61]) && Utf16([0x61]) == [0x61]
  {
  }

  lemma FirstFound(kept: seq<NamedValue>, asked: L.Name)
    requires kept != [] && Alike(kept[0].name, asked)
    ensures ValueFrom(kept, 0, asked) == Some(0)
  {
  }

  /** Two values named `A` and `a`: asking for `a` finds the value named `A`. */
  lemma CaseClash()
    ensures var first, second := RegValue(REG_BINARY, [0]), RegValue(REG_BINARY, [1]);
            var node := Node([NamedValue([0x41], first), NamedValue([0x61], second)], []);
            var key := K.Key(map[], map[[0x41] := first, [0x61] := second]);
            && Lists(node, key) && !Tidy(node) && Holds(key, [], [0x61], [], [0x61])
            && ValueFrom(Kept(node.values), 0, [0x61]) == Some(0)
            && Kept(node.values)[0] == NamedValue([0x41], first)
  {
    hide Alike, SameName, Utf16, Kept;
    var first, second := RegValue(REG_BINARY, [0]), RegValue(REG_BINARY, [1]);
    var values := [NamedValue([0x41], first), NamedValue([0x61], second)];
    var node, key := Node(values, []), K.Key(map[], map[[0x41] := first, [0x61] := second]);
    LettersAlike();
    BothKept(values[0], values[1]);
    assert ListsValue(node, key, [0x41]) by {
      assert node.values[0].name == [0x41];
    }
    assert ListsValue(node, key, [0x61]) by {
      assert node.values[1].name == [0x61];
    }
    assert !Tidy(node) by {
      assert Alike(node.values[0].name, Utf16(node.values[1].name));
    }
    FirstFound(values, [0x61]);
  }
}
