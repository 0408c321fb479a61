/** `mkhive`: a tree of keys and values becomes a hive file, and the parser decodes it again. */
module Mkhive {
  import opened Wrappers
  import opened Bytes
  import opened Strings
  import opened HiveHeap
  import opened HiveOrder
  import opened HiveRecords
  import opened HiveBuilding
  import opened HiveRoundTrip
  import R = HiveReading

  datatype RegValue = RegValue(valueType: u32, data: seq<byte>)
  datatype NamedValue = NamedValue(name: seq<byte>, value: RegValue)
  datatype NamedNode = NamedNode(name: seq<byte>, node: Node)

  /** A key of the tree; the maps of the original are the sequences of their entries in order. */
  datatype Node = Node(values: seq<NamedValue>, subkeys: seq<NamedNode>)

  const REG_SZ: u32 := 1
  const REG_EXPAND_SZ: u32 := 2
  const REG_BINARY: u32 := 3
  const REG_DWORD: u32 := 4
  const REG_MULTI_SZ: u32 := 7
  const REG_QWORD: u32 := 11

  /** What becomes of a value: numbers are cut to size or dropped, unknown types turn into binary. */
  function Conversion(v: RegValue): Option<RegValue> {
    if v.valueType == REG_DWORD then
      if |v.data| >= 4 then Some(RegValue(REG_DWORD, v.data[..4])) else None
    else if v.valueType == REG_QWORD then
      if |v.data| >= 8 then Some(RegValue(REG_QWORD, v.data[..8])) else None
    else if v.valueType in {REG_SZ, REG_EXPAND_SZ, REG_MULTI_SZ, REG_BINARY} then Some(v)
    else if v.data != [] then Some(RegValue(REG_BINARY, v.data))
    else None
  }

  /** The values of a key that are stored, as they are stored. */
  function Kept(values: seq<NamedValue>): (r: seq<NamedValue>)
    ensures forall i :: 0 <= i < |r| ==> r[i].value.valueType <= 11
  {
    if values == [] then []
    else
      var rest, last := Kept(values[..|values| - 1]), values[|values| - 1];
      match Conversion(last.value)
      case None => rest
      case Some(v) => rest + [NamedValue(last.name, v)]
  }

  /**
   What a value reads back as: strings, multi-strings and binary data as they are, numbers cut to four and eight
   bytes, and everything else that is not empty as binary data.
   */
  predicate StoredAs(v: RegValue, typ: u32, data: seq<byte>) {
    if v.valueType == 1 || v.valueType == 2 || v.valueType == 3 || v.valueType == 7 then
      typ == v.valueType && data == v.data
    else if v.valueType == 4 then |v.data| >= 4 && typ == 4 && data == v.data[..4]
    else if v.valueType == 11 then |v.data| >= 8 && typ == 11 && data == v.data[..8]
    else v.data != [] && typ == 3 && data == v.data
  }

  /** The value is stored at all. */
  predicate Storable(v: RegValue) {
    if v.valueType == 1 || v.valueType == 2 || v.valueType == 3 || v.valueType == 7 then true
    else if v.valueType == 4 then |v.data| >= 4
    else if v.valueType == 11 then |v.data| >= 8
    else v.data != []
  }

  lemma ConversionIff(v: RegValue, typ: u32, data: seq<byte>)
    ensures Conversion(v) == Some(RegValue(typ, data)) <==> StoredAs(v, typ, data)
    ensures Conversion(v).Some? <==> Storable(v)
  {
  }

  /** Position `i` holds a value that is stored. */
  predicate HoldsStorable(values: seq<NamedValue>, i: nat) {
    i < |values| && Storable(values[i].value)
  }

  /** The positions of the values that are stored: all of them, each once, in their order. */
  ghost predicate Positions(values: seq<NamedValue>, at: seq<nat>) {
    && (forall q {:trigger at[q]} :: 0 <= q < |at| ==> HoldsStorable(values, at[q]))
    && (forall p, q {:trigger at[p], at[q]} :: 0 <= p < q < |at| ==> at[p] < at[q])
    && (forall i: nat {:trigger HoldsStorable(values, i)} :: HoldsStorable(values, i) ==> i in at)
  }

  /** The stored values are those at these positions. */
  ghost predicate KeptAt(values: seq<NamedValue>, at: seq<nat>) {
    && Positions(values, at) && |Kept(values)| == |at|
    && forall q {:trigger at[q]} :: 0 <= q < |at| ==> KeptHere(values, at[q], Kept(values)[q])
  }

  /** The value at position `i` is stored as `kept`. */
  predicate KeptHere(values: seq<NamedValue>, i: nat, kept: NamedValue) {
    && i < |values| && kept.name == values[i].name
    && StoredAs(values[i].value, kept.value.valueType, kept.value.data)
  }

  lemma PositionsMore(values: seq<NamedValue>, front: seq<nat>)
    requires values != [] && Positions(values[..|values| - 1], front)
    ensures Positions(values, if Storable(values[|values| - 1].value) then front + [|values| - 1] else front)
  {
    hide Storable;
    var n := |values| - 1;
    var at := if Storable(values[n].value) then front + [n] else front;
    forall q {:trigger at[q]} | 0 <= q < |at| ensures HoldsStorable(values, at[q]) {
      if q < |front| {
        assert at[q] == front[q] && HoldsStorable(values[..n], front[q]);
      }
    }
    forall p, q {:trigger at[p], at[q]} | 0 <= p < q < |at| ensures at[p] < at[q] {
      assert at[p] == front[p] && HoldsStorable(values[..n], front[p]);
      if q < |front| {
        assert at[q] == front[q];
      }
    }
    forall i: nat {:trigger HoldsStorable(values, i)} | HoldsStorable(values, i) ensures i in at {
      if i < n {
        assert HoldsStorable(values[..n], i);
        assert i in front;
      }
    }
  }

  lemma {:induction false} KeptAre(values: seq<NamedValue>) returns (at: seq<nat>)
    ensures KeptAt(values, at)
    decreases |values|
  {
    hide Conversion, StoredAs, Storable, Positions;
    if values == [] {
      at := [];
      NoPositions();
    } else {
      var n := |values| - 1;
      var front := KeptAre(values[..n]);
      var last := values[n].value;
      PositionsMore(values, front);
      PositionsWithin(values[..n], front);
      at := if Storable(last) then front + [n] else front;
      if Conversion(last).Some? {
        ConversionIff(last, Conversion(last).value.valueType, Conversion(last).value.data);
      } else {
        ConversionIff(last, 0, []);
      }
      forall q {:trigger at[q]} | 0 <= q < |at| ensures KeptHere(values, at[q], Kept(values)[q]) {
        if q < |front| {
          assert front[q] == at[q] && KeptHere(values[..n], front[q], Kept(values[..n])[q]);
        }
      }
    }
  }

  lemma NoPositions()
    ensures Positions([], [])
  {
  }

  lemma PositionsWithin(values: seq<NamedValue>, at: seq<nat>)
    requires Positions(values, at)
    ensures forall q {:trigger at[q]} :: 0 <= q < |at| ==> at[q] < |values|
  {
  }

  /** All names are strings. */
  ghost predicate StringNames(node: Node) {
    && (forall i :: 0 <= i < |node.values| ==> Utf8(node.values[i].name))
    && (forall i :: 0 <= i < |node.subkeys| ==> Utf8(node.subkeys[i].name) && StringNames(node.subkeys[i].node))
  }

  function NameHashes(kids: seq<NamedNode>): (hs: seq<u32>)
    ensures |hs| == |kids| && forall i :: 0 <= i < |kids| ==> hs[i] == NameHash(kids[i].name)
  {
    seq(|kids|, i requires 0 <= i < |kids| => NameHash(kids[i].name))
  }

  // ------------------------------------------------------------------ the tree in the builder

  ghost predicate ValueIs(vals: Vals, v: u32, named: NamedValue) {
    && v in vals && vals[v].name == named.name
    && vals[v].typ == named.value.valueType && vals[v].data == named.value.data
  }

  ghost predicate ValuesAre(vals: Vals, offsets: seq<u32>, kept: seq<NamedValue>) {
    && |offsets| == |kept|
    && forall i {:trigger ValueIs(vals, offsets[i], kept[i])} :: 0 <= i < |kept| ==> ValueIs(vals, offsets[i], kept[i])
  }

  /** Below the key `k`, within the keys `own`, hangs exactly `node`, its children in hash order. */
  ghost predicate TreeAt(keys: Keys, vals: Vals, k: u32, name: seq<byte>, node: Node, own: set<u32>)
    decreases node
  {
    && k in own && k in keys && keys[k].name == name
    && ValuesAre(vals, keys[k].values, Kept(node.values))
    && |keys[k].subkeys| == |node.subkeys|
    && var order := Order(NameHashes(node.subkeys));
       forall i {:trigger ChildAt(keys, vals, k, node, own, order, i)} :: 0 <= i < |order| ==>
         ChildAt(keys, vals, k, node, own, order, i)
  }

  ghost predicate ChildAt(keys: Keys, vals: Vals, k: u32, node: Node, own: set<u32>, order: seq<nat>, i: nat)
    requires k in keys && i < |keys[k].subkeys| && i < |order| && order[i] < |node.subkeys|
    decreases node, 0
  {
    var kid := node.subkeys[order[i]];
    TreeAt(keys, vals, keys[k].subkeys[i].key, kid.name, kid.node, own)
  }

  ghost predicate SameKey(keys: Keys, keys': Keys, q: u32)
    requires q in keys
  {
    q in keys' && keys'[q] == keys[q]
  }

  ghost predicate SameValue(vals: Vals, vals': Vals, v: u32)
    requires v in vals
  {
    v in vals' && vals'[v] == vals[v]
  }

  /** The keys in `own` and all values are still there, unchanged. */
  ghost predicate StillThere(keys: Keys, vals: Vals, keys': Keys, vals': Vals, own: set<u32>) {
    && (forall q {:trigger SameKey(keys, keys', q)} :: q in own && q in keys ==> SameKey(keys, keys', q))
    && (forall v {:trigger SameValue(vals, vals', v)} :: v in vals ==> SameValue(vals, vals', v))
  }

  lemma {:induction false} TreeStays(keys: Keys, vals: Vals, keys': Keys, vals': Vals, k: u32,
                                     name: seq<byte>, node: Node, own: set<u32>, own': set<u32>)
    requires TreeAt(keys, vals, k, name, node, own) && own <= own'
    requires StillThere(keys, vals, keys', vals', own)
    ensures TreeAt(keys', vals', k, name, node, own')
    decreases node
  {
    hide Order, NameHashes, Kept;
    var order := Order(NameHashes(node.subkeys));
    var kept := Kept(node.values);
    assert SameKey(keys, keys', k);
    forall i {:trigger ValueIs(vals', keys'[k].values[i], kept[i])} | 0 <= i < |kept|
      ensures ValueIs(vals', keys'[k].values[i], kept[i])
    {
      assert ValueIs(vals, keys[k].values[i], kept[i]);
      assert SameValue(vals, vals', keys[k].values[i]);
    }
    forall i {:trigger ChildAt(keys', vals', k, node, own', order, i)} | 0 <= i < |order|
      ensures ChildAt(keys', vals', k, node, own', order, i)
    {
      assert ChildAt(keys, vals, k, node, own, order, i);
      var kid := node.subkeys[order[i]];
      TreeStays(keys, vals, keys', vals', keys[k].subkeys[i].key, kid.name, kid.node, own, own');
    }
  }

  // ------------------------------------------------------------------ what can be built, and what it costs

  predicate ValuesBuildable(kept: seq<NamedValue>) {
    && |kept| <= MAX_VALUES
    && forall i :: 0 <= i < |kept| ==> ValueFits(kept[i].name, kept[i].value.data)
  }

  /**
   Exactly the trees whose build returns: no key with more than 507 subkeys or 1015 stored values, and no
   record or data whose cell size falls into the 32 bytes that the new bin's header takes.
   */
  predicate Buildable(node: Node)
    decreases node
  {
    && ValuesBuildable(Kept(node.values)) && |node.subkeys| <= MAX_SUBKEYS
    && (forall i :: 0 <= i < |node.subkeys| ==> KeyFits(node.subkeys[i].name) && Buildable(node.subkeys[i].node))
  }

  function ValuesGrowth(kept: seq<NamedValue>): nat {
    if kept == [] then 0
    else
      var last := kept[|kept| - 1];
      ValuesGrowth(kept[..|kept| - 1]) + ValueGrowth(last.name, last.value.data) + ValueListGrowth(|kept|)
  }

  function KidsGrowth(node: Node, n: nat): nat
    requires n <= |node.subkeys|
    decreases node, n
  {
    if n == 0 then 0
    else
      var kid := node.subkeys[n - 1];
      KidsGrowth(node, n - 1) + (KeyGrowth(kid.name) + SubkeyListGrowth(n)) + Growth(kid.node)
  }

  /** A bound on the bytes that building `node` can append. */
  function Growth(node: Node): nat
    decreases node, |node.subkeys| + 1
  {
    ValuesGrowth(Kept(node.values)) + KidsGrowth(node, |node.subkeys|)
  }

  // ------------------------------------------------------------------ building

  /** From one builder state to a later one: only the key `k` may have changed, and only in its lists. */
  ghost predicate GrownBelow(keys: Keys, vals: Vals, keys': Keys, vals': Vals, k: u32) {
    && k in keys && k in keys' && keys'[k].name == keys[k].name
    && StillThere(keys, vals, keys', vals', keys.Keys - {k})
  }

  lemma GrownBelowTransitive(keys: Keys, vals: Vals, keys1: Keys, vals1: Vals, keys2: Keys, vals2: Vals, k: u32)
    requires GrownBelow(keys, vals, keys1, vals1, k) && GrownBelow(keys1, vals1, keys2, vals2, k)
    ensures GrownBelow(keys, vals, keys2, vals2, k)
  {
    forall q {:trigger SameKey(keys, keys2, q)} | q in keys.Keys - {k} && q in keys
      ensures SameKey(keys, keys2, q)
    {
      assert SameKey(keys, keys1, q) && SameKey(keys1, keys2, q);
    }
    forall v {:trigger SameValue(vals, vals2, v)} | v in vals
      ensures SameValue(vals, vals2, v)
    {
      assert SameValue(vals, vals1, v) && SameValue(vals1, vals2, v);
    }
  }

  lemma ValueGrownBelow(keys: Keys, vals: Vals, keys': Keys, vals': Vals, k: u32, v: u32, name: seq<byte>, typ: u32,
                        data: seq<byte>, before: seq<NamedValue>)
    requires ValueCreated(keys, vals, keys', vals', k, v, name, typ, data) && k in keys
    requires ValuesAre(vals, keys[k].values, before)
    ensures GrownBelow(keys, vals, keys', vals', k)
    ensures ValuesAre(vals', keys'[k].values, before + [NamedValue(name, RegValue(typ, data))])
    ensures keys'.Keys == keys.Keys && keys'[k].subkeys == keys[k].subkeys
  {
    var kept := before + [NamedValue(name, RegValue(typ, data))];
    forall i {:trigger ValueIs(vals', keys'[k].values[i], kept[i])} | 0 <= i < |kept|
      ensures ValueIs(vals', keys'[k].values[i], kept[i])
    {
      if i < |before| {
        assert ValueIs(vals, keys[k].values[i], before[i]);
      }
    }
  }

  /** The bytes that `add_value` hands to the builder, for a value that is kept. */
  method AddValue(builder: HiveBuilder, key: KeyHandle, name: seq<byte>, value: RegValue, ghost before: seq<NamedValue>)
    returns (r: Outcome<()>)
    requires builder.Valid() && key.offset in builder.keys
    requires ValuesAre(builder.vals, builder.keys[key.offset].values, before)
    modifies builder`data, builder`bins, builder`cells, builder`keys, builder`vals
    ensures r.Done? ==>
      && builder.Valid() && GrownBelow(old(builder.keys), old(builder.vals), builder.keys, builder.vals, key.offset)
      && builder.keys.Keys == old(builder.keys).Keys
      && builder.keys[key.offset].subkeys == old(builder.keys)[key.offset].subkeys
      && ValuesAre(builder.vals, builder.keys[key.offset].values, Appended(before, name, value))
      && Later(old(builder.data), builder.data, AppendGrowth(before, name, value))
    ensures r.Done? ==> CanAppend(before, name, value)
    ensures r.NeverReturns? ==> !CanAppend(before, name, value)
    ensures r.TooLarge? ==> !RoomFor(|old(builder.data)| - BASE, AppendGrowth(before, name, value))
  {
    hide HeapOk, Records, NoLeak, Graph, BaseFields, ValuesAre, GrownBelow, ValueGrowth, ValueListGrowth,
         ValueFits, ValueCreated, RoomFor, LE32, LE64, Get32, Get64, CellSize;
    ghost var keys, vals := builder.keys, builder.vals;
    BaseLength(builder.data, builder.bins, builder.cells, builder.rootKeyOffset, builder.sequenceNumber);
    SameCount(vals, keys[key.offset].values, before);
    Unchanged(keys, vals, builder.data, key.offset);
    var typ, bytes := value.valueType, value.data;
    ghost var v := 0;
    r := Done(());
    if typ == REG_DWORD {
      if |bytes| >= 4 {
        LE32OfGet(bytes, 0);
        r, v := builder.SetDword(key, name, Get32(bytes, 0));
      }
    } else if typ == REG_QWORD {
      if |bytes| >= 8 {
        LE64OfGet(bytes, 0);
        r, v := builder.SetQword(key, name, Get64(bytes, 0));
      }
    } else if typ == REG_SZ || typ == REG_EXPAND_SZ || typ == REG_MULTI_SZ || typ == REG_BINARY {
      r, v := builder.SetValueInternal(key, name, typ, bytes);
    } else {
      if bytes != [] {
        r, v := builder.SetValueInternal(key, name, REG_BINARY, bytes);
      }
    }
    if r.Done? && Conversion(value).Some? {
      var stored := Conversion(value).value;
      ValueGrownBelow(keys, vals, builder.keys, builder.vals, key.offset, v, name, stored.valueType, stored.data,
                      before);
    }
  }

  lemma SameCount(vals: Vals, offsets: seq<u32>, kept: seq<NamedValue>)
    requires ValuesAre(vals, offsets, kept)
    ensures |offsets| == |kept|
  {
  }

  lemma Unchanged(keys: Keys, vals: Vals, data: seq<byte>, k: u32)
    requires k in keys && |data| >= BASE
    ensures GrownBelow(keys, vals, keys, vals, k) && Later(data, data, 0)
  {
  }

  /** The stored values of a key after one more value was added, if it is kept at all. */
  function Appended(before: seq<NamedValue>, name: seq<byte>, value: RegValue): seq<NamedValue> {
    match Conversion(value)
    case None => before
    case Some(v) => before + [NamedValue(name, v)]
  }

  predicate CanAppend(before: seq<NamedValue>, name: seq<byte>, value: RegValue) {
    match Conversion(value)
    case None => true
    case Some(v) => ValueFits(name, v.data) && |before| < MAX_VALUES
  }

  function AppendGrowth(before: seq<NamedValue>, name: seq<byte>, value: RegValue): nat {
    match Conversion(value)
    case None => 0
    case Some(v) => ValueGrowth(name, v.data) + ValueListGrowth(|before| + 1)
  }

  lemma KeptSnoc(values: seq<NamedValue>, i: nat)
    requires i < |values|
    ensures Kept(values[..i + 1]) == Appended(Kept(values[..i]), values[i].name, values[i].value)
  {
    assert values[..i + 1][..i] == values[..i];
  }

  /** What was kept of a prefix is a prefix of what is kept, and costs no more. */
  lemma {:induction false} KeptPrefix(values: seq<NamedValue>, i: nat)
    requires i <= |values|
    ensures |Kept(values[..i])| <= |Kept(values)|
    ensures Kept(values)[..|Kept(values[..i])|] == Kept(values[..i])
    ensures ValuesGrowth(Kept(values[..i])) <= ValuesGrowth(Kept(values))
    decreases |values| - i
  {
    hide Conversion, Kept, ValuesGrowth, Appended;
    if i == |values| {
      assert values[..i] == values;
    } else {
      KeptPrefix(values, i + 1);
      KeptSnoc(values, i);
      AppendedGrows(Kept(values[..i]), values[i].name, values[i].value);
    }
  }

  lemma AppendedGrows(before: seq<NamedValue>, name: seq<byte>, value: RegValue)
    ensures var after := Appended(before, name, value);
            |before| <= |after| && after[..|before|] == before && ValuesGrowth(before) <= ValuesGrowth(after)
  {
    hide Conversion, ValueGrowth, ValueListGrowth;
    if Appended(before, name, value) != before {
      var after := Appended(before, name, value);
      assert after[..|after| - 1] == before;
    }
  }

  lemma GrowthSnoc(before: seq<NamedValue>, name: seq<byte>, value: RegValue)
    ensures ValuesGrowth(Appended(before, name, value)) == ValuesGrowth(before) + AppendGrowth(before, name, value)
  {
    var after := Appended(before, name, value);
    if Conversion(value).Some? {
      assert after[..|after| - 1] == before;
    }
  }

  /** If there is no room for the next step, there was none for all steps together. */
  lemma NoRoomForAll(len0: nat, len: nat, done: nat, step: nat, all: nat)
    requires len <= len0 + done && done + step <= all && !RoomFor(len, step)
    ensures !RoomFor(len0, all)
  {
  }

  /** The first loop of `build_key_recursive`: the values of a key. */
  method BuildValues(builder: HiveBuilder, parent: KeyHandle, values: seq<NamedValue>) returns (r: Outcome<()>)
    requires builder.Valid() && parent.offset in builder.keys && builder.keys[parent.offset].values == []
    modifies builder`data, builder`bins, builder`cells, builder`keys, builder`vals
    ensures r.Done? ==>
      && builder.Valid() && GrownBelow(old(builder.keys), old(builder.vals), builder.keys, builder.vals, parent.offset)
      && builder.keys.Keys == old(builder.keys).Keys
      && builder.keys[parent.offset].subkeys == old(builder.keys)[parent.offset].subkeys
      && ValuesAre(builder.vals, builder.keys[parent.offset].values, Kept(values))
      && Later(old(builder.data), builder.data, ValuesGrowth(Kept(values)))
    ensures r.Done? ==> ValuesBuildable(Kept(values))
    ensures r.NeverReturns? ==> !ValuesBuildable(Kept(values))
    ensures r.TooLarge? ==> !RoomFor(|old(builder.data)| - BASE, ValuesGrowth(Kept(values)))
  {
    hide HeapOk, Records, NoLeak, Graph, BaseFields, ValuesAre, GrownBelow, ValueFits, RoomFor, Conversion,
         AppendGrowth, CanAppend, Appended, ValuesGrowth, Kept, SameBase;
    ghost var p, keys0, vals0, data0 := parent.offset, builder.keys, builder.vals, builder.data;
    BaseLength(builder.data, builder.bins, builder.cells, builder.rootKeyOffset, builder.sequenceNumber);
    Unchanged(keys0, vals0, data0, p);
    NoValuesYet(vals0, values);
    for i := 0 to |values|
      invariant builder.Valid() && p in builder.keys
      invariant GrownBelow(keys0, vals0, builder.keys, builder.vals, p)
      invariant builder.keys.Keys == keys0.Keys && builder.keys[p].subkeys == keys0[p].subkeys
      invariant ValuesAre(builder.vals, builder.keys[p].values, Kept(values[..i]))
      invariant Later(data0, builder.data, ValuesGrowth(Kept(values[..i])))
      invariant ValuesBuildable(Kept(values[..i]))
    {
      ghost var keys1, vals1, data1, before := builder.keys, builder.vals, builder.data, Kept(values[..i]);
      KeptSnoc(values, i);
      KeptPrefix(values, i + 1);
      GrowthSnoc(before, values[i].name, values[i].value);
      ValueStep(values, i);
      BaseLength(data1, builder.bins, builder.cells, builder.rootKeyOffset, builder.sequenceNumber);
      r := AddValue(builder, parent, values[i].name, values[i].value, before);
      if r.TooLarge? {
        NoRoomForAll(|data0| - BASE, |data1| - BASE, ValuesGrowth(before),
                     AppendGrowth(before, values[i].name, values[i].value), ValuesGrowth(Kept(values)));
      }
      if !r.Done? {
        return;
      }
      GrownBelowTransitive(keys0, vals0, keys1, vals1, builder.keys, builder.vals, p);
      LaterTransitive(data0, data1, builder.data, ValuesGrowth(before),
                      AppendGrowth(before, values[i].name, values[i].value));
    }
    assert values[..|values|] == values;
    r := Done(());
  }

  lemma NoValuesYet(vals: Vals, values: seq<NamedValue>)
    ensures ValuesAre(vals, [], Kept(values[..0])) && ValuesBuildable(Kept(values[..0]))
    ensures ValuesGrowth(Kept(values[..0])) == 0
  {
  }

  /** A value that cannot be appended makes the whole list unbuildable. */
  lemma ValueStep(values: seq<NamedValue>, i: nat)
    requires i < |values| && ValuesBuildable(Kept(values[..i]))
    ensures CanAppend(Kept(values[..i]), values[i].name, values[i].value) ==> ValuesBuildable(Kept(values[..i + 1]))
    ensures !CanAppend(Kept(values[..i]), values[i].name, values[i].value) ==> !ValuesBuildable(Kept(values))
  {
    hide ValueFits, Kept, Conversion;
    KeptSnoc(values, i);
    KeptPrefix(values, i + 1);
    AppendStep(Kept(values[..i]), values[i].name, values[i].value);
    if ValuesBuildable(Kept(values)) {
      PrefixBuildable(Kept(values[..i + 1]), Kept(values));
    }
  }

  lemma AppendStep(before: seq<NamedValue>, name: seq<byte>, value: RegValue)
    requires ValuesBuildable(before)
    ensures CanAppend(before, name, value) <==> ValuesBuildable(Appended(before, name, value))
  {
    hide ValueFits, Conversion;
    var after := Appended(before, name, value);
    if Conversion(value).Some? {
      assert after[|before|] == NamedValue(name, Conversion(value).value);
    }
  }

  lemma PrefixBuildable(prefix: seq<NamedValue>, all: seq<NamedValue>)
    requires |prefix| <= |all| && all[..|prefix|] == prefix && ValuesBuildable(all)
    ensures ValuesBuildable(prefix)
  {
    hide ValueFits;
    forall i | 0 <= i < |prefix|
      ensures prefix[i] == all[i]
    {
      assert all[..|prefix|][i] == all[i];
    }
  }

  // ------------------------------------------------------------------ building the subkeys

  ghost predicate KidMade(keys1: Keys, keys: Keys, vals: Vals, node: Node, made: seq<Item>, j: nat)
    requires j < |made| <= |node.subkeys|
  {
    && made[j].hash == NameHash(node.subkeys[j].name) && made[j].key !in keys1
    && TreeAt(keys, vals, made[j].key, node.subkeys[j].name, node.subkeys[j].node, keys.Keys - keys1.Keys)
  }

  /** Since the keys `keys1`, the first `|made|` subkeys of `node` were built below `p`. */
  ghost predicate KidsMade(keys1: Keys, keys: Keys, vals: Vals, p: u32, node: Node, made: seq<Item>) {
    && p in keys1 && p in keys && keys1.Keys <= keys.Keys && |made| <= |node.subkeys|
    && keys[p].subkeys == SortByHash(made) && keys[p].values == keys1[p].values
    && forall j {:trigger KidMade(keys1, keys, vals, node, made, j)} :: 0 <= j < |made| ==>
         KidMade(keys1, keys, vals, node, made, j)
  }

  /** One subkey is created and built: what that does to everything built before. */
  lemma KidStep(keys1: Keys, vals1: Vals, keysA: Keys, valsA: Vals, keysB: Keys, keysC: Keys, valsC: Vals,
                p: u32, c: u32, node: Node, made: seq<Item>)
    requires KidsMade(keys1, keysA, valsA, p, node, made) && |made| < |node.subkeys|
    requires GrownBelow(keys1, vals1, keysA, valsA, p)
    requires SubkeyCreated(keysA, keysB, p, c, node.subkeys[|made|].name)
    requires GrownBelow(keysB, valsA, keysC, valsC, c)
    requires TreeAt(keysC, valsC, c, node.subkeys[|made|].name, node.subkeys[|made|].node,
                    {c} + (keysC.Keys - keysB.Keys))
    ensures p in keysC && KidsMade(keys1, keysC, valsC, p, node, made + [Item(c, NameHash(node.subkeys[|made|].name))])
    ensures GrownBelow(keys1, vals1, keysC, valsC, p)
  {
    hide NameHash, SortByHash, TreeAt;
    var item := Item(c, NameHash(node.subkeys[|made|].name));
    var made' := made + [item];
    assert p != c && SameKey(keysB, keysC, p);
    SortIncrementally(made, item);
    KidStepKeys(keys1, keysA, keysB, keysC, p, c, valsA, valsC);
    forall j {:trigger KidMade(keys1, keysC, valsC, node, made', j)} | 0 <= j < |made'|
      ensures KidMade(keys1, keysC, valsC, node, made', j)
    {
      if j < |made| {
        assert KidMade(keys1, keysA, valsA, node, made, j);
        TreeStays(keysA, valsA, keysC, valsC, made[j].key, node.subkeys[j].name, node.subkeys[j].node,
                  keysA.Keys - keys1.Keys, keysC.Keys - keys1.Keys);
      } else {
        TreeStays(keysC, valsC, keysC, valsC, c, node.subkeys[j].name, node.subkeys[j].node,
                  {c} + (keysC.Keys - keysB.Keys), keysC.Keys - keys1.Keys);
      }
    }
    forall q {:trigger SameKey(keys1, keysC, q)} | q in keys1.Keys - {p} && q in keys1
      ensures SameKey(keys1, keysC, q)
    {
      assert SameKey(keys1, keysA, q) && SameKey(keysB, keysC, q);
    }
    forall v {:trigger SameValue(vals1, valsC, v)} | v in vals1
      ensures SameValue(vals1, valsC, v)
    {
      assert SameValue(vals1, valsA, v) && SameValue(valsA, valsC, v);
    }
  }

  lemma KidStepKeys(keys1: Keys, keysA: Keys, keysB: Keys, keysC: Keys, p: u32, c: u32, valsA: Vals, valsC: Vals)
    requires p in keys1 && p in keysA && keys1.Keys <= keysA.Keys && c !in keysA && c in keysB && c in keysC
    requires keysB.Keys == keysA.Keys + {c}
    requires forall q {:trigger SameKey(keysA, keysB, q)} :: q in keysA && q != p ==> SameKey(keysA, keysB, q)
    requires StillThere(keysB, valsA, keysC, valsC, keysB.Keys - {c})
    ensures StillThere(keysA, valsA, keysC, valsC, keysA.Keys - keys1.Keys)
    ensures keysA.Keys <= keysC.Keys && keys1.Keys <= keysC.Keys
    ensures {c} + (keysC.Keys - keysB.Keys) <= keysC.Keys - keys1.Keys
  {
    forall q | q in keysA
      ensures q in keysC
    {
      assert SameKey(keysB, keysC, q);
    }
    forall q {:trigger SameKey(keysA, keysC, q)} | q in keysA.Keys - keys1.Keys && q in keysA
      ensures SameKey(keysA, keysC, q)
    {
      assert SameKey(keysA, keysB, q) && SameKey(keysB, keysC, q);
    }
  }

  /** When all subkeys are built, the whole tree hangs below `p`. */
  lemma KidsDone(keys1: Keys, vals1: Vals, keys: Keys, vals: Vals, p: u32, node: Node, made: seq<Item>)
    requires KidsMade(keys1, keys, vals, p, node, made) && |made| == |node.subkeys|
    requires GrownBelow(keys1, vals1, keys, vals, p) && ValuesAre(vals1, keys1[p].values, Kept(node.values))
    ensures TreeAt(keys, vals, p, keys[p].name, node, {p} + (keys.Keys - keys1.Keys))
  {
    hide NameHash, Order, Kept;
    var kept, own := Kept(node.values), {p} + (keys.Keys - keys1.Keys);
    forall i {:trigger ValueIs(vals, keys[p].values[i], kept[i])} | 0 <= i < |kept|
      ensures ValueIs(vals, keys[p].values[i], kept[i])
    {
      assert ValueIs(vals1, keys1[p].values[i], kept[i]);
      assert SameValue(vals1, vals, keys1[p].values[i]);
    }
    assert Hashes(made) == NameHashes(node.subkeys) by {
      forall j | 0 <= j < |made|
        ensures made[j].hash == NameHash(node.subkeys[j].name)
      {
        assert KidMade(keys1, keys, vals, node, made, j);
      }
    }
    var order := Order(NameHashes(node.subkeys));
    forall i {:trigger ChildAt(keys, vals, p, node, own, order, i)} | 0 <= i < |order|
      ensures ChildAt(keys, vals, p, node, own, order, i)
    {
      var j := order[i];
      assert keys[p].subkeys[i] == made[j];
      assert KidMade(keys1, keys, vals, node, made, j);
      TreeStays(keys, vals, keys, vals, made[j].key, node.subkeys[j].name, node.subkeys[j].node,
                keys.Keys - keys1.Keys, own);
    }
  }

  ghost predicate KidsBuildable(node: Node, n: nat)
    requires n <= |node.subkeys|
  {
    n <= MAX_SUBKEYS && forall i :: 0 <= i < n ==> KeyFits(node.subkeys[i].name) && Buildable(node.subkeys[i].node)
  }

  lemma {:induction false} KidsGrowthMonotone(node: Node, n: nat, m: nat)
    requires n <= m <= |node.subkeys|
    ensures KidsGrowth(node, n) <= KidsGrowth(node, m)
    decreases m - n
  {
    if m <= n {
    } else {
      KidsGrowthMonotone(node, n, m - 1);
    }
  }

  /** One round of the second loop of `build_key_recursive`: creates a subkey and builds it. */
  method BuildSubkey(builder: HiveBuilder, parent: KeyHandle, name: seq<byte>, kid: Node)
    returns (r: Outcome<KeyHandle>, ghost mid: Keys)
    requires builder.Valid() && parent.offset in builder.keys && Utf8(name) && StringNames(kid)
    modifies builder`data, builder`bins, builder`cells, builder`keys, builder`vals
    ensures r.Done? ==>
      && builder.Valid() && SubkeyCreated(old(builder.keys), mid, parent.offset, r.value.offset, name)
      && GrownBelow(mid, old(builder.vals), builder.keys, builder.vals, r.value.offset)
      && TreeAt(builder.keys, builder.vals, r.value.offset, name, kid,
                {r.value.offset} + (builder.keys.Keys - mid.Keys))
      && Later(old(builder.data), builder.data, KidGrowth(name, |old(builder.keys)[parent.offset].subkeys|, kid))
    ensures r.Done? ==> KidBuildable(name, |old(builder.keys)[parent.offset].subkeys|, kid)
    ensures r.NeverReturns? ==> !KidBuildable(name, |old(builder.keys)[parent.offset].subkeys|, kid)
    ensures r.TooLarge? ==>
      !RoomFor(|old(builder.data)| - BASE, KidGrowth(name, |old(builder.keys)[parent.offset].subkeys|, kid))
    decreases kid, 1
  {
    hide HeapOk, Records, NoLeak, Graph, BaseFields, GrownBelow, RoomFor, SameBase, SubkeyCreated, TreeAt,
         KeyGrowth, SubkeyListGrowth, KeyFits, Growth;
    ghost var data0, count := builder.data, |builder.keys[parent.offset].subkeys|;
    ghost var keyCost := KeyGrowth(name) + SubkeyListGrowth(count + 1);
    mid := builder.keys;
    BaseLength(data0, builder.bins, builder.cells, builder.rootKeyOffset, builder.sequenceNumber);
    r := builder.CreateSubkey(parent, name);
    if r.TooLarge? {
      NoRoomForAll(|data0| - BASE, |data0| - BASE, 0, keyCost, KidGrowth(name, count, kid));
    }
    if !r.Done? {
      return;
    }
    var child := r.value;
    CreatedEmpty(mid, builder.keys, parent.offset, child.offset, name);
    mid := builder.keys;
    ghost var data1 := builder.data;
    BaseLength(data1, builder.bins, builder.cells, builder.rootKeyOffset, builder.sequenceNumber);
    var built := BuildKeyRecursive(builder, child, kid);
    if built.TooLarge? {
      NoRoomForAll(|data0| - BASE, |data1| - BASE, keyCost, Growth(kid), KidGrowth(name, count, kid));
    }
    if !built.Done? {
      r := built.PropagateFailure();
      return;
    }
    LaterTransitive(data0, data1, builder.data, keyCost, Growth(kid));
  }

  predicate KidBuildable(name: seq<byte>, count: nat, kid: Node) {
    KeyFits(name) && count < MAX_SUBKEYS && Buildable(kid)
  }

  function KidGrowth(name: seq<byte>, count: nat, kid: Node): nat {
    KeyGrowth(name) + SubkeyListGrowth(count + 1) + Growth(kid)
  }

  /** Builds the values and then, one after the other, the subkeys of `node` below `parent`. */
  method BuildKeyRecursive(builder: HiveBuilder, parent: KeyHandle, node: Node) returns (r: Outcome<()>)
    requires builder.Valid() && parent.offset in builder.keys && StringNames(node)
    requires builder.keys[parent.offset].values == [] && builder.keys[parent.offset].subkeys == []
    modifies builder`data, builder`bins, builder`cells, builder`keys, builder`vals
    ensures r.Done? ==>
      && builder.Valid() && GrownBelow(old(builder.keys), old(builder.vals), builder.keys, builder.vals, parent.offset)
      && TreeAt(builder.keys, builder.vals, parent.offset, old(builder.keys)[parent.offset].name, node,
                {parent.offset} + (builder.keys.Keys - old(builder.keys).Keys))
      && Later(old(builder.data), builder.data, Growth(node))
    ensures r.Done? ==> Buildable(node)
    ensures r.NeverReturns? ==> !Buildable(node)
    ensures r.TooLarge? ==> !RoomFor(|old(builder.data)| - BASE, Growth(node))
    decreases node, 0
  {
    hide HeapOk, Records, NoLeak, Graph, BaseFields, ValuesAre, GrownBelow, RoomFor, KidsMade, ValuesBuildable, Kept,
         SameBase, SubkeyCreated, TreeAt, KidsGrowth, NameHash, SortByHash, ValuesGrowth, KidGrowth, KidBuildable;
    ghost var p, keys0, vals0, data0 := parent.offset, builder.keys, builder.vals, builder.data;
    BaseLength(builder.data, builder.bins, builder.cells, builder.rootKeyOffset, builder.sequenceNumber);
    r := BuildValues(builder, parent, node.values);
    if r.TooLarge? {
      NoRoomForAll(|data0| - BASE, |data0| - BASE, 0, ValuesGrowth(Kept(node.values)), Growth(node));
    }
    if !r.Done? {
      return;
    }
    ghost var keys1, vals1, data1 := builder.keys, builder.vals, builder.data;
    ghost var made: seq<Item> := [];
    ghost var valuesCost := ValuesGrowth(Kept(node.values));
    NoKidsYet(keys1, vals1, data1, p, node);
    for i := 0 to |node.subkeys|
      invariant builder.Valid() && p in builder.keys && |made| == i
      invariant KidsMade(keys1, builder.keys, builder.vals, p, node, made)
      invariant GrownBelow(keys1, vals1, builder.keys, builder.vals, p)
      invariant Later(data1, builder.data, KidsGrowth(node, i))
      invariant KidsBuildable(node, i)
    {
      ghost var keysA, valsA, dataA := builder.keys, builder.vals, builder.data;
      var kid := node.subkeys[i];
      BaseLength(dataA, builder.bins, builder.cells, builder.rootKeyOffset, builder.sequenceNumber);
      MadeCount(keys1, keysA, valsA, p, node, made);
      KidsStep(node, i);
      ghost var cost := KidGrowth(kid.name, i, kid.node);
      var child;
      ghost var mid;
      child, mid := BuildSubkey(builder, parent, kid.name, kid.node);
      if child.TooLarge? {
        NoRoomForAll(|data0| - BASE, |dataA| - BASE, valuesCost + KidsGrowth(node, i), cost, Growth(node));
      }
      if !child.Done? {
        r := child.PropagateFailure();
        return;
      }
      KidStep(keys1, vals1, keysA, valsA, mid, builder.keys, builder.vals, p, child.value.offset, node, made);
      made := made + [Item(child.value.offset, NameHash(kid.name))];
      LaterTransitive(data1, dataA, builder.data, KidsGrowth(node, i), cost);
    }
    KidsDone(keys1, vals1, builder.keys, builder.vals, p, node, made);
    GrownBelowTransitive(keys0, vals0, keys1, vals1, builder.keys, builder.vals, p);
    GrownKeepsName(keys0, vals0, builder.keys, builder.vals, p);
    LaterTransitive(data0, data1, builder.data, valuesCost, KidsGrowth(node, |node.subkeys|));
    r := Done(());
  }

  lemma KidsStep(node: Node, i: nat)
    requires i < |node.subkeys| && KidsBuildable(node, i)
    ensures var kid := node.subkeys[i];
      && KidsGrowth(node, i + 1) == KidsGrowth(node, i) + KidGrowth(kid.name, i, kid.node)
      && KidsGrowth(node, i + 1) <= KidsGrowth(node, |node.subkeys|)
      && (if KidBuildable(kid.name, i, kid.node) then KidsBuildable(node, i + 1) else !Buildable(node))
  {
    hide KeyGrowth, SubkeyListGrowth, KeyFits, Growth, ValuesBuildable, Buildable;
    KidsGrowthMonotone(node, i + 1, |node.subkeys|);
    if Buildable(node) {
      KidMatters(node, i);
    }
  }

  lemma KidMatters(node: Node, i: nat)
    requires i < |node.subkeys| && Buildable(node)
    ensures KidBuildable(node.subkeys[i].name, i, node.subkeys[i].node)
  {
    hide KeyFits, ValuesBuildable;
  }

  lemma NoKidsYet(keys: Keys, vals: Vals, data: seq<byte>, p: u32, node: Node)
    requires p in keys && keys[p].subkeys == [] && |data| >= BASE
    ensures KidsMade(keys, keys, vals, p, node, []) && GrownBelow(keys, vals, keys, vals, p)
    ensures Later(data, data, 0) && KidsGrowth(node, 0) == 0
  {
    assert SortByHash([]) == [];
  }

  lemma MadeCount(keys1: Keys, keys: Keys, vals: Vals, p: u32, node: Node, made: seq<Item>)
    requires KidsMade(keys1, keys, vals, p, node, made)
    ensures p in keys && |keys[p].subkeys| == |made|
  {
  }

  lemma CreatedEmpty(keys: Keys, keys': Keys, p: u32, c: u32, name: seq<byte>)
    requires SubkeyCreated(keys, keys', p, c, name) && p in keys
    ensures c in keys' && keys'[c].values == [] && keys'[c].subkeys == [] && keys'[c].name == name
  {
  }

  lemma GrownKeepsName(keys: Keys, vals: Vals, keys': Keys, vals': Vals, p: u32)
    requires GrownBelow(keys, vals, keys', vals', p)
    ensures p in keys && p in keys' && keys'[p].name == keys[p].name
  {
  }

  // ------------------------------------------------------------------ decoding

  /** Reading the value list item yields the name, the type and the data of `named`. */
  ghost predicate DecodesValue(h: seq<byte>, item: R.Read<R.KeyValue>, named: NamedValue) {
    && item.Ok? && item.value.In(h)
    && NameIs(R.ValueName(h, item.value), named.name)
    && R.DataType(h, item.value) == Ok(named.value.valueType)
    && R.Data(h, item.value) == Ok(R.Small(named.value.data))
  }

  ghost predicate DecodesValues(h: seq<byte>, list: Option<R.Read<R.Range>>, kept: seq<NamedValue>)
    requires list.Some? && list.value.Ok? ==> list.value.value.In(h)
  {
    if kept == [] then list == None
    else
      && list.Some? && list.value.Ok?
      && var items := R.ValueItems(h, list.value.value);
         && |items| == |kept|
         && forall i {:trigger DecodesValue(h, items[i], kept[i])} ::
           0 <= i < |kept| ==> DecodesValue(h, items[i], kept[i])
  }

  /**
   Walking from `item` yields `name`, the values that were kept in their order, and below it the subkeys
   in the order of their name hashes, each decoding to its own subtree, and nothing else.
   */
  ghost predicate Decodes(h: seq<byte>, item: R.Read<R.KeyNode>, name: seq<byte>, node: Node)
    decreases node, 2
  {
    && item.Ok? && item.value.In(h)
    && NameIs(R.KeyName(h, item.value), name)
    && DecodesValues(h, R.ValueListOf(h, item.value), Kept(node.values))
    && DecodesSubkeys(h, R.SubkeyListOf(h, item.value), node)
  }

  ghost predicate DecodesSubkeys(h: seq<byte>, list: Option<R.Read<R.LeafOrRoot>>, node: Node)
    requires list.Some? && list.value.Ok? ==> list.value.value.items.In(h)
    decreases node, 1
  {
    if node.subkeys == [] then list == None
    else
      && list.Some? && list.value.Ok?
      && var items, order := R.ListItems(h, list.value.value), Order(NameHashes(node.subkeys));
         && |items| == |order|
         && forall i {:trigger order[i]} :: 0 <= i < |order| ==> DecodesChild(h, items[i], node, order[i])
  }

  ghost predicate DecodesChild(h: seq<byte>, item: R.Read<R.KeyNode>, node: Node, j: nat)
    requires j < |node.subkeys|
    decreases node, 0
  {
    Decodes(h, item, node.subkeys[j].name, node.subkeys[j].node)
  }

  /** Reading the item yields the name of the value, and its type and data as they are stored. */
  ghost predicate ValueReads(h: seq<byte>, item: R.Read<R.KeyValue>, named: NamedValue) {
    && item.Ok? && item.value.In(h) && NameIs(R.ValueName(h, item.value), named.name)
    && R.DataType(h, item.value).Ok? && R.Data(h, item.value).Ok? && R.Data(h, item.value).value.Small?
    && StoredAs(named.value, R.DataType(h, item.value).value, R.Data(h, item.value).value.bytes)
  }

  /** The value list of a key holds the values that are stored, in their order, and nothing else. */
  ghost predicate ValuesRead(h: seq<byte>, list: Option<R.Read<R.Range>>, values: seq<NamedValue>) {
    exists at :: ValuesReadAt(h, list, values, at)
  }

  ghost predicate ValuesReadAt(h: seq<byte>, list: Option<R.Read<R.Range>>, values: seq<NamedValue>, at: seq<nat>) {
    && Positions(values, at)
    && if at == [] then list == None
       else
         && list.Some? && list.value.Ok? && list.value.value.In(h)
         && |R.ValueItems(h, list.value.value)| == |at|
         && forall q {:trigger at[q]} :: 0 <= q < |at| ==>
              ValueReads(h, R.ValueItems(h, list.value.value)[q], values[at[q]])
  }

  /** Reading a key yields its name, its values, and its subkeys, in whatever order, and nothing else. */
  ghost predicate ReadsBack(h: seq<byte>, item: R.Read<R.KeyNode>, name: seq<byte>, node: Node)
    decreases node, 1
  {
    && item.Ok? && item.value.In(h) && NameIs(R.KeyName(h, item.value), name)
    && ValuesRead(h, R.ValueListOf(h, item.value), node.values)
    && var list := R.SubkeyListOf(h, item.value);
    if node.subkeys == [] then list == None
    else
      && list.Some? && list.value.Ok? && |R.ListItems(h, list.value.value)| == |node.subkeys|
      && forall j {:trigger ChildReads(h, R.ListItems(h, list.value.value), node, j)} ::
           0 <= j < |node.subkeys| ==> ChildReads(h, R.ListItems(h, list.value.value), node, j)
  }

  ghost predicate ChildReads(h: seq<byte>, items: seq<R.Read<R.KeyNode>>, node: Node, j: nat)
    requires j < |node.subkeys|
    decreases node, 0
  {
    exists q {:trigger items[q]} ::
      0 <= q < |items| && ReadsBack(h, items[q], node.subkeys[j].name, node.subkeys[j].node)
  }

  lemma ValuesDecoded(h: seq<byte>, list: Option<R.Read<R.Range>>, values: seq<NamedValue>)
    requires list.Some? && list.value.Ok? ==> list.value.value.In(h)
    requires DecodesValues(h, list, Kept(values))
    ensures ValuesRead(h, list, values)
  {
    hide Kept, R.ValueItems, StoredAs, Storable;
    var at := KeptAre(values);
    if at != [] {
      var items := R.ValueItems(h, list.value.value);
      forall q {:trigger at[q]} | 0 <= q < |at| ensures ValueReads(h, items[q], values[at[q]]) {
        assert DecodesValue(h, items[q], Kept(values)[q]);
      }
    }
    assert ValuesReadAt(h, list, values, at);
  }

  /** A tree that decodes reads back: every value that is stored with its type and data, and no other one. */
  lemma {:induction false} DecodedReadsBack(h: seq<byte>, item: R.Read<R.KeyNode>, name: seq<byte>, node: Node)
    requires Decodes(h, item, name, node)
    ensures ReadsBack(h, item, name, node)
    decreases node
  {
    hide Kept, R.ValueItems, R.ListItems, R.ValueListOf, R.SubkeyListOf, R.KeyName, NameIs, Order, NameHashes,
         ValuesRead, DecodesValues;
    ValuesDecoded(h, R.ValueListOf(h, item.value), node.values);
    if node.subkeys != [] {
      var items, order := R.ListItems(h, R.SubkeyListOf(h, item.value).value.value), Order(NameHashes(node.subkeys));
      forall j {:trigger ChildReads(h, items, node, j)} | 0 <= j < |node.subkeys|
        ensures ChildReads(h, items, node, j)
      {
        var q := OrderHits(NameHashes(node.subkeys), j);
        assert DecodesChild(h, items[q], node, order[q]);
        DecodedReadsBack(h, items[q], node.subkeys[j].name, node.subkeys[j].node);
      }
    }
  }

  /** No stored value is longer than one segment of big data. */
  ghost predicate SmallData(node: Node)
    decreases node, 2
  {
    SmallValues(Kept(node.values)) && SmallChildren(node)
  }

  ghost predicate SmallValues(kept: seq<NamedValue>) {
    forall i :: 0 <= i < |kept| ==> |kept[i].value.data| <= R.SEGMENT_SIZE
  }

  ghost predicate SmallChildren(node: Node)
    decreases node, 1
  {
    forall j {:trigger SmallChild(node, j)} :: 0 <= j < |node.subkeys| ==> SmallChild(node, j)
  }

  ghost predicate SmallChild(node: Node, j: nat)
    requires j < |node.subkeys|
    decreases node, 0
  {
    SmallData(node.subkeys[j].node)
  }

  /** Every name below the key is one that comes back. */
  ghost predicate PlainNames(node: Node)
    decreases node, 2
  {
    PlainKept(Kept(node.values)) && PlainChildren(node)
  }

  ghost predicate PlainChildren(node: Node)
    decreases node, 1
  {
    forall j {:trigger PlainChild(node, j)} :: 0 <= j < |node.subkeys| ==> PlainChild(node, j)
  }

  ghost predicate PlainKept(kept: seq<NamedValue>) {
    forall i :: 0 <= i < |kept| ==> PlainValue(kept[i].name)
  }

  ghost predicate PlainChild(node: Node, j: nat)
    requires j < |node.subkeys|
    decreases node, 0
  {
    Plain(node.subkeys[j].name) && PlainNames(node.subkeys[j].node)
  }

  /** The tree can be read back: every name comes back, its own as well, and every stored value is small. */
  ghost predicate Readable(name: seq<byte>, node: Node)
    decreases node, 2
  {
    Plain(name) && ReadableValues(Kept(node.values)) && ReadableChildren(node)
  }

  predicate ReadableValue(named: NamedValue) {
    PlainValue(named.name) && |named.value.data| <= R.SEGMENT_SIZE
  }

  ghost predicate ReadableValues(kept: seq<NamedValue>) {
    forall i :: 0 <= i < |kept| ==> ReadableValue(kept[i])
  }

  ghost predicate ReadableChildren(node: Node)
    decreases node, 1
  {
    forall j {:trigger ReadableChild(node, j)} :: 0 <= j < |node.subkeys| ==> ReadableChild(node, j)
  }

  ghost predicate ReadableChild(node: Node, j: nat)
    requires j < |node.subkeys|
    decreases node, 0
  {
    Readable(node.subkeys[j].name, node.subkeys[j].node)
  }

  /** Readable trees are those with plain names and small data throughout. */
  lemma {:induction false} ReadableIff(name: seq<byte>, node: Node)
    ensures Readable(name, node) <==> Plain(name) && PlainNames(node) && SmallData(node)
    decreases node
  {
    hide Kept;
    forall j {:trigger ReadableChild(node, j)} {:trigger SmallChild(node, j)} {:trigger PlainChild(node, j)}
      | 0 <= j < |node.subkeys|
      ensures ReadableChild(node, j) <==> PlainChild(node, j) && SmallChild(node, j)
    {
      ReadableIff(node.subkeys[j].name, node.subkeys[j].node);
    }
    KeptReadableIff(Kept(node.values));
    ChildrenReadableIff(node);
  }

  lemma ChildrenReadableIff(node: Node)
    requires forall j {:trigger ReadableChild(node, j)} {:trigger PlainChild(node, j)} {:trigger SmallChild(node, j)} ::
      0 <= j < |node.subkeys| ==> (ReadableChild(node, j) <==> PlainChild(node, j) && SmallChild(node, j))
    ensures ReadableChildren(node) <==> PlainChildren(node) && SmallChildren(node)
  {
    hide ReadableChild, PlainChild, SmallChild;
    if ReadableChildren(node) {
      forall j {:trigger PlainChild(node, j)} {:trigger SmallChild(node, j)} | 0 <= j < |node.subkeys|
        ensures PlainChild(node, j) && SmallChild(node, j)
      {
        assert ReadableChild(node, j);
      }
    }
  }

  lemma KeptReadableIff(kept: seq<NamedValue>)
    ensures ReadableValues(kept) <==> PlainKept(kept) && SmallValues(kept)
  {
    if ReadableValues(kept) {
      forall i | 0 <= i < |kept| ensures PlainValue(kept[i].name) && |kept[i].value.data| <= R.SEGMENT_SIZE {
        assert ReadableValue(kept[i]);
      }
    }
  }

  /** Everything the parser can see of a finished hive, key by key and value by value. */
  ghost predicate AllSeen(h: seq<byte>, keys: Keys, vals: Vals) {
    && (forall k {:trigger KeySeen(h, k, keys[k])} :: k in keys ==> KeySeen(h, k, keys[k]))
    && (forall v {:trigger ValueSeenAs(h, vals, v)} :: v in vals ==> ValueSeenAs(h, vals, v))
  }

  ghost predicate ValueSeenAs(h: seq<byte>, vals: Vals, v: u32)
    requires v in vals
  {
    && ValueSeen(h, v, vals[v].name, vals[v].typ)
    && (R.Data(h, R.KeyValueAt(h, v).value) == Ok(R.Small(vals[v].data)) <==> |vals[v].data| <= R.SEGMENT_SIZE)
  }

  lemma HiveIsSeen(bytes: seq<byte>, bins: Bins, cells: Cells, keys: Keys, vals: Vals)
    requires HeapOk(bytes, bins, cells) && Records(cells, keys, vals)
    ensures |bytes| >= BASE && AllSeen(bytes[BASE..], keys, vals)
  {
    hide HeapOk, KeySeen, ValueSeen, R.Data, R.KeyValueAt;
    HeapLength(bytes, bins, cells);
    var h := bytes[BASE..];
    forall k {:trigger KeySeen(h, k, keys[k])} | k in keys
      ensures KeySeen(h, k, keys[k])
    {
      assert KeyOk(cells, keys, k);
      KeyIsSeen(bytes, bins, cells, keys, k);
    }
    forall v {:trigger ValueSeenAs(h, vals, v)} | v in vals
      ensures ValueSeenAs(h, vals, v)
    {
      assert ValOk(cells, vals, v);
      ValueIsSeen(bytes, bins, cells, vals, v);
    }
  }

  lemma HeapLength(bytes: seq<byte>, bins: Bins, cells: Cells)
    requires HeapOk(bytes, bins, cells)
    ensures |bytes| >= BASE
  {
  }

  /** A value of the builder decodes to what was stored, exactly if it is readable. */
  lemma ValueDecodes(h: seq<byte>, vals: Vals, v: u32, named: NamedValue)
    requires ValueIs(vals, v, named) && ValueSeenAs(h, vals, v) && named.value.valueType <= 11 && Utf8(named.name)
    ensures DecodesValue(h, R.KeyValueAt(h, v), named) <==> ReadableValue(named)
  {
    hide R.Data, R.KeyValueAt, R.ValueName, R.DataType, Utf8, NameIs, ValueNameOf, PlainValue;
    ValueNameBack(named.name);
  }

  lemma ValuesDecode(h: seq<byte>, keys: Keys, vals: Vals, k: u32, node: R.KeyNode, values: seq<NamedValue>)
    requires AllSeen(h, keys, vals) && k in keys && node.In(h)
    requires ValuesSeen(h, node, keys[k].values) && ValuesAre(vals, keys[k].values, Kept(values))
    requires forall i :: 0 <= i < |Kept(values)| ==> Utf8(Kept(values)[i].name)
    ensures DecodesValues(h, R.ValueListOf(h, node), Kept(values)) <==> ReadableValues(Kept(values))
  {
    hide R.Data, R.KeyValueAt, R.ValueName, R.DataType, R.ValueListOf, R.ValueItems, Kept, DecodesValue, KeySeen;
    var kept := Kept(values);
    if kept != [] {
      var items := R.ValueItems(h, R.ValueListOf(h, node).value.value);
      forall i | 0 <= i < |kept|
        ensures DecodesValue(h, items[i], kept[i]) <==> ReadableValue(kept[i])
      {
        assert ValueIs(vals, keys[k].values[i], kept[i]);
        assert ValueSeenAs(h, vals, keys[k].values[i]);
        ValueDecodes(h, vals, keys[k].values[i], kept[i]);
      }
    }
  }

  lemma {:induction false} KeptStrings(values: seq<NamedValue>)
    requires forall i :: 0 <= i < |values| ==> Utf8(values[i].name)
    ensures forall i :: 0 <= i < |Kept(values)| ==> Utf8(Kept(values)[i].name)
  {
    hide Utf8;
    if values == [] {
    } else {
      KeptStrings(values[..|values| - 1]);
    }
  }

  /** A tree in the builder decodes to the tree it was built from, exactly if it is readable. */
  lemma {:induction false} TreeDecodes(h: seq<byte>, keys: Keys, vals: Vals, k: u32, name: seq<byte>, node: Node,
                                       own: set<u32>)
    requires AllSeen(h, keys, vals) && TreeAt(keys, vals, k, name, node, own) && Utf8(name) && StringNames(node)
    ensures Decodes(h, R.KeyNodeAt(h, k), name, node) <==> Readable(name, node)
    decreases node, 1
  {
    hide R.KeyNodeAt, R.KeyName, R.ValueListOf, R.SubkeyListOf, Order, NameHashes, Kept, ReadableValues,
         ReadableChildren, DecodesValues, DecodesSubkeys, SubkeysSeen, ValuesSeen, ValuesAre, Utf8, NameIs, Plain,
         Stored;
    assert KeySeen(h, k, keys[k]);
    KeyNameBack(name);
    var item := R.KeyNodeAt(h, k).value;
    KeptStrings(node.values);
    ValuesDecode(h, keys, vals, k, item, node.values);
    SubkeysDecode(h, keys, vals, k, item, node, own);
  }

  lemma SubkeysDecode(h: seq<byte>, keys: Keys, vals: Vals, k: u32, item: R.KeyNode, node: Node, own: set<u32>)
    requires AllSeen(h, keys, vals) && k in keys && item.In(h) && SubkeysSeen(h, item, keys[k].subkeys)
    requires TreeAt(keys, vals, k, keys[k].name, node, own) && StringNames(node)
    ensures DecodesSubkeys(h, R.SubkeyListOf(h, item), node) <==> ReadableChildren(node)
    decreases node, 0
  {
    hide R.KeyNodeAt, R.SubkeyListOf, R.ListItems, Order, NameHashes, Kept, ValuesAre, Utf8, KeySeen, ValueSeenAs,
         DecodesChild, ReadableChild;
    if node.subkeys != [] {
      var order, items := Order(NameHashes(node.subkeys)), R.ListItems(h, R.SubkeyListOf(h, item).value.value);
      forall i {:trigger order[i]} | 0 <= i < |order|
        ensures DecodesChild(h, items[i], node, order[i]) <==> ReadableChild(node, order[i])
      {
        assert items[i] == R.KeyNodeAt(h, keys[k].subkeys[i].key);
        assert ChildAt(keys, vals, k, node, own, order, i);
        ChildDecodes(h, keys, vals, keys[k].subkeys[i].key, node, order[i], own);
      }
      AllOrNone(node, order);
    }
  }

  lemma ChildDecodes(h: seq<byte>, keys: Keys, vals: Vals, k: u32, node: Node, j: nat, own: set<u32>)
    requires j < |node.subkeys| && AllSeen(h, keys, vals) && StringNames(node)
    requires TreeAt(keys, vals, k, node.subkeys[j].name, node.subkeys[j].node, own)
    ensures DecodesChild(h, R.KeyNodeAt(h, k), node, j) <==> ReadableChild(node, j)
    decreases node.subkeys[j].node, 2
  {
    hide R.KeyNodeAt, Decodes, Readable, TreeAt, AllSeen, Utf8;
    TreeDecodes(h, keys, vals, k, node.subkeys[j].name, node.subkeys[j].node, own);
  }

  /** Every subkey has its place in the order, so a property of all places is one of all subkeys. */
  lemma AllOrNone(node: Node, order: seq<nat>)
    requires order == Order(NameHashes(node.subkeys))
    ensures (forall i {:trigger order[i]} :: 0 <= i < |order| ==> ReadableChild(node, order[i]))
      <==> ReadableChildren(node)
  {
    hide NameHashes, ReadableChild, Order;
    if forall i {:trigger order[i]} :: 0 <= i < |order| ==> ReadableChild(node, order[i]) {
      forall j {:trigger ReadableChild(node, j)} | 0 <= j < |node.subkeys|
        ensures ReadableChild(node, j)
      {
        var i := OrderHits(NameHashes(node.subkeys), j);
      }
    }
  }

  function Repeated(n: nat, b: byte): (s: seq<byte>)
    ensures |s| == n && forall i :: 0 <= i < n ==> s[i] == b
  {
    seq(n, _ => b)
  }

  /** A tree with one empty subkey. */
  function Lone(name: seq<byte>): Node {
    Node([], [NamedNode(name, Node([], []))])
  }

  /** A tree with one value, named `a`. */
  function Valued(value: RegValue): Node {
    Node([NamedValue([0x61], value)], [])
  }

  /** A tree with one empty subkey can be built whenever the subkey's name fits. */
  lemma LoneBuildable(root: seq<byte>, name: seq<byte>)
    requires |root| <= 1000 && |name| <= 0x1_0000 && Utf8(name) && KeyFits(name)
    ensures StringNames(Lone(name)) && Buildable(Lone(name)) && SmallData(Lone(name))
    ensures PlainNames(Lone(name)) <==> Plain(name)
    ensures KeyFits(root) && RoomFor(BIN_SIZE, KeyGrowth(root) + Growth(Lone(name)))
  {
    hide Utf8, Plain;
    var child := Node([], []);
    var node := Node([], [NamedNode(name, child)]);
    assert Kept([]) == [];
    assert Buildable(child) && StringNames(child) && SmallData(child) && PlainNames(child);
    assert SmallChild(node, 0);
    assert PlainNames(node) <==> PlainChild(node, 0);
    assert Growth(child) == 0;
    assert KidsGrowth(node, 1) == KeyGrowth(name) + SubkeyListGrowth(1);
  }

  lemma LettersValid(n: nat)
    ensures Utf8(Repeated(n, 0x61))
  {
    hide Repeated, Utf8;
    AsciiUnits(Repeated(n, 0x61));
  }

  /** A subkey named by 65536 letters can be built, but its length field says 0: the tree does not come back. */
  lemma LongNameLost(root: seq<byte>)
    requires |root| <= 1000
    ensures var node := Lone(Repeated(0x1_0000, 0x61));
      && StringNames(node) && Buildable(node) && SmallData(node) && !PlainNames(node)
      && KeyFits(root) && RoomFor(BIN_SIZE, KeyGrowth(root) + Growth(node))
  {
    hide Repeated, Utf8, Ascii, Lone, StringNames, Buildable, SmallData, PlainNames, KeyGrowth, Growth, RoomFor;
    var name := Repeated(0x1_0000, 0x61);
    LettersValid(0x1_0000);
    LoneBuildable(root, name);
  }

  /** The two bytes of one letter with an accent, U+00E9. */
  const ACCENT: seq<byte> := [0xC3, 0xA9]

  /** A subkey named by one letter with an accent can be built, but it is read as two letters. */
  lemma AccentLost(root: seq<byte>)
    requires |root| <= 1000
    ensures var node := Lone(ACCENT);
      && StringNames(node) && Buildable(node) && SmallData(node) && !PlainNames(node)
      && KeyFits(root) && RoomFor(BIN_SIZE, KeyGrowth(root) + Growth(node))
  {
    hide Lone, StringNames, Buildable, SmallData, PlainNames, KeyGrowth, Growth;
    LoneBuildable(root, ACCENT);
  }

  /** A value of 16345 bytes can be built, but not read back in one piece. */
  lemma LongDataLost(root: seq<byte>)
    requires |root| <= 1000
    ensures var node := Valued(RegValue(REG_BINARY, Repeated(R.SEGMENT_SIZE + 1, 0)));
      && StringNames(node) && Buildable(node) && PlainNames(node) && !SmallData(node)
      && KeyFits(root) && RoomFor(BIN_SIZE, KeyGrowth(root) + Growth(node))
  {
    hide Repeated;
    var value := NamedValue([0x61], RegValue(REG_BINARY, Repeated(R.SEGMENT_SIZE + 1, 0)));
    var node := Node([value], []);
    assert [value][..0] == [];
    assert Kept([]) == [];
    assert Kept([value]) == [value];
    assert ValuesGrowth([]) == 0;
    assert ValuesGrowth([value]) == ValueGrowth([0x61], value.value.data) + ValueListGrowth(1);
    assert KidsGrowth(node, 0) == 0;
  }

  /**
   Builds the hive of a whole tree. If 32-bit offsets suffice, the call returns exactly for the buildable
   trees; the bytes are accepted by the parser, and walking them decodes exactly the tree, if and only if
   no stored value is longer than 16344 bytes and all names are ASCII and shorter than 65536 bytes; value
   names may also be U+BFEB.
   */
  method BuildHive(hiveRoot: seq<byte>, root: Node) returns (r: Outcome<seq<byte>>)
    requires Utf8(hiveRoot) && StringNames(root)
    ensures r.Done? ==> R.HiveNew(r.value).Ok?
    ensures r.Done? ==>
      (Decodes(R.HiveNew(r.value).value, R.RootKeyNode(r.value), hiveRoot, root) <==>
        SmallData(root) && PlainNames(root) && Plain(hiveRoot))
    ensures r.Done? && SmallData(root) && PlainNames(root) && Plain(hiveRoot) ==>
      ReadsBack(R.HiveNew(r.value).value, R.RootKeyNode(r.value), hiveRoot, root)
    ensures r.Done? ==> KeyFits(hiveRoot) && Buildable(root)
    ensures r.NeverReturns? ==> !(KeyFits(hiveRoot) && Buildable(root))
    ensures RoomFor(BIN_SIZE, KeyGrowth(hiveRoot) + Growth(root)) ==>
      (r.Done? <==> KeyFits(hiveRoot) && Buildable(root))
  {
    hide HeapOk, Records, NoLeak, Graph, BaseFields, GrownBelow, SameBase, TreeAt, KeyGrowth, Growth, KeyFits,
         Buildable, Decodes, Readable, SmallData, PlainNames, Plain, AllSeen, R.HiveNew, R.RootKeyNode, R.KeyNodeAt,
         R.Checksum, Get32, Utf8;
    var made := HiveBuilder.New(hiveRoot);
    if !made.Done? {
      return made.PropagateFailure();
    }
    var builder := made.value;
    var rootKey := KeyHandle(builder.rootKeyOffset);
    ghost var keys0 := builder.keys;
    var built := BuildKeyRecursive(builder, rootKey, root);
    if !built.Done? {
      return built.PropagateFailure();
    }
    var bytes := builder.Build();
    BuiltHiveAccepted(bytes, builder.bins, builder.cells, builder.rootKeyOffset, builder.sequenceNumber);
    HiveIsSeen(bytes, builder.bins, builder.cells, builder.keys, builder.vals);
    TreeDecodes(bytes[BASE..], builder.keys, builder.vals, rootKey.offset, hiveRoot, root,
                {rootKey.offset} + (builder.keys.Keys - keys0.Keys));
    ReadableIff(hiveRoot, root);
    if SmallData(root) && PlainNames(root) && Plain(hiveRoot) {
      DecodedReadsBack(bytes[BASE..], R.RootKeyNode(bytes), hiveRoot, root);
    }
    return Done(bytes);
  }

  /** The trees of `LongNameLost`, `AccentLost` and `LongDataLost` are built, accepted, and do not decode. */
  method BuildLost(hiveRoot: seq<byte>) returns (longName: seq<byte>, accent: seq<byte>, longData: seq<byte>)
    requires Utf8(hiveRoot) && |hiveRoot| <= 1000
    ensures R.HiveNew(longName).Ok? && R.HiveNew(accent).Ok? && R.HiveNew(longData).Ok?
    ensures !Decodes(R.HiveNew(longName).value, R.RootKeyNode(longName), hiveRoot, Lone(Repeated(0x1_0000, 0x61)))
    ensures !Decodes(R.HiveNew(accent).value, R.RootKeyNode(accent), hiveRoot, Lone(ACCENT))
    ensures !Decodes(R.HiveNew(longData).value, R.RootKeyNode(longData), hiveRoot,
                     Valued(RegValue(REG_BINARY, Repeated(R.SEGMENT_SIZE + 1, 0))))
  {
    hide Decodes, StringNames, Buildable, SmallData, PlainNames, KeyFits, KeyGrowth, Growth, Repeated, Lone, Valued,
         R.HiveNew, R.RootKeyNode, Utf8;
    LongNameLost(hiveRoot);
    AccentLost(hiveRoot);
    LongDataLost(hiveRoot);
    var first := BuildHive(hiveRoot, Lone(Repeated(0x1_0000, 0x61)));
    var second := BuildHive(hiveRoot, Lone(ACCENT));
    var third := BuildHive(hiveRoot, Valued(RegValue(REG_BINARY, Repeated(R.SEGMENT_SIZE + 1, 0))));
    return first.value, second.value, third.value;
  }
}
