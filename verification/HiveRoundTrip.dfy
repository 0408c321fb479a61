/** The parser reads back what the builder wrote: cells, keys, values and lists. */
module HiveRoundTrip {
  import opened Wrappers
  import opened Bytes
  import opened Strings
  import opened HiveHeap
  import opened HiveOrder
  import opened HiveRecords
  import opened HiveBuilding
  import opened HiveReading
  import opened HiveStrings

  // ------------------------------------------------------------------ names

  /** A name of ASCII characters that fits its 16-bit length field. */
  predicate Plain(name: seq<byte>) {
    Ascii(name) && |name| < 0x1_0000
  }

  /** Value names have one exception more: see `OwnPairs`. */
  predicate PlainValue(name: seq<byte>) {
    Plain(name) || name == BFEB
  }

  /** The name that the 16-bit length field of a record leaves readable. */
  function Stored(name: seq<byte>): seq<byte> {
    name[..|name| % 0x1_0000]
  }

  /** How the name of a value reads: the flag for one byte per character is set for ASCII names only. */
  function ValueNameOf(name: seq<byte>): HiveString {
    if Ascii(name) || Stored(name) == [] then Latin1(Stored(name)) else Utf16LE(Stored(name))
  }

  /** What is read is the name. */
  predicate NameIs(read: Read<HiveString>, name: seq<byte>) {
    read.Ok? && Units(read.value) == Utf16(name)
  }

  /** Key names are always marked as one byte per character, so they come back exactly if they are plain. */
  lemma KeyNameBack(name: seq<byte>)
    requires Utf8(name)
    ensures NameIs(Ok(Latin1(Stored(name))), name) <==> Plain(name)
  {
    hide Utf8, Utf16;
    Latin1Back(name);
  }

  /** Value names come back exactly if they are plain, or the one exception. */
  lemma ValueNameBack(name: seq<byte>)
    requires Utf8(name)
    ensures NameIs(Ok(ValueNameOf(name)), name) <==> PlainValue(name)
  {
    hide Utf8, Utf16;
    if Ascii(name) {
      Latin1Back(name);
    } else {
      PairsBack(name);
    }
  }

  // ------------------------------------------------------------------ cells

  /** The cell at `c` is in use and its data is `p`. */
  ghost predicate Holds(h: seq<byte>, c: u32, p: seq<byte>) {
    && c + 4 + |p| <= |h| && h[c + 4..c + 4 + |p|] == p
    && c != NO_OFFSET && CellRange(h, c) == Ok(Range(c + 4, c + 4 + |p|))
  }

  /** `CellRange` accepts exactly the cells in use, and yields their payload. */
  lemma CellReads(bytes: seq<byte>, bins: Bins, cells: Cells, c: u32)
    requires HeapOk(bytes, bins, cells) && c in cells
    ensures |bytes| >= BASE && 8 <= cells[c].size && |cells[c].payload| == cells[c].size - 4
    ensures !cells[c].tag.Free? ==> Holds(bytes[BASE..], c, cells[c].payload)
    ensures cells[c].tag.Free? ==> CellRange(bytes[BASE..], c) == Err(UnallocatedCell)
  {
    var h, cell := bytes[BASE..], cells[c];
    var len := |bytes| - BASE;
    assert CellShape(bins, cells, c) && CellImage(bytes, c, cell) && CellAligned(cells, c);
    assert BinShape(bins, cells, len, cell.bin);
    assert Shape(bins, cells, len);
    assert c + cell.size <= len && len <= MAX_DATA;
    assert GetI32(h, c) == GetI32(bytes, BASE + c);
    assert h[c + 4..c + cell.size] == bytes[BASE + c + 4..BASE + c + cell.size];
  }

  lemma Field(h: seq<byte>, c: u32, p: seq<byte>, at: nat)
    requires Holds(h, c, p)
    ensures at + 4 <= |p| ==> Get32(h, c + 4 + at) == Get32(p, at)
    ensures at + 2 <= |p| ==> Get16(h, c + 4 + at) == Get16(p, at)
  {
    assert forall j :: 0 <= j < |p| ==> h[c + 4 + j] == p[j];
  }

  lemma Slice(h: seq<byte>, c: u32, p: seq<byte>, lo: nat, hi: nat)
    requires Holds(h, c, p) && lo <= hi <= |p|
    ensures h[c + 4 + lo..c + 4 + hi] == p[lo..hi]
  {
    SliceOfSlice(h, c + 4, c + 4 + |p|, lo, hi);
  }

  // ------------------------------------------------------------------ keys

  /** The key node of the key at `k` with payload `p`. */
  function NodeAt(k: u32, p: seq<byte>): KeyNode
    requires KEY_HEADER <= |p|
  {
    KeyNode(Range(k + 4, k + 4 + KEY_HEADER), Range(k + 4 + KEY_HEADER, k + 4 + |p|))
  }

  /** The name that the length field leaves of the bytes behind the header. */
  lemma StoredName(p: seq<byte>, header: nat, name: seq<byte>)
    requires header + |name| <= |p| && p[header..header + |name|] == name
    ensures header + |name| % 0x1_0000 <= |p|
    ensures p[header..header + |name| % 0x1_0000] == Stored(name)
  {
    var n := |name| % 0x1_0000;
    assert n <= |name|;
    assert p[header..header + n] == p[header..header + |name|][..n];
  }

  lemma KeyPayloadReads(h: seq<byte>, k: u32, p: seq<byte>, r: KeyRec)
    requires Holds(h, k, p) && KeyFields(p, r)
    ensures KEY_HEADER <= |p| && NodeAt(k, p).In(h)
    ensures KeyNodeAt(h, k) == Ok(NodeAt(k, p))
    ensures CompressedKey(r.flags) ==> KeyName(h, NodeAt(k, p)) == Ok(Latin1(Stored(r.name)))
    ensures Get32(h, k + 4 + 28) == r.subList && Get32(h, k + 4 + 40) == r.valList
    ensures Get32(h, k + 4 + 36) == |r.values|
  {
    hide Get32, Get16, CellRange, CompressedKey;
    Slice(h, k, p, 0, 2);
    Field(h, k, p, 2);
    Field(h, k, p, 28);
    Field(h, k, p, 36);
    Field(h, k, p, 40);
    Field(h, k, p, 72);
    StoredName(p, KEY_HEADER, r.name);
    Slice(h, k, p, KEY_HEADER, KEY_HEADER + |r.name| % 0x1_0000);
  }

  // ------------------------------------------------------------------ lists

  lemma {:induction false} LeafItemsAt(data: seq<byte>, items: Range, itemSize: nat, n: nat, i: nat)
    requires items.In(data) && itemSize >= 4 && items.end == items.start + n * itemSize
    ensures |LeafItems(data, items, itemSize)| == n
    ensures i < n ==>
      && items.start + i * itemSize + 4 <= |data|
      && LeafItems(data, items, itemSize)[i] == KeyNodeAt(data, Get32(data, items.start + i * itemSize))
    decreases n
  {
    hide Get32, KeyNodeAt;
    if n == 0 {
    } else {
      var rest := Range(items.start + itemSize, items.end);
      assert n * itemSize == itemSize + (n - 1) * itemSize;
      LeafItemsAt(data, rest, itemSize, n - 1, if i == 0 then 0 else i - 1);
      if i > 0 {
        assert itemSize + (i - 1) * itemSize == i * itemSize;
      }
    }
  }

  lemma {:induction false} ValueItemsAt(data: seq<byte>, items: Range, n: nat, i: nat)
    requires items.In(data) && items.end == items.start + n * 4
    ensures |ValueItems(data, items)| == n
    ensures i < n ==> ValueItems(data, items)[i] == KeyValueAt(data, Get32(data, items.start + i * 4))
    decreases n
  {
    hide Get32, KeyValueAt;
    if n == 0 {
    } else {
      ValueItemsAt(data, Range(items.start + 4, items.end), n - 1, if i == 0 then 0 else i - 1);
    }
  }

  /** A hash leaf reads back as its items, in their order. */
  lemma SubkeyListReads(h: seq<byte>, l: u32, p: seq<byte>, items: seq<Item>)
    requires Holds(h, l, p) && SubkeyListFields(p, items)
    ensures var range := Range(l + 8, l + 8 + 8 * |items|);
      && range.In(h)
      && SubkeyListFromRange(h, Range(l + 4, l + 4 + |p|)) == Ok(SubkeyItems(HashLeaf, range))
      && |LeafItems(h, range, 8)| == |items|
      && forall i {:trigger items[i]} :: 0 <= i < |items| ==>
           LeafItems(h, range, 8)[i] == KeyNodeAt(h, items[i].key)
  {
    hide Get32, Get16, KeyNodeAt, CellRange;
    Slice(h, l, p, 0, 2);
    Field(h, l, p, 2);
    var range := Range(l + 8, l + 8 + 8 * |items|);
    LeafItemsAt(h, range, 8, |items|, 0);
    forall i {:trigger items[i]} | 0 <= i < |items|
      ensures LeafItems(h, range, 8)[i] == KeyNodeAt(h, items[i].key)
    {
      assert SubkeyItem(p, items, i);
      Field(h, l, p, LIST_HEADER + 8 * i);
      LeafItemsAt(h, range, 8, |items|, i);
    }
  }

  lemma ValueListReads(h: seq<byte>, l: u32, p: seq<byte>, offsets: seq<u32>)
    requires Holds(h, l, p) && ValueListFields(p, offsets)
    ensures 4 * |offsets| <= |p|
    ensures var range := Range(l + 4, l + 4 + 4 * |offsets|);
      && range.In(h)
      && |ValueItems(h, range)| == |offsets|
      && forall i {:trigger offsets[i]} :: 0 <= i < |offsets| ==> ValueItems(h, range)[i] == KeyValueAt(h, offsets[i])
  {
    hide Get32, KeyValueAt, CellRange;
    var range := Range(l + 4, l + 4 + 4 * |offsets|);
    ValueItemsAt(h, range, |offsets|, 0);
    forall i {:trigger offsets[i]} | 0 <= i < |offsets|
      ensures ValueItems(h, range)[i] == KeyValueAt(h, offsets[i])
    {
      assert ValueItem(p, offsets, i);
      Field(h, l, p, 4 * i);
      ValueItemsAt(h, range, |offsets|, i);
    }
  }

  /** What a walk sees at one key: its name, its subkeys in list order, its values in list order. */
  ghost predicate KeySeen(h: seq<byte>, k: u32, r: KeyRec) {
    && KeyNodeAt(h, k).Ok?
    && var node := KeyNodeAt(h, k).value;
    && KeyName(h, node) == Ok(Latin1(Stored(r.name)))
    && SubkeysSeen(h, node, r.subkeys)
    && ValuesSeen(h, node, r.values)
  }

  ghost predicate SubkeysSeen(h: seq<byte>, node: KeyNode, items: seq<Item>)
    requires node.In(h)
  {
    var list := SubkeyListOf(h, node);
    if items == [] then list == None
    else
      && list.Some? && list.value.Ok? && |ListItems(h, list.value.value)| == |items|
      && forall i {:trigger items[i]} :: 0 <= i < |items| ==>
           ListItems(h, list.value.value)[i] == KeyNodeAt(h, items[i].key)
  }

  ghost predicate ValuesSeen(h: seq<byte>, node: KeyNode, offsets: seq<u32>)
    requires node.In(h)
  {
    var list := ValueListOf(h, node);
    if offsets == [] then list == None
    else
      && list.Some? && list.value.Ok? && |ValueItems(h, list.value.value)| == |offsets|
      && forall i {:trigger offsets[i]} :: 0 <= i < |offsets| ==>
           ValueItems(h, list.value.value)[i] == KeyValueAt(h, offsets[i])
  }

  lemma SubkeysAreSeen(h: seq<byte>, k: u32, p: seq<byte>, r: KeyRec, l: seq<byte>)
    requires Holds(h, k, p) && KeyFields(p, r) && NodeAt(k, p).In(h)
    requires if r.subkeys == [] then r.subList == NONE else Holds(h, r.subList, l) && SubkeyListFields(l, r.subkeys)
    ensures SubkeysSeen(h, NodeAt(k, p), r.subkeys)
  {
    hide KeyFields, Get32, SubkeyListFields, CellRange, LeafItems;
    KeyPayloadReads(h, k, p, r);
    if r.subkeys != [] {
      SubkeyListReads(h, r.subList, l, r.subkeys);
    }
  }

  lemma ValuesAreSeen(h: seq<byte>, k: u32, p: seq<byte>, r: KeyRec, l: seq<byte>)
    requires Holds(h, k, p) && KeyFields(p, r) && NodeAt(k, p).In(h)
    requires if r.values == [] then r.valList == NONE else Holds(h, r.valList, l) && ValueListFields(l, r.values)
    ensures ValuesSeen(h, NodeAt(k, p), r.values)
  {
    hide KeyFields, Get32, ValueListFields, CellRange, ValueItems;
    KeyPayloadReads(h, k, p, r);
    if r.values != [] {
      ValueListReads(h, r.valList, l, r.values);
    }
  }

  /** Every key the builder made is seen as it was made; its name comes back exactly if it is plain. */
  lemma KeyIsSeen(bytes: seq<byte>, bins: Bins, cells: Cells, keys: Keys, k: u32)
    requires HeapOk(bytes, bins, cells) && k in keys && KeyOk(cells, keys, k)
    ensures |bytes| >= BASE && KeySeen(bytes[BASE..], k, keys[k])
    ensures Utf8(keys[k].name) ==>
      (NameIs(KeyName(bytes[BASE..], KeyNodeAt(bytes[BASE..], k).value), keys[k].name) <==> Plain(keys[k].name))
  {
    hide HeapOk, KeyFields, Get32, SubkeyListFields, ValueListFields, Holds, SubkeysSeen, ValuesSeen,
         KeyName, KeyNodeAt, NameIs, Plain, Utf8, Stored;
    CellReads(bytes, bins, cells, k);
    var h, r, p := bytes[BASE..], keys[k], cells[k].payload;
    KeyPayloadReads(h, k, p, r);
    if Utf8(r.name) {
      KeyNameBack(r.name);
    }
    if r.subkeys != [] {
      CellReads(bytes, bins, cells, r.subList);
    }
    SubkeysAreSeen(h, k, p, r, if r.subkeys == [] then [] else cells[r.subList].payload);
    if r.values != [] {
      CellReads(bytes, bins, cells, r.valList);
    }
    ValuesAreSeen(h, k, p, r, if r.values == [] then [] else cells[r.valList].payload);
  }

  // ------------------------------------------------------------------ values

  function ValueRecordAt(v: u32, p: seq<byte>): KeyValue
    requires VALUE_HEADER <= |p|
  {
    KeyValue(Range(v + 4, v + 4 + VALUE_HEADER), Range(v + 4 + VALUE_HEADER, v + 4 + |p|))
  }

  lemma ValuePayloadReads(h: seq<byte>, v: u32, p: seq<byte>, r: ValRec)
    requires Holds(h, v, p) && ValueFields(p, r)
    ensures VALUE_HEADER <= |p|
    ensures var value := ValueRecordAt(v, p);
      && value.In(h) && KeyValueAt(h, v) == Ok(value)
      && ValueName(h, value) == Ok(ValueNameOf(r.name))
      && DataType(h, value) == (if r.typ <= 11 then Ok(r.typ) else Err(UnsupportedKeyValueDataType))
  {
    hide Get32, Get16, CellRange;
    Slice(h, v, p, 0, 2);
    Field(h, v, p, 2);
    Field(h, v, p, 12);
    Field(h, v, p, 16);
    StoredName(p, VALUE_HEADER, r.name);
    Slice(h, v, p, VALUE_HEADER, VALUE_HEADER + |r.name| % 0x1_0000);
  }

  lemma DataPayloadReads(h: seq<byte>, v: u32, p: seq<byte>, r: ValRec)
    requires Holds(h, v, p) && ValueFields(p, r)
    ensures v + 4 + VALUE_HEADER <= |h| && |r.data| < STORED_IN_OFFSET
    ensures Get32(h, v + 8) == (if |r.data| <= 4 then |r.data| + STORED_IN_OFFSET else |r.data|)
    ensures |r.data| <= 4 ==> h[v + 12..v + 12 + |r.data|] == r.data
    ensures |r.data| > 4 ==> Get32(h, v + 12) == r.dataCell
  {
    hide Get32, Get16, CellRange;
    Field(h, v, p, 4);
    Field(h, v, p, 8);
    if |r.data| <= 4 {
      Slice(h, v, p, 8, 8 + |r.data|);
    }
  }

  /** Reading the data of a value: inline, from its cell, or as the start of a big data record. */
  lemma DataOutcome(h: seq<byte>, v: u32, p: seq<byte>, r: ValRec, d: seq<byte>)
    requires Holds(h, v, p) && ValueFields(p, r)
    requires |r.data| > 4 ==> Holds(h, r.dataCell, d) && |r.data| <= |d| && d[..|r.data|] == r.data
    ensures VALUE_HEADER <= |p| && ValueRecordAt(v, p).In(h)
    ensures Data(h, ValueRecordAt(v, p)) ==
      if |r.data| <= SEGMENT_SIZE then Ok(Small(r.data))
      else BigDataAt(h, |r.data|, Range(r.dataCell + 4, r.dataCell + 4 + |d|))
  {
    hide Get32, CellRange, ValueFields, BigDataAt;
    ValuePayloadReads(h, v, p, r);
    DataPayloadReads(h, v, p, r);
    if |r.data| > 4 {
      Slice(h, r.dataCell, d, 0, |r.data|);
    }
  }

  /** What a walk sees at one value. */
  ghost predicate ValueSeen(h: seq<byte>, v: u32, name: seq<byte>, typ: u32) {
    && KeyValueAt(h, v).Ok?
    && var value := KeyValueAt(h, v).value;
    && ValueName(h, value) == Ok(ValueNameOf(name))
    && DataType(h, value) == if typ <= 11 then Ok(typ) else Err(UnsupportedKeyValueDataType)
  }

  /**
   Every value the builder made is seen with its type. Its name comes back if and only if it is plain or
   the one exception, and its data in one piece if and only if it has at most 16344 bytes. Longer data is
   stored without the record the parser expects, so unless it happens to begin with `db` reading it is an error.
   */
  lemma ValueIsSeen(bytes: seq<byte>, bins: Bins, cells: Cells, vals: Vals, v: u32)
    requires HeapOk(bytes, bins, cells) && v in vals && ValOk(cells, vals, v)
    ensures |bytes| >= BASE && ValueSeen(bytes[BASE..], v, vals[v].name, vals[v].typ)
    ensures Utf8(vals[v].name) ==>
      (NameIs(ValueName(bytes[BASE..], KeyValueAt(bytes[BASE..], v).value), vals[v].name) <==> PlainValue(vals[v].name))
    ensures var data := Data(bytes[BASE..], KeyValueAt(bytes[BASE..], v).value);
      && (data == Ok(Small(vals[v].data)) <==> |vals[v].data| <= SEGMENT_SIZE)
      && (|vals[v].data| > SEGMENT_SIZE && vals[v].data[..2] != [0x64, 0x62] ==> data == Err(InvalidTwoByteSignature))
  {
    hide HeapOk, Get32, ValueFields, CellRange, ValueName, DataType, Data, NameIs, PlainValue, ValueNameOf, Utf8;
    CellReads(bytes, bins, cells, v);
    var h, r, p := bytes[BASE..], vals[v], cells[v].payload;
    ValuePayloadReads(h, v, p, r);
    if Utf8(r.name) {
      ValueNameBack(r.name);
    }
    if |r.data| > 4 {
      CellReads(bytes, bins, cells, r.dataCell);
      var d := cells[r.dataCell].payload;
      DataOutcome(h, v, p, r, d);
      Slice(h, r.dataCell, d, 0, 2);
      assert d[0..2] == d[..|r.data|][..2];
    } else {
      DataOutcome(h, v, p, r, []);
    }
  }

  /** Numbers that were stored as numbers come back as numbers. */
  lemma NumbersComeBack(bytes: seq<byte>, bins: Bins, cells: Cells, vals: Vals, v: u32, dword: u32, qword: u64)
    requires HeapOk(bytes, bins, cells) && v in vals && ValOk(cells, vals, v)
    ensures |bytes| >= BASE && KeyValueAt(bytes[BASE..], v).Ok? && KeyValueAt(bytes[BASE..], v).value.In(bytes[BASE..])
    ensures vals[v].typ == 4 && vals[v].data == LE32(dword) ==>
      DwordData(bytes[BASE..], KeyValueAt(bytes[BASE..], v).value) == Ok(dword)
    ensures vals[v].typ == 11 && vals[v].data == LE64(qword) ==>
      QwordData(bytes[BASE..], KeyValueAt(bytes[BASE..], v).value) == Ok(qword)
  {
    hide HeapOk, ValOk, KeyValueAt, Data, DataType, LE32, LE64, Get32, Get64, ValueName;
    ValueIsSeen(bytes, bins, cells, vals, v);
    Get32OfLE(LE32(dword), 0, dword);
    Get64OfLE(LE64(qword), 0, qword);
  }

  // ------------------------------------------------------------------ the hive

  /** `Hive::new` accepts what `build` hands out, and the root key is where the builder put it. */
  lemma BuiltHiveAccepted(bytes: seq<byte>, bins: Bins, cells: Cells, root: u32, sequence: u32)
    requires HeapOk(bytes, bins, cells) && BaseFields(bytes, root, sequence)
    requires Get32(bytes, 508) == Checksum(bytes)
    ensures |bytes| >= BASE && HiveNew(bytes) == Ok(bytes[BASE..])
    ensures RootKeyNode(bytes) == KeyNodeAt(bytes[BASE..], root)
  {
    hide Checksum;
  }
}
