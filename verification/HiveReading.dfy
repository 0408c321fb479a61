/**
 The hive parser: `Hive`, `KeyNode`, `KeyValue` and their lists, read from the bytes after the
 base block. Functions are the pure reads; the iterators are classes, proved against the
 sequences of items they produce.
 */
module HiveReading {
  import opened Wrappers
  import opened Bytes

  const BASE_SIZE: nat := 4096
  const NO_OFFSET: u32 := 0xFFFF_FFFF
  const NODE_HEADER: nat := 76
  const VALUE_RECORD: nat := 20
  const SEGMENT_SIZE: nat := 16344
  const STORED_IN_OFFSET: u32 := 0x8000_0000

  datatype HiveError =
    | InvalidHeaderSize | UnallocatedCell | InvalidSizeFieldAlignment | InvalidSizeField | InvalidDataSize
    | InvalidTwoByteSignature | InvalidFourByteSignature | SequenceNumberMismatch | UnsupportedVersion
    | UnsupportedFileType | UnsupportedFileFormat | UnsupportedClusteringFactor | InvalidChecksum
    | UnsupportedKeyValueDataType | InvalidKeyValueDataType
    | Panicked

  type Read<+T> = Result<T, HiveError>

  datatype Range = Range(start: nat, end: nat) {
    predicate In(data: seq<byte>) {
      start <= end <= |data|
    }
  }

  /** The first `count` bytes of a range. */
  function ByteSubrange(r: Range, count: nat): Option<Range> {
    if r.start + count > r.end then None else Some(Range(r.start, r.start + count))
  }

  /** The data of the allocated cell at `offset`. */
  function CellRange(data: seq<byte>, offset: u32): (r: Read<Range>)
    ensures r.Ok? ==> r.value.In(data)
  {
    if offset == NO_OFFSET then Err(Panicked)
    else match ByteSubrange(Range(offset, |data|), 4)
      case None => Err(InvalidHeaderSize)
      case Some(header) =>
        var size: int := GetI32(data, header.start);
        if size > 0 then Err(UnallocatedCell)
        else if -size % 8 != 0 then Err(InvalidSizeFieldAlignment)
        else if -size < 4 then Err(Panicked)
        else match ByteSubrange(Range(header.end, |data|), -size - 4)
          case None => Err(InvalidSizeField)
          case Some(r) => Ok(r)
  }

  // ------------------------------------------------------------------ key nodes

  datatype HiveString = Latin1(bytes: seq<byte>) | Utf16LE(bytes: seq<byte>)

  datatype KeyNode = KeyNode(header: Range, body: Range) {
    predicate In(data: seq<byte>) {
      header.In(data) && body.In(data) && header.end == header.start + NODE_HEADER
    }
  }

  function KeyNodeFromRange(data: seq<byte>, cell: Range): (r: Read<KeyNode>)
    requires cell.In(data)
    ensures r.Ok? ==> r.value.In(data)
  {
    match ByteSubrange(cell, NODE_HEADER)
    case None => Err(InvalidHeaderSize)
    case Some(header) =>
      if data[header.start..header.start + 2] == [0x6E, 0x6B] then Ok(KeyNode(header, Range(header.end, cell.end)))
      else Err(InvalidTwoByteSignature)
  }

  function KeyNodeAt(data: seq<byte>, offset: u32): (r: Read<KeyNode>)
    ensures r.Ok? ==> r.value.In(data)
  {
    match CellRange(data, offset)
    case Err(e) => Err(e)
    case Ok(cell) => KeyNodeFromRange(data, cell)
  }

  /** Bit 5 of the flags: the name is stored with one byte for each character. */
  predicate CompressedKey(flags: u16) {
    flags / 0x20 % 2 == 1
  }

  function KeyName(data: seq<byte>, node: KeyNode): Read<HiveString>
    requires node.In(data)
  {
    match ByteSubrange(node.body, Get16(data, node.header.start + 72))
    case None => Err(InvalidSizeField)
    case Some(name) =>
      var bytes := data[name.start..name.end];
      Ok(if CompressedKey(Get16(data, node.header.start + 2)) then Latin1(bytes) else Utf16LE(bytes))
  }

  // ------------------------------------------------------------------ subkey lists

  datatype ListType = IndexLeaf | FastLeaf | HashLeaf | IndexRoot {
    function ItemSize(): nat {
      if FastLeaf? || HashLeaf? then 8 else 4
    }
  }

  function ListTypeOf(signature: seq<byte>): Option<ListType> {
    if signature == [0x6C, 0x69] then Some(IndexLeaf)
    else if signature == [0x6C, 0x66] then Some(FastLeaf)
    else if signature == [0x6C, 0x68] then Some(HashLeaf)
    else if signature == [0x72, 0x69] then Some(IndexRoot)
    else None
  }

  /** A subkey list of any type: its type and the range of its items. */
  datatype LeafOrRoot = SubkeyItems(listType: ListType, items: Range)

  /** The header of a subkey list: its type and the number of its items. */
  function ListHeader(data: seq<byte>, cell: Range): Read<(ListType, u16)>
    requires cell.In(data)
  {
    match ByteSubrange(cell, 4)
    case None => Err(InvalidHeaderSize)
    case Some(header) =>
      match ListTypeOf(data[header.start..header.start + 2])
      case None => Err(InvalidTwoByteSignature)
      case Some(listType) => Ok((listType, Get16(data, header.start + 2)))
  }

  /** The items behind the header of a list. */
  function ListRange(data: seq<byte>, cell: Range, header: (ListType, u16)): (r: Read<LeafOrRoot>)
    requires cell.In(data) && cell.start + 4 <= cell.end
    ensures r.Ok? ==> r.value.items.In(data) && r.value.listType == header.0
  {
    match ByteSubrange(Range(cell.start + 4, cell.end), header.1 * header.0.ItemSize())
    case None => Err(InvalidSizeField)
    case Some(items) => Ok(SubkeyItems(header.0, items))
  }

  function SubkeyListFromRange(data: seq<byte>, cell: Range): (r: Read<LeafOrRoot>)
    requires cell.In(data)
    ensures r.Ok? ==> r.value.items.In(data)
  {
    match ListHeader(data, cell)
    case Err(e) => Err(e)
    case Ok(header) => ListRange(data, cell, header)
  }

  /** All items of a leaf, each the key node its offset leads to or the error met there. */
  ghost function LeafItems(data: seq<byte>, items: Range, itemSize: nat): (r: seq<Read<KeyNode>>)
    requires items.In(data) && itemSize >= 4
    ensures forall i :: 0 <= i < |r| && r[i].Ok? ==> r[i].value.In(data)
    decreases items.end - items.start
  {
    if items.start + itemSize > items.end then []
    else [KeyNodeAt(data, Get32(data, items.start))] + LeafItems(data, Range(items.start + itemSize, items.end),
                                                                 itemSize)
  }

  /** The leaf an index root item leads to; an index root may not hold another one. */
  function LeafAt(data: seq<byte>, offset: u32): (r: Read<LeafOrRoot>)
    ensures r.Ok? ==> r.value.items.In(data) && !r.value.listType.IndexRoot?
  {
    match CellRange(data, offset)
    case Err(e) => Err(e)
    case Ok(cell) =>
      match ListHeader(data, cell)
      case Err(e) => Err(e)
      case Ok(header) =>
        if header.0.IndexRoot? then Err(InvalidTwoByteSignature) else ListRange(data, cell, header)
  }

  /** All items below an index root: the leaves one after the other, an error for each bad leaf. */
  ghost function IndexRootItems(data: seq<byte>, items: Range): (r: seq<Read<KeyNode>>)
    requires items.In(data)
    ensures forall i :: 0 <= i < |r| && r[i].Ok? ==> r[i].value.In(data)
    decreases items.end - items.start
  {
    if items.start + 4 > items.end then []
    else
      var rest := IndexRootItems(data, Range(items.start + 4, items.end));
      match LeafAt(data, Get32(data, items.start))
      case Err(e) => [Err(e)] + rest
      case Ok(leaf) => LeafItems(data, leaf.items, leaf.listType.ItemSize()) + rest
  }

  ghost function ListItems(data: seq<byte>, list: LeafOrRoot): (r: seq<Read<KeyNode>>)
    requires list.items.In(data)
    ensures forall i :: 0 <= i < |r| && r[i].Ok? ==> r[i].value.In(data)
  {
    if list.listType.IndexRoot? then IndexRootItems(data, list.items)
    else LeafItems(data, list.items, list.listType.ItemSize())
  }

  function SubkeyListOf(data: seq<byte>, node: KeyNode): (r: Option<Read<LeafOrRoot>>)
    requires node.In(data)
    ensures r.Some? && r.value.Ok? ==> r.value.value.items.In(data)
  {
    var offset := Get32(data, node.header.start + 28);
    if offset == NO_OFFSET then None
    else match CellRange(data, offset)
      case Err(e) => Some(Err(e))
      case Ok(cell) => Some(SubkeyListFromRange(data, cell))
  }

  // ------------------------------------------------------------------ key values

  datatype KeyValue = KeyValue(header: Range, body: Range) {
    predicate In(data: seq<byte>) {
      header.In(data) && body.In(data) && header.end == header.start + VALUE_RECORD
    }
  }

  function KeyValueAt(data: seq<byte>, offset: u32): (r: Read<KeyValue>)
    ensures r.Ok? ==> r.value.In(data)
  {
    match CellRange(data, offset)
    case Err(e) => Err(e)
    case Ok(cell) =>
      match ByteSubrange(cell, VALUE_RECORD)
      case None => Err(InvalidHeaderSize)
      case Some(header) =>
        if data[header.start..header.start + 2] == [0x76, 0x6B] then Ok(KeyValue(header, Range(header.end, cell.end)))
        else Err(InvalidTwoByteSignature)
  }

  /** All items of a value list. */
  ghost function ValueItems(data: seq<byte>, items: Range): (r: seq<Read<KeyValue>>)
    requires items.In(data)
    ensures forall i :: 0 <= i < |r| && r[i].Ok? ==> r[i].value.In(data)
    decreases items.end - items.start
  {
    if items.start + 4 > items.end then []
    else [KeyValueAt(data, Get32(data, items.start))] + ValueItems(data, Range(items.start + 4, items.end))
  }

  /** The range of the value list of a key. */
  function ValueListOf(data: seq<byte>, node: KeyNode): (r: Option<Read<Range>>)
    requires node.In(data)
    ensures r.Some? && r.value.Ok? ==> r.value.value.In(data)
  {
    var offset := Get32(data, node.header.start + 40);
    if offset == NO_OFFSET then None
    else match CellRange(data, offset)
      case Err(e) => Some(Err(e))
      case Ok(cell) =>
        match ByteSubrange(cell, Get32(data, node.header.start + 36) * 4)
        case None => Some(Err(InvalidSizeField))
        case Some(items) => Some(Ok(items))
  }

  function ValueName(data: seq<byte>, value: KeyValue): Read<HiveString>
    requires value.In(data)
  {
    var length := Get16(data, value.header.start + 2);
    if length == 0 then Ok(Latin1([]))
    else match ByteSubrange(value.body, length)
      case None => Err(InvalidSizeField)
      case Some(name) =>
        var bytes := data[name.start..name.end];
        Ok(if Get16(data, value.header.start + 16) % 2 == 1 then Latin1(bytes) else Utf16LE(bytes))
  }

  /** The twelve known data types are numbered 0 to 11. */
  function DataType(data: seq<byte>, value: KeyValue): Read<u32>
    requires value.In(data)
  {
    var code := Get32(data, value.header.start + 12);
    if code <= 11 then Ok(code) else Err(UnsupportedKeyValueDataType)
  }

  /** Data in one piece, or the segments of a big data record: their list and the bytes left. */
  datatype ValueData = Small(bytes: seq<byte>) | Big(segments: Range, bytesLeft: nat)

  function BigDataAt(data: seq<byte>, size: nat, cell: Range): (r: Read<ValueData>)
    requires cell.In(data)
    ensures r.Ok? ==> r.value.Big? && r.value.segments.In(data)
  {
    match ByteSubrange(cell, 8)
    case None => Err(InvalidHeaderSize)
    case Some(header) =>
      if data[header.start..header.start + 2] != [0x64, 0x62] then Err(InvalidTwoByteSignature)
      else
        var count := Get16(data, header.start + 2);
        if size > count * SEGMENT_SIZE then Err(InvalidSizeField)
        else match CellRange(data, Get32(data, header.start + 4))
          case Err(e) => Err(e)
          case Ok(list) =>
            match ByteSubrange(list, count * 4)
            case None => Err(InvalidSizeField)
            case Some(items) => Ok(Big(items, size))
  }

  function Data(data: seq<byte>, value: KeyValue): (r: Read<ValueData>)
    requires value.In(data)
  {
    var raw := Get32(data, value.header.start + 4);
    if raw >= STORED_IN_OFFSET then
      var size := raw - STORED_IN_OFFSET;
      if size > 4 then Err(InvalidSizeField)
      else Ok(Small(data[value.header.start + 8..value.header.start + 8 + size]))
    else match CellRange(data, Get32(data, value.header.start + 8))
      case Err(e) => Err(e)
      case Ok(cell) =>
        if raw <= SEGMENT_SIZE then
          if cell.end - cell.start < raw then Err(InvalidDataSize)
          else Ok(Small(data[cell.start..cell.start + raw]))
        else BigDataAt(data, raw, cell)
  }

  /** A number of four bytes, little-endian or big-endian by its type. */
  function DwordData(data: seq<byte>, value: KeyValue): Read<u32>
    requires value.In(data)
  {
    var bytes :- Data(data, value);
    if bytes.Big? || |bytes.bytes| != 4 then Err(InvalidDataSize)
    else
      var code :- DataType(data, value);
      if code == 4 then Ok(Get32(bytes.bytes, 0))
      else if code == 5 then
        Ok(Get32([bytes.bytes[3], bytes.bytes[2], bytes.bytes[1], bytes.bytes[0]], 0))
      else Err(InvalidKeyValueDataType)
  }

  /** A number of eight bytes. */
  function QwordData(data: seq<byte>, value: KeyValue): Read<u64>
    requires value.In(data)
  {
    var bytes :- Data(data, value);
    if bytes.Big? || |bytes.bytes| != 8 then Err(InvalidDataSize)
    else
      var code :- DataType(data, value);
      if code == 11 then Ok(Get64(bytes.bytes, 0)) else Err(InvalidKeyValueDataType)
  }

  // ------------------------------------------------------------------ what is accepted

  /** The two bytes at the start of a cell. */
  predicate Starts(data: seq<byte>, cell: Range, first: byte, second: byte)
    requires cell.In(data)
  {
    cell.start + 2 <= cell.end && data[cell.start] == first && data[cell.start + 1] == second
  }

  lemma StartsIff(data: seq<byte>, cell: Range, first: byte, second: byte)
    requires cell.In(data) && cell.start + 2 <= cell.end
    ensures data[cell.start..cell.start + 2] == [first, second] <==> Starts(data, cell, first, second)
  {
    var s := data[cell.start..cell.start + 2];
    assert s == [first, second] <==> s[0] == first && s[1] == second;
  }

  /** A key node is accepted exactly in a readable cell that holds its header and begins with `nk`. */
  lemma KeyNodeAtIff(data: seq<byte>, offset: u32, node: KeyNode)
    ensures KeyNodeAt(data, offset) == Ok(node) <==>
      CellRange(data, offset).Ok?
      && var cell := CellRange(data, offset).value;
      cell.start + NODE_HEADER <= cell.end && Starts(data, cell, 0x6E, 0x6B)
      && node.header == Range(cell.start, cell.start + NODE_HEADER)
      && node.body == Range(cell.start + NODE_HEADER, cell.end)
  {
    hide CellRange;
    if CellRange(data, offset).Ok? {
      var cell := CellRange(data, offset).value;
      if cell.start + 2 <= cell.end {
        StartsIff(data, cell, 0x6E, 0x6B);
      }
    }
  }

  /** A value is accepted exactly in a readable cell that holds its header and begins with `vk`. */
  lemma KeyValueAtIff(data: seq<byte>, offset: u32, value: KeyValue)
    ensures KeyValueAt(data, offset) == Ok(value) <==>
      CellRange(data, offset).Ok?
      && var cell := CellRange(data, offset).value;
      cell.start + VALUE_RECORD <= cell.end && Starts(data, cell, 0x76, 0x6B)
      && value.header == Range(cell.start, cell.start + VALUE_RECORD)
      && value.body == Range(cell.start + VALUE_RECORD, cell.end)
  {
    hide CellRange;
    if CellRange(data, offset).Ok? {
      var cell := CellRange(data, offset).value;
      if cell.start + 2 <= cell.end {
        StartsIff(data, cell, 0x76, 0x6B);
      }
    }
  }

  /** The two letters of a list type. */
  function Letters(listType: ListType): (byte, byte) {
    match listType
    case IndexLeaf => (0x6C, 0x69)
    case FastLeaf => (0x6C, 0x66)
    case HashLeaf => (0x6C, 0x68)
    case IndexRoot => (0x72, 0x69)
  }

  lemma HeaderIff(data: seq<byte>, cell: Range, header: (ListType, u16))
    requires cell.In(data)
    ensures ListHeader(data, cell) == Ok(header) <==>
      cell.start + 4 <= cell.end && Starts(data, cell, Letters(header.0).0, Letters(header.0).1)
      && header.1 == Get16(data, cell.start + 2)
  {
    hide Get16;
    if cell.start + 4 <= cell.end {
      StartsIff(data, cell, 0x6C, 0x69);
      StartsIff(data, cell, 0x6C, 0x66);
      StartsIff(data, cell, 0x6C, 0x68);
      StartsIff(data, cell, 0x72, 0x69);
    }
  }

  /** A list is accepted exactly if its type is known and its cell holds all the items it announces. */
  lemma SubkeyListIff(data: seq<byte>, cell: Range, list: LeafOrRoot)
    requires cell.In(data)
    ensures SubkeyListFromRange(data, cell) == Ok(list) <==>
      cell.start + 4 <= cell.end && Starts(data, cell, Letters(list.listType).0, Letters(list.listType).1)
      && var size := if data[cell.start + 1] == 0x69 then 4 else 8;
      list.items == Range(cell.start + 4, cell.start + 4 + Get16(data, cell.start + 2) * size)
      && list.items.end <= cell.end
  {
    hide Get16, ListHeader;
    if cell.start + 4 <= cell.end {
      HeaderIff(data, cell, (list.listType, Get16(data, cell.start + 2)));
    }
    if ListHeader(data, cell).Ok? {
      HeaderIff(data, cell, ListHeader(data, cell).value);
    }
  }

  /** Below an index root a list is accepted exactly if it is a list there is, and no index root. */
  lemma LeafAtIff(data: seq<byte>, offset: u32, list: LeafOrRoot)
    ensures LeafAt(data, offset) == Ok(list) <==>
      CellRange(data, offset).Ok? && SubkeyListFromRange(data, CellRange(data, offset).value) == Ok(list)
      && !list.listType.IndexRoot?
  {
    hide CellRange, ListHeader;
  }

  /** An index root below an index root is the wrong signature, whatever it counts. */
  lemma NestedRootRejected(data: seq<byte>, offset: u32)
    requires CellRange(data, offset).Ok? && CellRange(data, offset).value.start + 4 <= CellRange(data, offset).value.end
    requires Starts(data, CellRange(data, offset).value, 0x72, 0x69)
    ensures LeafAt(data, offset) == Err(InvalidTwoByteSignature)
  {
    hide CellRange, Get16, ListRange;
    var cell := CellRange(data, offset).value;
    HeaderIff(data, cell, (IndexRoot, Get16(data, cell.start + 2)));
  }

  /** Big data is accepted exactly if it is marked, counts enough segments, and its list holds them all. */
  lemma BigDataAtIff(data: seq<byte>, size: nat, cell: Range, segments: Range)
    requires cell.In(data)
    ensures BigDataAt(data, size, cell) == Ok(Big(segments, size)) <==>
      cell.start + 8 <= cell.end && Starts(data, cell, 0x64, 0x62)
      && size <= Get16(data, cell.start + 2) * SEGMENT_SIZE
      && CellRange(data, Get32(data, cell.start + 4)).Ok?
      && var list := CellRange(data, Get32(data, cell.start + 4)).value;
      segments == Range(list.start, list.start + Get16(data, cell.start + 2) * 4) && segments.end <= list.end
  {
    hide CellRange, Get16, Get32;
    if cell.start + 8 <= cell.end {
      StartsIff(data, cell, 0x64, 0x62);
    }
  }

  // ------------------------------------------------------------------ the hive

  /** The exclusive or of the first `n` 32-bit words. */
  function XorWords(bytes: seq<byte>, n: nat): u32
    requires 4 * n <= |bytes|
  {
    if n == 0 then 0 else Xor32(XorWords(bytes, n - 1), Get32(bytes, 4 * (n - 1)))
  }

  /** The checksum of the first 508 bytes, with its two special cases. */
  function Checksum(bytes: seq<byte>): u32
    requires |bytes| >= 508
  {
    var x := XorWords(bytes, 127);
    if x == 0 then 1 else if x == 0xFFFF_FFFF then 0xFFFF_FFFE else x
  }

  /** The check of the stored checksum against the exclusive or of the 127 words before it. */
  method ValidateChecksum(bytes: seq<byte>) returns (valid: bool)
    requires |bytes| >= 512
    ensures valid <==> Get32(bytes, 508) == Checksum(bytes)
  {
    hide Xor32, Get32;
    var calculated: u32 := 0;
    for i := 0 to 127
      invariant calculated == XorWords(bytes, i)
    {
      calculated := Xor32(calculated, Get32(bytes, 4 * i));
    }
    if calculated == 0 {
      calculated := 1;
    } else if calculated == 0xFFFF_FFFF {
      calculated := 0xFFFF_FFFE;
    }
    valid := Get32(bytes, 508) == calculated;
  }

  lemma XorSelf(a: u32)
    ensures Xor32(a, a) == 0
  {
  }

  /**
   A checksum makes the exclusive or of all 128 words zero, itself included; the two words that would mean
   something else are stored as their neighbours.
   */
  lemma ChecksumCancels(bytes: seq<byte>)
    requires |bytes| >= 512 && Get32(bytes, 508) == Checksum(bytes)
    ensures Get32(bytes, 508) != 0 && Get32(bytes, 508) != 0xFFFF_FFFF
    ensures var x := XorWords(bytes, 127);
            if x == 0 then Get32(bytes, 508) == 1
            else if x == 0xFFFF_FFFF then Get32(bytes, 508) == 0xFFFF_FFFE
            else XorWords(bytes, 128) == 0
  {
    hide Get32, Xor32;
    XorSelf(XorWords(bytes, 127));
    assert XorWords(bytes, 128) == Xor32(XorWords(bytes, 127), Get32(bytes, 508));
  }

  /** The exclusive or begins with the first two words as they are. */
  lemma FirstWords(bytes: seq<byte>)
    requires |bytes| >= 8
    ensures XorWords(bytes, 2) == Xor32(Get32(bytes, 0), Get32(bytes, 4))
  {
    hide Get32, Xor32;
    XorZero(Get32(bytes, 0), Get32(bytes, 4));
    assert XorWords(bytes, 0) == 0;
    assert XorWords(bytes, 1) == Xor32(XorWords(bytes, 0), Get32(bytes, 0));
    assert XorWords(bytes, 2) == Xor32(XorWords(bytes, 1), Get32(bytes, 4));
  }

  lemma XorZero(a: u32, b: u32)
    ensures Xor32(Xor32(0, a), b) == Xor32(a, b)
  {
    BitsBack(0 ^ (a as bv32));
    BitsZero(a as bv32, b as bv32);
  }

  lemma BitsBack(b: bv32)
    ensures (b as int) as bv32 == b
  {
  }

  lemma BitsZero(a: bv32, b: bv32)
    ensures (0 ^ a) ^ b == a ^ b
  {
  }

  /** The validation steps of `Hive::new`, in their order. */
  function HiveNew(bytes: seq<byte>): (r: Read<seq<byte>>)
    ensures r.Ok? ==> |bytes| >= BASE_SIZE && r.value == bytes[BASE_SIZE..]
  {
    if |bytes| < BASE_SIZE then Err(InvalidHeaderSize)
    else if bytes[0..4] != [0x72, 0x65, 0x67, 0x66] then Err(InvalidFourByteSignature)
    else if Get32(bytes, 4) != Get32(bytes, 8) then Err(SequenceNumberMismatch)
    else if Get32(bytes, 20) != 1 || Get32(bytes, 24) < 3 then Err(UnsupportedVersion)
    else if Get32(bytes, 28) != 0 then Err(UnsupportedFileType)
    else if Get32(bytes, 32) != 1 then Err(UnsupportedFileFormat)
    else if Get32(bytes, 40) % 4096 != 0 then Err(InvalidSizeFieldAlignment)
    else if Get32(bytes, 40) > |bytes| - BASE_SIZE then Err(InvalidSizeField)
    else if Get32(bytes, 44) != 1 then Err(UnsupportedClusteringFactor)
    else if Get32(bytes, 508) != Checksum(bytes) then Err(InvalidChecksum)
    else Ok(bytes[BASE_SIZE..])
  }

  /**
   A base block is accepted exactly if it names the format, both sequence numbers agree, the data size is a
   number of whole bins within the file, and the stored checksum is that of the 508 bytes before it.
   */
  lemma AcceptedIff(bytes: seq<byte>)
    ensures HiveNew(bytes).Ok? <==>
      && |bytes| >= BASE_SIZE && bytes[0] == 0x72 && bytes[1] == 0x65 && bytes[2] == 0x67 && bytes[3] == 0x66
      && Get32(bytes, 4) == Get32(bytes, 8)
      && Get32(bytes, 20) == 1 && Get32(bytes, 24) >= 3
      && Get32(bytes, 28) == 0 && Get32(bytes, 32) == 1 && Get32(bytes, 44) == 1
      && (exists bins: nat :: Get32(bytes, 40) == 4096 * bins && BASE_SIZE + 4096 * bins <= |bytes|)
      && Get32(bytes, 508) == Checksum(bytes)
  {
    hide Checksum, Get32;
    if |bytes| >= BASE_SIZE {
      var magic := bytes[0..4];
      assert magic == [0x72, 0x65, 0x67, 0x66] <==>
        magic[0] == 0x72 && magic[1] == 0x65 && magic[2] == 0x67 && magic[3] == 0x66;
      if HiveNew(bytes).Ok? {
        assert Get32(bytes, 40) == 4096 * (Get32(bytes, 40) / 4096);
      }
    }
  }

  /** A cell is readable exactly if it is in use, its size is a multiple of 8, and it ends within the data. */
  lemma CellRangeIff(data: seq<byte>, offset: u32, size: nat)
    ensures CellRange(data, offset) == Ok(Range(offset + 4, offset + size)) <==>
      offset != NO_OFFSET && offset + 4 <= |data| && GetI32(data, offset) == -(size as int) && size % 8 == 0
        && 4 <= size && offset + size <= |data|
  {
    hide Get32, Signed32;
    if offset + 4 <= |data| {
      var stored: int := GetI32(data, offset);
      assert -(-stored) == stored;
    }
  }

  function RootKeyNode(bytes: seq<byte>): (r: Read<KeyNode>)
    requires |bytes| >= BASE_SIZE
    ensures r.Ok? ==> r.value.In(bytes[BASE_SIZE..])
  {
    KeyNodeAt(bytes[BASE_SIZE..], Get32(bytes, 36))
  }

  /** Reading a field as signed changes it by a multiple of 2^32 into the range of signed numbers. */
  lemma SignedIs(v: u32)
    ensures -0x8000_0000 <= Signed32(v) as int < 0x8000_0000
    ensures Signed32(v) as int == v as int || Signed32(v) as int == v as int - 0x1_0000_0000
  {
  }

  /** Four bytes of type 4 are a little-endian number, of type 5 a big-endian one, and no other type is a number. */
  lemma DwordIff(data: seq<byte>, value: KeyValue, number: u32)
    requires value.In(data)
    ensures DwordData(data, value) == Ok(number) <==>
      Data(data, value).Ok? && Data(data, value).value.Small? && |Data(data, value).value.bytes| == 4
      && var b, code := Data(data, value).value.bytes, Get32(data, value.header.start + 12);
      (code == 4 && number == Little(b)) || (code == 5 && number == Little([b[3], b[2], b[1], b[0]]))
  {
    hide Data, Get32;
    if Data(data, value).Ok? && Data(data, value).value.Small? && |Data(data, value).value.bytes| == 4 {
      var b := Data(data, value).value.bytes;
      ReadsLittle(b, 0);
      ReadsLittle([b[3], b[2], b[1], b[0]], 0);
      assert b[0..4] == b && [b[3], b[2], b[1], b[0]][0..4] == [b[3], b[2], b[1], b[0]];
    }
  }

  /** Eight bytes of type 11 are a little-endian number. */
  lemma QwordIff(data: seq<byte>, value: KeyValue, number: u64)
    requires value.In(data)
    ensures QwordData(data, value) == Ok(number) <==>
      Data(data, value).Ok? && Data(data, value).value.Small? && |Data(data, value).value.bytes| == 8
      && Get32(data, value.header.start + 12) == 11 && number == Little(Data(data, value).value.bytes)
  {
    hide Data, Get32, Get64;
    if Data(data, value).Ok? && Data(data, value).value.Small? && |Data(data, value).value.bytes| == 8 {
      var b := Data(data, value).value.bytes;
      ReadsLittle(b, 0);
      assert b[0..8] == b;
    }
  }
}
