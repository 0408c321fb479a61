/** `HiveBuilder`: a registry hive under construction inside one growing byte vector. */
module HiveBuilding {
  import opened Wrappers
  import opened Bytes
  import opened Strings
  import opened HiveHeap
  import opened HiveOrder
  import opened HiveRecords
  import HiveReading

  /** The same base block, except that the data size field at 40 may differ. */
  ghost predicate SameBase(data: seq<byte>, data': seq<byte>) {
    && |data| >= BASE && |data'| >= BASE
    && forall j :: 0 <= j < BASE && !(40 <= j < 44) ==> data'[j] == data[j]
  }

  ghost predicate HeapOk(data: seq<byte>, bins: Bins, cells: Cells) {
    Sized(data, bins, cells) && SmallFree(cells)
  }

  /** From one buffer to a later one: the base block stays, the buffer grows by `growth` at most. */
  ghost predicate Later(data: seq<byte>, data': seq<byte>, growth: nat) {
    SameBase(data, data') && |data| <= |data'| <= |data| + growth
  }

  ghost predicate Sized(data: seq<byte>, bins: Bins, cells: Cells) {
    Heap(data, bins, cells) && Aligned(bins, cells, |data| - BASE) && Get32(data, 40) == |data| - BASE
  }

  ghost predicate Markable(data: seq<byte>, bins: Bins, cells: Cells, c: nat, required: nat, tag: Tag) {
    && Sized(data, bins, cells) && FreeFor(cells, c, required)
    && !tag.Free? && required >= 8 && required % 8 == 0
    && (cells[c].size == required || cells[c].size - required >= 8)
  }

  ghost predicate Marked(data: seq<byte>, cells: Cells, data': seq<byte>, bins: Bins, cells': Cells,
                         c: nat, required: nat, tag: Tag)
  {
    && Sized(data', bins, cells') && SameBase(data, data') && |data'| == |data|
    && FreeFor(cells, c, required) && required >= 8 && |cells[c].payload| == cells[c].size - CELL_HEADER
    && (cells[c].size == required || cells[c].size - required >= 8)
    && cells' == Take(cells, c, required, tag)
  }

  lemma MarkedByTake(data: seq<byte>, bins: Bins, cells: Cells, c: nat, required: nat, tag: Tag)
    requires Markable(data, bins, cells, c, required, tag)
    ensures BASE + c + cells[c].size <= |data| && cells[c].size < 0x8000_0000
    ensures |cells[c].payload| == cells[c].size - CELL_HEADER
    ensures Marked(data, cells, TakeBytes(data, c, cells[c].size, required), bins,
                   Take(cells, c, required, tag), c, required, tag)
  {
    TakeHeap(data, bins, cells, c, required, tag);
    TakeAligned(bins, cells, |data| - BASE, c, required, tag);
  }

  lemma SameBaseTransitive(a: seq<byte>, b: seq<byte>, c: seq<byte>)
    requires SameBase(a, b) && SameBase(b, c)
    ensures SameBase(a, c)
  {
  }

  /** What a scan reads at a bin. */
  lemma ScanBin(data: seq<byte>, bins: Bins, cells: Cells, b: nat)
    requires Sized(data, bins, cells) && b in bins
    ensures BASE + b + bins[b] <= |data| && bins[b] >= BIN_SIZE
    ensures data[BASE + b..BASE + b + 4] == HBIN && Get32(data, BASE + b + 8) == bins[b]
    ensures b + bins[b] in bins || BASE + b + bins[b] == |data|
    ensures b + BIN_HEADER in cells && cells[b + BIN_HEADER].bin == b
  {
    assert BinShape(bins, cells, |data| - BASE, b) && BinImage(data, b, bins[b]);
  }

  /** What a scan reads at a cell. */
  lemma ScanCell(data: seq<byte>, bins: Bins, cells: Cells, c: nat)
    requires Sized(data, bins, cells) && c in cells
    ensures cells[c].bin in bins && c + cells[c].size <= cells[c].bin + bins[cells[c].bin]
    ensures c < MAX_DATA && BASE + c + cells[c].size <= |data| && 8 <= cells[c].size < 0x8000_0000
    ensures GetI32(data, BASE + c) == if cells[c].tag.Free? then cells[c].size as int else -(cells[c].size as int)
    ensures c + cells[c].size == cells[c].bin + bins[cells[c].bin]
            || (c + cells[c].size in cells && cells[c + cells[c].size].bin == cells[c].bin)
  {
    assert CellShape(bins, cells, c) && CellImage(data, c, cells[c]);
  }

  lemma ScanRemainder(data: seq<byte>, bins: Bins, cells: Cells, c: nat, required: nat, tag: Tag)
    requires Sized(data, bins, cells) && FreeFor(cells, c, required)
    requires !tag.Free? && required >= 8 && required % 8 == 0
    ensures Markable(data, bins, cells, c, required, tag)
  {
    RemainderFits(bins, cells, |data| - BASE, c, required);
  }

  lemma ScanSkipsHeader(data: seq<byte>, bins: Bins, cells: Cells, b: nat, required: nat)
    requires Sized(data, bins, cells) && b in bins && NoneBelow(cells, required, b)
    ensures NoneBelow(cells, required, b + BIN_HEADER)
  {
    NoneBelowBin(bins, cells, |data| - BASE, b, required);
  }

  lemma ScanSkipsCell(data: seq<byte>, bins: Bins, cells: Cells, c: nat, required: nat)
    requires Sized(data, bins, cells) && c in cells
    requires NoneBelow(cells, required, c) && !FreeFor(cells, c, required)
    ensures NoneBelow(cells, required, c + cells[c].size)
  {
    NoneBelowStep(bins, cells, |data| - BASE, c, required);
  }

  lemma ScanEnds(data: seq<byte>, bins: Bins, cells: Cells, required: nat)
    requires Sized(data, bins, cells) && NoneBelow(cells, required, |data| - BASE)
    ensures NoneFits(cells, required)
  {
    NoneFitsAtEnd(bins, cells, |data| - BASE, required);
  }

  lemma ScanStarts(data: seq<byte>, bins: Bins, cells: Cells, required: nat)
    requires Sized(data, bins, cells)
    ensures |data| >= BASE && 0 in bins && |data| - BASE <= MAX_DATA && NoneBelow(cells, required, 0)
  {
  }

  /** The cell a scan stops at is the first fit. */
  lemma ScanFound(data: seq<byte>, bins: Bins, cells: Cells, c: nat, required: nat, tag: Tag,
                  data': seq<byte>, cells': Cells)
    requires |data| >= BASE && FreeFor(cells, c, required) && NoneBelow(cells, required, c)
    requires Marked(data, cells, data', bins, cells', c, required, tag)
    ensures Sized(data', bins, cells') && SameBase(data, data')
    ensures Allocation(bins, cells, |data| - BASE, bins, cells', |data'| - BASE, c, required, tag)
  {
  }

  /**
   An allocation that was made asked for a size that fits a bin; the heap stays well formed, gains exactly
   the one cell in use, and the file grows by at most the bin of that size.
   */
  lemma AllocationServes(data: seq<byte>, bins: Bins, cells: Cells, data': seq<byte>, bins': Bins, cells': Cells,
                         o: nat, required: nat, tag: Tag)
    requires HeapOk(data, bins, cells) && Sized(data', bins', cells') && SameBase(data, data')
    requires required > 0 && !tag.Free?
    requires Allocation(bins, cells, |data| - BASE, bins', cells', |data'| - BASE, o, required, tag)
    ensures HeapOk(data', bins', cells') && Later(data, data', NewBinSize(required))
    ensures Grown(cells, cells', o, required, tag)
    ensures FitsBin(required)
  {
    AllocationGrown(bins, cells, |data| - BASE, bins', cells', |data'| - BASE, o, required, tag);
    ServedIff(cells, required);
    FitsBinIff(required);
  }

  lemma WrittenInCell(data: seq<byte>, bins: Bins, cells: Cells, c: nat, at: nat, b: seq<byte>)
    requires HeapOk(data, bins, cells) && c in cells && at + |b| <= |cells[c].payload|
    ensures BASE + c + CELL_HEADER + at + |b| <= |data|
    ensures HeapOk(Put(data, BASE + c + CELL_HEADER + at, b), bins, WriteCell(cells, c, at, b))
    ensures SameBase(data, Put(data, BASE + c + CELL_HEADER + at, b))
  {
    WriteCellHeap(data, bins, cells, c, at, b);
    var cells' := WriteCell(cells, c, at, b);
    SameAligned(bins, cells, cells', |data| - BASE);
    assert SmallFree(cells');
  }

  /** Reading the buffer at a cell's data reads the payload. */
  lemma PayloadRead(data: seq<byte>, bins: Bins, cells: Cells, c: nat, at: nat)
    requires HeapOk(data, bins, cells) && c in cells
    ensures BASE + c + cells[c].size <= |data| && |cells[c].payload| == cells[c].size - CELL_HEADER
    ensures c < MAX_DATA
    ensures at + 4 <= |cells[c].payload| ==>
      Get32(data, BASE + c + CELL_HEADER + at) == Get32(cells[c].payload, at)
    ensures at + 2 <= |cells[c].payload| ==>
      Get16(data, BASE + c + CELL_HEADER + at) == Get16(cells[c].payload, at)
  {
    assert CellShape(bins, cells, c) && CellImage(data, c, cells[c]);
    var start := BASE + c + CELL_HEADER;
    assert forall j :: 0 <= j < |cells[c].payload| ==> data[start + j] == cells[c].payload[j];
  }

  /** Moving a list: the old cell is released, then the new one is allocated. */
  lemma ListMoved(cells: Cells, cells': Cells, old': nat, l: nat, size: nat, tag: Tag)
    requires old' in cells && Grown(Release(cells, old'), cells', l, size, tag) && !tag.Free?
    ensures SameUsedOutside(cells, cells', {old', l})
    ensures l != old' ==> !UsedIn(cells', old') && !UsedIn(cells, l)
    ensures UsedIn(cells', l)
  {
    var mid := Release(cells, old');
    assert l != old' ==> !UsedIn(mid, old');
    forall c {:trigger UsedIn(cells, c)} {:trigger UsedIn(cells', c)} | c !in {old', l}
      ensures UsedIn(cells, c) == UsedIn(cells', c) && (UsedIn(cells, c) ==> cells'[c] == cells[c])
    {
      assert UsedIn(mid, c) == UsedIn(cells, c);
    }
  }

  /** The link fields of a key, read from the buffer. */
  ghost predicate ReadFields(data: seq<byte>, k: u32, r: KeyRec) {
    var a := BASE + k + CELL_HEADER;
    && a + KEY_HEADER <= |data|
    && Get32(data, a + 20) == |r.subkeys| && Get32(data, a + 28) == r.subList
    && Get32(data, a + 36) == |r.values| && Get32(data, a + 40) == r.valList
    && Get32(data, a + 52) == r.maxName
  }

  lemma KeyReads(data: seq<byte>, bins: Bins, cells: Cells, keys: Keys, vals: Vals, k: u32)
    requires HeapOk(data, bins, cells) && Records(cells, keys, vals) && k in keys
    ensures KeyOk(cells, keys, k) && KeyFields(cells[k].payload, keys[k])
    ensures ReadFields(data, k, keys[k])
  {
    hide HeapOk, Get32;
    assert KeyOk(cells, keys, k);
    var p := cells[k].payload;
    KeyLinkReads(p, keys[k]);
    PayloadRead(data, bins, cells, k, 20);
    PayloadRead(data, bins, cells, k, 28);
    PayloadRead(data, bins, cells, k, 36);
    PayloadRead(data, bins, cells, k, 40);
    PayloadRead(data, bins, cells, k, 52);
  }

  /** Relisting leaves the key node itself alone. */
  lemma RelistedKeeps(cells: Cells, cells': Cells, keys: Keys, vals: Vals, k: u32, l: u32, items: seq<Item>)
    requires Records(cells, keys, vals) && k in keys && SubkeysRelisted(cells, cells', k, keys[k], l, items)
    ensures k in cells && k in cells' && cells'[k] == cells[k]
  {
    assert KeyOk(cells, keys, k);
    assert UsedIn(cells, k);
  }

  lemma ValuesRelistedKeeps(cells: Cells, cells': Cells, keys: Keys, vals: Vals, k: u32, l: u32, offsets: seq<u32>)
    requires Records(cells, keys, vals) && k in keys && ValuesRelisted(cells, cells', k, keys[k], l, offsets)
    ensures k in cells && k in cells' && cells'[k] == cells[k]
  {
    assert KeyOk(cells, keys, k);
    assert UsedIn(cells, k);
  }

  lemma ServedSize(data: seq<byte>, bins: Bins, before: Cells, cells: Cells, c: nat, size: nat, tag: Tag)
    requires HeapOk(data, bins, cells) && Grown(before, cells, c, size, tag)
    ensures size < 0x8000_0000 && c in cells && |cells[c].payload| == size - CELL_HEADER
  {
    assert CellShape(bins, cells, c);
  }

  lemma Extended(data: seq<byte>, bins: Bins, cells: Cells, size: nat)
    requires Sized(data, bins, cells)
    requires BIN_SIZE <= size <= MAX_BIN && size % BIN_SIZE == 0 && |data| - BASE + size <= MAX_DATA
    ensures var len := |data| - BASE;
      var data' := Put(data + NewBin(len, size), 40, LE32(len + size));
      Sized(data', ExtendBins(bins, len, size), ExtendCells(cells, len, size)) && SameBase(data, data')
  {
    hide LE32;
    var len := |data| - BASE;
    var grown := data + NewBin(len, size);
    ExtendHeap(data, grown, bins, cells, size);
    ExtendAligned(bins, cells, len, size);
    FrameBase(grown, Put(grown, 40, LE32(len + size)), ExtendBins(bins, len, size), ExtendCells(cells, len, size));
    PutGet32(grown, 40, len + size);
  }

  /** One new key `k` without lists, hung under `parent`; nothing else changes. */
  ghost predicate SubkeyCreated(keys: Keys, keys': Keys, parent: u32, k: u32, name: seq<byte>) {
    && k !in keys
    && SubkeyAdded(keys[k := NewKey(name, KEY_COMP_NAME, parent, |keys|)], keys', parent, Item(k, NameHash(name)),
                   2 * |name|)
  }

  /** One new value `v`, hung under `key`; nothing else changes. */
  ghost predicate ValueCreated(keys: Keys, vals: Vals, keys': Keys, vals': Vals,
                               key: u32, v: u32, name: seq<byte>, typ: u32, data: seq<byte>) {
    && v !in vals && v in vals'
    && vals' == vals[v := vals'[v]] && vals'[v] == ValRec(key, name, typ, data, vals'[v].dataCell)
    && ValueAdded(keys, keys', key, v)
  }

  /** One new value, hung under `key`, in a buffer that grew by no more than its cells need. */
  ghost predicate ValueSet(data: seq<byte>, keys: Keys, vals: Vals, data': seq<byte>, keys': Keys, vals': Vals,
                           key: u32, v: u32, name: seq<byte>, typ: u32, bytes: seq<byte>)
    requires key in keys
  {
    && ValueCreated(keys, vals, keys', vals', key, v, name, typ, bytes)
    && Later(data, data', ValueGrowth(name, bytes) + ValueListGrowth(|keys[key].values| + 1))
  }

  /** Exactly the values that can be set at all: the record and its data fit a bin, the list is not full. */
  predicate ValueServed(keys: Keys, key: u32, name: seq<byte>, bytes: seq<byte>)
    requires key in keys
  {
    ValueFits(name, bytes) && |keys[key].values| < MAX_VALUES
  }

  ghost predicate ValueRoom(data: seq<byte>, keys: Keys, key: u32, name: seq<byte>, bytes: seq<byte>)
    requires key in keys && |data| >= BASE
  {
    RoomFor(|data| - BASE, ValueGrowth(name, bytes) + ValueListGrowth(|keys[key].values| + 1))
  }

  datatype KeyHandle = KeyHandle(offset: u32)

  const REGF: seq<byte> := [0x72, 0x65, 0x67, 0x66]

  /** The fields of the base block, apart from the data size and the checksum. */
  ghost predicate BaseFields(data: seq<byte>, root: u32, sequence: u32) {
    && |data| >= BASE
    && data[0..4] == REGF && Get32(data, 4) == sequence && Get32(data, 8) == sequence
    && Get32(data, 20) == 1 && Get32(data, 24) == 5 && Get32(data, 28) == 0 && Get32(data, 32) == 1
    && Get32(data, 36) == root && Get32(data, 44) == 1
  }

  lemma BaseFieldsKept(data: seq<byte>, data': seq<byte>, root: u32, sequence: u32)
    requires BaseFields(data, root, sequence) && SameBase(data, data')
    ensures BaseFields(data', root, sequence)
  {
    SliceEq(data', data, 0, 4);
  }

  // ---------------------------------------------------------------- the base block

  /** What `init_base_block` and `create_root_key` put at offset `at`, for a fresh hive. */
  function BaseField(at: nat, sequence: u32): u32 {
    if at == 4 || at == 8 then sequence
    else if at == 20 || at == 32 || at == 44 then 1
    else if at == 24 then 5
    else if at == 40 then BIN_SIZE
    else 0
  }

  ghost predicate FieldRight(data: seq<byte>, at: nat, sequence: u32)
    requires at + 4 <= |data|
  {
    Get32(data, at) == BaseField(at, sequence)
  }

  /** The fields before `limit` are written, everything from 112 on is still zero. */
  ghost predicate BaseUpTo(data: seq<byte>, limit: nat, sequence: u32) {
    && |data| == BASE + BIN_SIZE && limit <= 48
    && data[0..4] == REGF
    && (forall at {:trigger FieldRight(data, at, sequence)} ::
      4 <= at < limit && at % 4 == 0 ==> FieldRight(data, at, sequence))
    && forall j {:trigger data[j]} :: 112 <= j < |data| ==> data[j] == 0
  }

  lemma BaseUpToStep(data: seq<byte>, at: nat, sequence: u32)
    requires BaseUpTo(data, at, sequence) && 4 <= at && at + 4 <= 48 && at % 4 == 0
    ensures BaseUpTo(Put(data, at, LE32(BaseField(at, sequence))), at + 4, sequence)
  {
    hide LE32;
    var data' := Put(data, at, LE32(BaseField(at, sequence)));
    PutGet32(data, at, BaseField(at, sequence));
    PutMiss(data, at, LE32(BaseField(at, sequence)), 0, 4);
    forall a {:trigger FieldRight(data', a, sequence)} | 4 <= a < at + 4 && a % 4 == 0
      ensures FieldRight(data', a, sequence)
    {
      if a < at {
        assert FieldRight(data, a, sequence);
        assert a + 4 <= at;
      }
    }
  }

  /** The timestamp is one 64-bit write. */
  lemma BaseUpToTimestamp(data: seq<byte>, sequence: u32)
    requires BaseUpTo(data, 12, sequence)
    ensures |data| == BASE + BIN_SIZE && BaseUpTo(Put(data, 12, LE64(0)), 20, sequence)
  {
    BaseUpToStep(data, 12, sequence);
    BaseUpToStep(Put(data, 12, LE32(0)), 16, sequence);
    assert Put(data, 12, LE64(0)) == Put(Put(data, 12, LE32(0)), 16, LE32(0));
  }

  lemma BaseUpToLength(data: seq<byte>, limit: nat, sequence: u32)
    requires BaseUpTo(data, limit, sequence)
    ensures |data| == BASE + BIN_SIZE
  {
  }

  /** The first `n` code units of the hive's name stand from offset 48 on. */
  ghost predicate FileName(data: seq<byte>, units: seq<u16>, n: nat) {
    && n <= |units| && n <= 31 && |data| == BASE + BIN_SIZE
    && forall i: nat {:trigger NameUnit(data, units, i)} :: i < n ==> NameUnit(data, units, i)
  }

  ghost predicate NameUnit(data: seq<byte>, units: seq<u16>, i: nat) {
    i < |units| && 48 + i * 2 + 2 <= |data| && Get16(data, 48 + i * 2) == units[i]
  }

  lemma FileNameStep(data: seq<byte>, units: seq<u16>, n: nat)
    requires FileName(data, units, n) && n < |units| && n < 31
    ensures FileName(Put(data, 48 + n * 2, LE16(units[n])), units, n + 1)
  {
    hide LE16;
    var data' := Put(data, 48 + n * 2, LE16(units[n]));
    forall i: nat {:trigger NameUnit(data', units, i)} | i < n + 1 ensures NameUnit(data', units, i) {
      if i < n {
        assert NameUnit(data, units, i);
      } else {
        PutGet16(data, 48 + n * 2, units[n]);
      }
    }
  }

  lemma BaseUpToName(data: seq<byte>, at: nat, w: u16, sequence: u32)
    requires BaseUpTo(data, 48, sequence) && 48 <= at && at + 2 <= 112
    ensures BaseUpTo(Put(data, at, LE16(w)), 48, sequence)
  {
    hide LE16;
    var data' := Put(data, at, LE16(w));
    PutMiss(data, at, LE16(w), 0, 4);
    forall a {:trigger FieldRight(data', a, sequence)} | 4 <= a < 48 && a % 4 == 0
      ensures FieldRight(data', a, sequence)
    {
      assert FieldRight(data, a, sequence);
      assert a + 4 <= 48;
    }
  }

  lemma BaseUpToFields(data: seq<byte>, sequence: u32)
    requires BaseUpTo(data, 48, sequence)
    ensures BaseFields(data, 0, sequence) && Get32(data, 40) == BIN_SIZE
    ensures data == data[..BASE] + Zeros(BIN_SIZE)
  {
    assert FieldRight(data, 4, sequence) && FieldRight(data, 8, sequence) && FieldRight(data, 20, sequence)
      && FieldRight(data, 24, sequence) && FieldRight(data, 28, sequence) && FieldRight(data, 32, sequence)
      && FieldRight(data, 36, sequence) && FieldRight(data, 40, sequence) && FieldRight(data, 44, sequence);
  }

  const FIRST_BINS: Bins := map[0 := BIN_SIZE]
  const FIRST_CELLS: Cells := map[BIN_HEADER := Cell(BIN_SIZE - BIN_HEADER, 0, Free, Zeros(BIN_SIZE - 36))]

  /** One bin with one free cell is a heap. */
  lemma FirstHeap(data: seq<byte>)
    requires |data| == BASE + BIN_SIZE && data[BASE..] == NewBin(0, BIN_SIZE) && Get32(data, 40) == BIN_SIZE
    ensures HeapOk(data, FIRST_BINS, FIRST_CELLS)
    ensures Records(FIRST_CELLS, map[], map[]) && NoLeak(FIRST_CELLS, map[], map[])
  {
    NewBinImage(data, 0, BIN_SIZE);
    assert Shape(FIRST_BINS, FIRST_CELLS, BIN_SIZE);
    assert Aligned(FIRST_BINS, FIRST_CELLS, BIN_SIZE);
  }

  lemma SamePrefix(data: seq<byte>, data': seq<byte>, root: u32, sequence: u32)
    requires BaseFields(data, root, sequence) && |data'| >= BASE && data'[..BASE] == data[..BASE]
    ensures BaseFields(data', root, sequence) && Get32(data', 40) == Get32(data, 40)
  {
    assert forall j :: 0 <= j < BASE ==> data'[j] == data'[..BASE][j] && data[j] == data[..BASE][j];
    SliceEq(data', data, 0, 4);
  }

  /** Setting the root offset in the base block. */
  lemma RootWritten(data: seq<byte>, bins: Bins, cells: Cells, root: u32, sequence: u32)
    requires HeapOk(data, bins, cells) && BaseFields(data, 0, sequence)
    ensures HeapOk(Put(data, 36, LE32(root)), bins, cells)
    ensures BaseFields(Put(data, 36, LE32(root)), root, sequence)
  {
    hide LE32;
    var data' := Put(data, 36, LE32(root));
    FrameBase(data, data', bins, cells);
    PutGet32(data, 36, root);
    PutMiss(data, 36, LE32(root), 0, 4);
  }

  lemma RootGraph(k: u32, r: KeyRec)
    requires r.subkeys == [] && r.values == [] && r.born == 0
    ensures Graph(map[k := r], map[], k)
  {
    EmptySorted();
    var keys: Keys := map[k := r];
    assert LinksOk(keys, map[], k, k);
  }

  lemma {:induction false} XorWordsFrame(a: seq<byte>, b: seq<byte>, n: nat)
    requires 4 * n <= |a| && 4 * n <= |b| && forall j :: 0 <= j < 4 * n ==> a[j] == b[j]
    ensures HiveReading.XorWords(a, n) == HiveReading.XorWords(b, n)
  {
    hide Xor32;
    if n == 0 {
    } else {
      XorWordsFrame(a, b, n - 1);
    }
  }

  /** The sequence numbers and then the checksum are set; all the rest stays. */
  function Finished(data: seq<byte>, sequence: u32): seq<byte>
    requires |data| >= 512
  {
    var numbered := Put(Put(data, 4, LE32(sequence)), 8, LE32(sequence));
    Put(numbered, 508, LE32(HiveReading.Checksum(numbered)))
  }

  lemma FinishedValid(data: seq<byte>, bins: Bins, cells: Cells, root: u32, sequence: u32, sequence': u32)
    requires HeapOk(data, bins, cells) && BaseFields(data, root, sequence)
    ensures var data' := Finished(data, sequence');
      && HeapOk(data', bins, cells) && BaseFields(data', root, sequence')
      && Get32(data', 508) == HiveReading.Checksum(data')
  {
    hide LE32, Get32, HeapOk, HiveReading.Checksum, Put;
    var d1 := Put(data, 4, LE32(sequence'));
    NumberWritten(data, bins, cells, 4, sequence');
    var numbered := Put(d1, 8, LE32(sequence'));
    NumberWritten(d1, bins, cells, 8, sequence');
    var sum := HiveReading.Checksum(numbered);
    var data' := Finished(data, sequence');
    NumberWritten(numbered, bins, cells, 508, sum);
    ChecksumFrame(numbered, data');
  }

  lemma ChecksumFrame(a: seq<byte>, b: seq<byte>)
    requires |a| >= 508 && |b| >= 508 && forall j :: 0 <= j < 508 ==> a[j] == b[j]
    ensures HiveReading.Checksum(a) == HiveReading.Checksum(b)
  {
    XorWordsFrame(a, b, 127);
  }

  lemma BaseLength(data: seq<byte>, bins: Bins, cells: Cells, root: u32, sequence: u32)
    requires BaseFields(data, root, sequence)
    ensures |data| >= BASE
  {
  }

  /** One 32-bit write into the base block, away from the fields that describe the heap. */
  lemma NumberWritten(data: seq<byte>, bins: Bins, cells: Cells, at: nat, v: u32)
    requires HeapOk(data, bins, cells) && (at == 4 || at == 8 || at == 508)
    ensures HeapOk(Put(data, at, LE32(v)), bins, cells)
    ensures Get32(Put(data, at, LE32(v)), at) == v
    ensures forall a {:trigger Get32(Put(data, at, LE32(v)), a)} ::
      0 <= a <= BASE - 4 && (a + 4 <= at || at + 4 <= a) ==>
      Get32(Put(data, at, LE32(v)), a) == Get32(data, a)
    ensures Put(data, at, LE32(v))[0..4] == data[0..4]
  {
    hide LE32;
    var data' := Put(data, at, LE32(v));
    FrameBase(data, data', bins, cells);
    PutGet32(data, at, v);
    PutMiss(data, at, LE32(v), 0, 4);
  }

  lemma LaterTransitive(a: seq<byte>, b: seq<byte>, c: seq<byte>, g: nat, h: nat)
    requires Later(a, b, g) && Later(b, c, h)
    ensures Later(a, c, g + h)
  {
  }

  class HiveBuilder {
    var data: seq<byte>
    var rootKeyOffset: u32
    var sequenceNumber: u32

    ghost var bins: Bins
    ghost var cells: Cells
    ghost var keys: Keys
    ghost var vals: Vals

    ghost predicate HeapValid()
      reads this
    {
      HeapOk(data, bins, cells)
    }

    /** The buffer holds a well-formed hive with exactly the keys `keys` and the values `vals`. */
    ghost predicate Valid()
      reads this
    {
      && HeapValid()
      && Records(cells, keys, vals) && NoLeak(cells, keys, vals)
      && Graph(keys, vals, rootKeyOffset)
      && BaseFields(data, rootKeyOffset, sequenceNumber)
    }

    /** An empty hive whose root key is called `name`. */
    static method New(name: seq<byte>) returns (r: Outcome<HiveBuilder>)
      ensures r.Done? ==>
        && fresh(r.value) && r.value.Valid() && r.value.sequenceNumber == 1
        && r.value.keys == map[r.value.rootKeyOffset := NewKey(name, KEY_HIVE_ENTRY + KEY_COMP_NAME, 0, 0)]
        && r.value.vals == map[]
        && |r.value.data| <= BASE + BIN_SIZE + KeyGrowth(name)
      ensures r.Done? ==> KeyFits(name)
      ensures r.NeverReturns? ==> !KeyFits(name)
      ensures r.TooLarge? ==> !RoomFor(BIN_SIZE, KeyGrowth(name))
    {
      var builder := new HiveBuilder();
      builder.InitBaseBlock(name);
      builder.InitFirstBin();
      var _ :- builder.CreateRootKey(name);
      return Done(builder);
    }

    constructor ()
      ensures data == Zeros(BASE + BIN_SIZE) && rootKeyOffset == 0 && sequenceNumber == 1
      ensures keys == map[] && vals == map[]
    {
      data := Zeros(BASE + BIN_SIZE);
      rootKeyOffset := 0;
      sequenceNumber := 1;
      bins, cells, keys, vals := map[], map[], map[], map[];
    }

    method InitBaseBlock(name: seq<byte>)
      requires data == Zeros(BASE + BIN_SIZE)
      modifies `data
      ensures BaseUpTo(data, 48, sequenceNumber) && FileName(data, Utf16(name), Min(|Utf16(name)|, 31))
    {
      hide LE32, LE16, Get16;
      Write(0, REGF);
      PutHit(old(data), 0, REGF);
      assert BaseUpTo(data, 4, sequenceNumber);
      InitFields();
      var units := Utf16(name);
      for i := 0 to Min(|units|, 31)
        invariant BaseUpTo(data, 48, sequenceNumber) && FileName(data, units, i)
      {
        BaseUpToName(data, 48 + i * 2, units[i], sequenceNumber);
        FileNameStep(data, units, i);
        Write(48 + i * 2, LE16(units[i]));
      }
    }

    /** The sequence numbers, timestamp, version, type, format, root, size and clustering fields. */
    method InitFields()
      requires BaseUpTo(data, 4, sequenceNumber)
      modifies `data
      ensures BaseUpTo(data, 48, sequenceNumber)
    {
      hide LE32, LE64, BaseUpTo;
      BaseUpToLength(data, 4, sequenceNumber);
      BaseUpToStep(data, 4, sequenceNumber);
      WriteU32(4, sequenceNumber);
      BaseUpToStep(data, 8, sequenceNumber);
      WriteU32(8, sequenceNumber);
      BaseUpToTimestamp(data, sequenceNumber);
      Write(12, LE64(0));
      BaseUpToStep(data, 20, sequenceNumber);
      WriteU32(20, 1);
      BaseUpToStep(data, 24, sequenceNumber);
      WriteU32(24, 5);
      BaseUpToStep(data, 28, sequenceNumber);
      WriteU32(28, 0);
      BaseUpToStep(data, 32, sequenceNumber);
      WriteU32(32, 1);
      BaseUpToStep(data, 36, sequenceNumber);
      WriteU32(36, 0);
      BaseUpToStep(data, 40, sequenceNumber);
      WriteU32(40, BIN_SIZE);
      BaseUpToStep(data, 44, sequenceNumber);
      WriteU32(44, 1);
    }

    method InitFirstBin()
      requires BaseUpTo(data, 48, sequenceNumber) && keys == map[] && vals == map[]
      modifies `data, `bins, `cells
      ensures |data| == BASE + BIN_SIZE && cells == FIRST_CELLS
      ensures HeapValid() && Records(cells, keys, vals) && NoLeak(cells, keys, vals)
      ensures BaseFields(data, 0, sequenceNumber)
    {
      hide LE32, HeapOk, Records, NoLeak, BaseUpTo, Get32;
      BaseUpToFields(data, sequenceNumber);
      ghost var base := data[..BASE];
      ExtendWritten(base, 0, BIN_SIZE);
      var binOffset := BASE;
      Write(binOffset, HBIN);
      WriteU32(binOffset + 4, 0);
      WriteU32(binOffset + 8, BIN_SIZE);
      WriteI32(binOffset + BIN_HEADER, BIN_SIZE - BIN_HEADER);
      assert data[..BASE] == base;
      SamePrefix(old(data), data, 0, sequenceNumber);
      FirstHeap(data);
      bins := FIRST_BINS;
      cells := FIRST_CELLS;
    }

    method CreateRootKey(name: seq<byte>) returns (r: Outcome<()>)
      requires HeapValid() && Records(cells, keys, vals) && NoLeak(cells, keys, vals)
      requires keys == map[] && vals == map[]
      requires BaseFields(data, 0, sequenceNumber)
      modifies this
      ensures r.Done? ==>
        && Valid() && sequenceNumber == old(sequenceNumber)
        && keys == map[rootKeyOffset := NewKey(name, KEY_HIVE_ENTRY + KEY_COMP_NAME, 0, 0)] && vals == map[]
        && |data| <= |old(data)| + KeyGrowth(name)
      ensures r.Done? ==> KeyFits(name)
      ensures r.NeverReturns? ==> !KeyFits(name)
      ensures r.TooLarge? ==> !RoomFor(|old(data)| - BASE, KeyGrowth(name))
    {
      hide LE32, HeapOk, Records, NoLeak, Graph, Get32, KeyFields, CellSize, NewBinSize, FitsBin;
      ghost var data0 := data;
      ghost var rec := NewKey(name, KEY_HIVE_ENTRY + KEY_COMP_NAME, 0, 0);
      var keyOffset :- AllocateKeyNode(name, 0, KEY_HIVE_ENTRY + KEY_COMP_NAME, 0);
      KeyJoins(old(cells), cells, keys, vals, keyOffset, CellSize(KEY_HEADER + |name|), rec);
      keys := keys[keyOffset := rec];
      assert keys == map[keyOffset := rec];
      RootGraph(keyOffset, rec);
      BaseFieldsKept(data0, data, 0, sequenceNumber);
      RootWritten(data, bins, cells, keyOffset, sequenceNumber);
      rootKeyOffset := keyOffset;
      WriteU32(36, keyOffset);
      return Done(());
    }

    // ---------------------------------------------------------------- raw access

    function ReadU32(offset: nat): u32
      reads this
      requires offset + 4 <= |data|
    {
      Get32(data, offset)
    }

    function ReadI32(offset: nat): i32
      reads this
      requires offset + 4 <= |data|
    {
      GetI32(data, offset)
    }

    method Write(offset: nat, b: seq<byte>)
      requires offset + |b| <= |data|
      modifies `data
      ensures data == Put(old(data), offset, b)
    {
      data := Put(data, offset, b);
    }

    method WriteU32(offset: nat, value: u32)
      requires offset + 4 <= |data|
      modifies `data
      ensures data == Put(old(data), offset, LE32(value))
    {
      Write(offset, LE32(value));
    }

    method WriteI32(offset: nat, value: i32)
      requires offset + 4 <= |data|
      modifies `data
      ensures data == Put(old(data), offset, LE32(Unsigned32(value)))
    {
      Write(offset, LE32(Unsigned32(value)));
    }

    // ---------------------------------------------------------------- cells

    /** Walks all bins and cells for the first free cell that fits; extends the hive if there is none. */
    method AllocateCell(dataSize: nat, ghost tag: Tag) returns (r: Outcome<u32>)
      requires Sized(data, bins, cells) && !tag.Free?
      modifies `data, `bins, `cells
      ensures r.Done? ==>
        && Sized(data, bins, cells) && SameBase(old(data), data)
        && Allocation(old(bins), old(cells), |old(data)| - BASE, bins, cells, |data| - BASE,
                      r.value, CellSize(dataSize), tag)
      ensures r.NeverReturns? <==> NoneFits(old(cells), CellSize(dataSize)) && !FitsBin(CellSize(dataSize))
      ensures r.TooLarge? <==> NoneFits(old(cells), CellSize(dataSize)) && FitsBin(CellSize(dataSize))
                               && !Room(|old(data)| - BASE, CellSize(dataSize))
      decreases if NoneFits(cells, CellSize(dataSize)) then 1 else 0
    {
      hide LE32, Allocation, SameBase, Sized, Marked, NoneBelow, FitsBin, Room, Get32;
      var required := CellSize(dataSize);
      ScanStarts(data, bins, cells, required);
      ghost var len := |data| - BASE;
      var binOffset := BASE;
      while binOffset < |data|
        invariant data == old(data) && bins == old(bins) && cells == old(cells)
        invariant BASE <= binOffset && (binOffset - BASE in bins || binOffset == |data|)
        invariant NoneBelow(cells, required, binOffset - BASE)
        decreases |data| - binOffset
      {
        ghost var b := binOffset - BASE;
        ScanBin(data, bins, cells, b);
        if data[binOffset..binOffset + 4] != HBIN {
          assert false;
          break;
        }
        var binSize := ReadU32(binOffset + 8);
        var binEnd := binOffset + binSize;
        var offset := binOffset + BIN_HEADER;
        ScanSkipsHeader(data, bins, cells, b, required);
        while offset < binEnd && offset + 4 <= |data|
          invariant data == old(data) && bins == old(bins) && cells == old(cells)
          invariant binOffset + BIN_HEADER <= offset <= binEnd == BASE + b + bins[b]
          invariant offset == binEnd || (offset - BASE in cells && cells[offset - BASE].bin == b)
          invariant NoneBelow(cells, required, offset - BASE)
          decreases binEnd - offset
        {
          ghost var c := offset - BASE;
          ScanCell(data, bins, cells, c);
          var size := ReadI32(offset);
          if size == 0 {
            assert false;
            break;
          }
          var absSize := if size < 0 then -(size as int) else size;
          if size > 0 && absSize >= required {
            ScanRemainder(data, bins, cells, c, required, tag);
            MarkAllocated(offset, absSize, required, tag);
            ScanFound(old(data), bins, old(cells), c, required, tag, data, cells);
            return Done(offset - BASE);
          }
          ScanSkipsCell(data, bins, cells, c, required);
          offset := offset + absSize;
        }
        assert offset == binEnd by {
          if offset < binEnd {
            ScanCell(data, bins, cells, offset - BASE);
          }
        }
        binOffset := binOffset + binSize;
      }
      assert binOffset == |data| by {
        if binOffset - BASE in bins {
          ScanBin(data, bins, cells, binOffset - BASE);
        }
      }
      ScanEnds(data, bins, cells, required);
      if !FitsBin(required) {
        return NeverReturns;
      }
      if !Room(|data| - BASE, required) {
        return TooLarge;
      }
      ExtendHive(required);
      OnlyNewCellFits(old(cells), len, required, len + BIN_HEADER);
      ghost var extended := data;
      r := AllocateCell(dataSize, tag);
      if r.Done? {
        ScanStarts(data, bins, cells, required);
        SameBaseTransitive(old(data), extended, data);
        RetryAllocates(old(bins), old(cells), len, bins, cells, |data| - BASE, r.value, required, tag);
      }
    }

    /** Marks the free cell at `offset` as used and turns what is left of it into a free cell. */
    method MarkAllocated(offset: nat, absSize: nat, required: nat, ghost tag: Tag)
      requires offset >= BASE && Markable(data, bins, cells, offset - BASE, required, tag)
      requires absSize == cells[offset - BASE].size
      modifies `data, `cells
      ensures Marked(old(data), old(cells), data, bins, cells, offset - BASE, required, tag)
    {
      hide LE32, Sized, Marked;
      MarkedByTake(data, bins, cells, offset - BASE, required, tag);
      var remaining := absSize - required;
      WriteI32(offset, -(required as int));
      if remaining >= 8 {
        WriteI32(offset + required, remaining);
      }
      cells := Take(cells, offset - BASE, required, tag);
    }

    /** Appends a bin with one free cell. */
    method ExtendHive(minSize: nat)
      requires Sized(data, bins, cells) && minSize > 0 && Room(|data| - BASE, minSize)
      modifies `data, `bins, `cells
      ensures NewBinSize(minSize) >= BIN_SIZE
      ensures bins == ExtendBins(old(bins), |old(data)| - BASE, NewBinSize(minSize))
      ensures cells == ExtendCells(old(cells), |old(data)| - BASE, NewBinSize(minSize))
      ensures |data| == |old(data)| + NewBinSize(minSize)
      ensures Sized(data, bins, cells) && SameBase(old(data), data)
    {
      hide LE32, Heap, Aligned;
      FitsBinIff(minSize);
      var newBinSize := NewBinSize(minSize);
      var oldLen := |data|;
      ghost var len := oldLen - BASE;
      ExtendWritten(data, len, newBinSize);
      Extended(data, bins, cells, newBinSize);
      data := data + Zeros(newBinSize);
      Write(oldLen, HBIN);
      WriteU32(oldLen + 4, oldLen - BASE);
      WriteU32(oldLen + 8, newBinSize);
      WriteI32(oldLen + BIN_HEADER, newBinSize - BIN_HEADER);
      WriteU32(40, |data| - BASE);
      bins := ExtendBins(bins, len, newBinSize);
      cells := ExtendCells(cells, len, newBinSize);
    }

    /** `allocate_cell` on a hive that this builder made. */
    method Allocate(dataSize: nat, ghost tag: Tag) returns (r: Outcome<u32>)
      requires HeapValid() && !tag.Free?
      modifies `data, `bins, `cells
      ensures r.Done? ==>
        && HeapValid() && Later(old(data), data, NewBinSize(CellSize(dataSize)))
        && Grown(old(cells), cells, r.value, CellSize(dataSize), tag)
      ensures r.Done? ==> FitsBin(CellSize(dataSize))
      ensures r.NeverReturns? ==> !FitsBin(CellSize(dataSize))
      ensures r.TooLarge? ==> !Room(|old(data)| - BASE, CellSize(dataSize))
    {
      hide LE32, Heap, Aligned, SmallFree, Allocation, Grown;
      r := AllocateCell(dataSize, tag);
      if r.Done? {
        AllocationServes(old(data), old(bins), old(cells), data, bins, cells, r.value, CellSize(dataSize), tag);
      }
    }

    /** Writes into the data of a cell. */
    method WriteInCell(c: u32, at: nat, b: seq<byte>)
      requires HeapValid() && c in cells && at + |b| <= |cells[c].payload|
      modifies `data, `cells
      ensures HeapValid() && cells == WriteCell(old(cells), c, at, b)
      ensures Later(old(data), data, 0)
    {
      hide LE32, Heap, Aligned, SmallFree;
      WrittenInCell(data, bins, cells, c, at, b);
      Write(BASE + c + CELL_HEADER + at, b);
      cells := WriteCell(cells, c, at, b);
    }

    method FreeCell(cellOffset: u32)
      requires HeapValid() && UsedIn(cells, cellOffset) && cells[cellOffset].size <= MAX_FREE
      modifies `data, `cells
      ensures HeapValid() && cells == Release(old(cells), cellOffset)
      ensures SameBase(old(data), data) && |data| == |old(data)|
    {
      ReleaseHeap(data, bins, cells, cellOffset);
      var absOffset := BASE + cellOffset;
      var size := ReadI32(absOffset);
      if size < 0 {
        WriteI32(absOffset, -(size as int));
      }
      SameAligned(bins, cells, Release(cells, cellOffset), |data| - BASE);
      cells := Release(cells, cellOffset);
    }

    /** Writes into the data of the cell `c` that was allocated on the heap `before`. */
    method WriteNew(ghost before: Cells, c: u32, ghost size: nat, ghost tag: Tag, at: nat, b: seq<byte>)
      requires HeapValid() && Grown(before, cells, c, size, tag) && !tag.Free? && at + |b| <= size - CELL_HEADER
      modifies `data, `cells
      ensures HeapValid() && Later(old(data), data, 0)
      ensures Grown(before, cells, c, size, tag)
      ensures c in old(cells) && |old(cells)[c].payload| == size - CELL_HEADER
      ensures c in cells && cells[c].payload == Put(old(cells)[c].payload, at, b)
    {
      hide HeapOk, Put;
      GrownWritten(before, cells, c, size, tag, at, b);
      WriteInCell(c, at, b);
    }

    // ---------------------------------------------------------------- keys

    /** Allocates a cell for a key node and writes its header and name. */
    method AllocateKeyNode(name: seq<byte>, parentOffset: u32, flags: u16, ghost born: nat) returns (r: Outcome<u32>)
      requires HeapValid()
      modifies `data, `bins, `cells
      ensures r.Done? ==>
        && HeapValid() && Later(old(data), data, NewBinSize(CellSize(KEY_HEADER + |name|)))
        && Grown(old(cells), cells, r.value, CellSize(KEY_HEADER + |name|), KeyCell)
        && KeyFields(cells[r.value].payload, NewKey(name, flags, parentOffset, born))
      ensures r.Done? ==> FitsBin(CellSize(KEY_HEADER + |name|))
      ensures r.NeverReturns? ==> !FitsBin(CellSize(KEY_HEADER + |name|))
      ensures r.TooLarge? ==> !Room(|old(data)| - BASE, CellSize(KEY_HEADER + |name|))
    {
      hide HeapOk, KeyFields, KeyNodeHeader, Put;
      ghost var before := cells;
      var totalSize := KEY_HEADER + |name|;
      var cellOffset :- Allocate(totalSize, KeyCell);
      var header := KeyNodeHeader(flags, parentOffset, |name| % 0x1_0000);
      KeyNodeWritten(cells[cellOffset].payload, name, flags, parentOffset, born);
      WriteNew(before, cellOffset, CellSize(totalSize), KeyCell, 0, header);
      WriteNew(before, cellOffset, CellSize(totalSize), KeyCell, KEY_HEADER, name);
      return Done(cellOffset);
    }

    /** Allocates a hash leaf and writes its items. */
    method CreateSubkeysList(items: seq<Item>, ghost key: u32) returns (r: Outcome<u32>)
      requires HeapValid() && |items| < 0x1_0000
      modifies `data, `bins, `cells
      ensures r.Done? ==>
        && HeapValid() && Later(old(data), data, NewBinSize(CellSize(LIST_HEADER + 8 * |items|)))
        && Grown(old(cells), cells, r.value, CellSize(LIST_HEADER + 8 * |items|), SubkeyList(key))
        && SubkeyListFields(cells[r.value].payload, items)
      ensures r.Done? ==> FitsBin(CellSize(LIST_HEADER + 8 * |items|))
      ensures r.NeverReturns? ==> !FitsBin(CellSize(LIST_HEADER + 8 * |items|))
      ensures r.TooLarge? ==> !Room(|old(data)| - BASE, CellSize(LIST_HEADER + 8 * |items|))
    {
      hide HeapOk, Put, LE16, LE32, SubkeyListPrefix;
      ghost var before := cells;
      var totalSize := LIST_HEADER + 8 * |items|;
      var cellOffset :- Allocate(totalSize, SubkeyList(key));
      ghost var size := CellSize(totalSize);
      SubkeyListStarted(cells[cellOffset].payload, items);
      WriteNew(before, cellOffset, size, SubkeyList(key), 0, LH);
      WriteNew(before, cellOffset, size, SubkeyList(key), 2, LE16(|items| % 0x1_0000));
      ghost var full := data;
      for i := 0 to |items|
        invariant HeapValid() && Later(full, data, 0)
        invariant Grown(before, cells, cellOffset, size, SubkeyList(key))
        invariant SubkeyListPrefix(cells[cellOffset].payload, items, i)
      {
        SubkeyListStep(cells[cellOffset].payload, items, i);
        var itemOffset := LIST_HEADER + 8 * i;
        WriteNew(before, cellOffset, size, SubkeyList(key), itemOffset, LE32(items[i].key));
        WriteNew(before, cellOffset, size, SubkeyList(key), itemOffset + 4, LE32(items[i].hash));
      }
      SubkeyListFinished(cells[cellOffset].payload, items);
      return Done(cellOffset);
    }

    /** Replaces a hash leaf by one with one more item, sorted by hash. */
    method ExtendSubkeysList(listOffset: u32, newKeyOffset: u32, nameHash: u32, ghost key: u32, ghost before: seq<Item>)
      returns (r: Outcome<u32>)
      requires HeapValid() && 0 < |before| <= MAX_SUBKEYS
      requires listOffset in cells && cells[listOffset].tag == SubkeyList(key)
      requires cells[listOffset].size == CellSize(LIST_HEADER + 8 * |before|)
      requires SubkeyListFields(cells[listOffset].payload, before)
      modifies `data, `bins, `cells
      ensures r.Done? ==>
        && HeapValid() && Later(old(data), data, NewBinSize(CellSize(LIST_HEADER + 8 * (|before| + 1))))
        && Grown(Release(old(cells), listOffset), cells, r.value, CellSize(LIST_HEADER + 8 * (|before| + 1)),
                 SubkeyList(key))
        && SubkeyListFields(cells[r.value].payload, SortByHash(before + [Item(newKeyOffset, nameHash)]))
      ensures r.Done? ==> |before| < MAX_SUBKEYS
      ensures r.NeverReturns? ==> |before| == MAX_SUBKEYS
      ensures r.TooLarge? ==> !Room(|old(data)| - BASE, CellSize(LIST_HEADER + 8 * (|before| + 1)))
    {
      hide HeapOk, Put, LE16, LE32, Grown, CellSize, NewBinSize, Room, FitsBin, SortByHash;
      PayloadRead(data, bins, cells, listOffset, 2);
      var listDataAbs := BASE + listOffset + CELL_HEADER;
      var count := Get16(data, listDataAbs + 2);
      var items: seq<Item> := [];
      for i := 0 to count
        invariant data == old(data) && bins == old(bins) && cells == old(cells)
        invariant |items| == i && items == before[..i]
      {
        var itemAbsOffset := listDataAbs + LIST_HEADER + i * 8;
        assert SubkeyItem(cells[listOffset].payload, before, i);
        PayloadRead(data, bins, cells, listOffset, LIST_HEADER + 8 * i);
        PayloadRead(data, bins, cells, listOffset, LIST_HEADER + 8 * i + 4);
        items := items + [Item(ReadU32(itemAbsOffset), ReadU32(itemAbsOffset + 4))];
      }
      assert items == before;
      items := SortByHash(items + [Item(newKeyOffset, nameHash)]);
      ListSizes(|before|, 0);
      ListSizes(|before| + 1, 0);
      FreeCell(listOffset);
      r := CreateSubkeysList(items, key);
    }

    /** The list part of `add_subkey_to_parent`: a first list, or the old one extended. */
    method RelistSubkeys(parentOffset: u32, subkeysListOffset: u32, childOffset: u32, nameHash: u32)
      returns (r: Outcome<u32>)
      requires HeapValid() && parentOffset in keys && KeyOk(cells, keys, parentOffset)
      requires subkeysListOffset == keys[parentOffset].subList
      modifies `data, `bins, `cells
      ensures r.Done? ==>
        && HeapValid()
        && Later(old(data), data, NewBinSize(CellSize(LIST_HEADER + 8 * (|keys[parentOffset].subkeys| + 1))))
        && SubkeysRelisted(old(cells), cells, parentOffset, keys[parentOffset], r.value,
                           SortByHash(keys[parentOffset].subkeys + [Item(childOffset, nameHash)]))
      ensures r.Done? ==> |keys[parentOffset].subkeys| < MAX_SUBKEYS
      ensures r.NeverReturns? ==> |keys[parentOffset].subkeys| == MAX_SUBKEYS
      ensures r.TooLarge? ==>
        !Room(|old(data)| - BASE, CellSize(LIST_HEADER + 8 * (|keys[parentOffset].subkeys| + 1)))
    {
      hide HeapOk, SortByHash, CellSize, NewBinSize, Room, FitsBin, KeyFields, SubkeyListFields, ValueListFields;
      ghost var k, rec, before := parentOffset, keys[parentOffset], cells;
      ghost var newItem := Item(childOffset, nameHash);
      if subkeysListOffset == NONE {
        assert rec.subkeys == [] by {
          if rec.subkeys != [] {
            PayloadRead(data, bins, cells, rec.subList, 0);
          }
        }
        var items := [Item(childOffset, nameHash)];
        assert rec.subkeys + [newItem] == items;
        SortSingle(newItem);
        ListSizes(1, 0);
        r := CreateSubkeysList(items, k);
      } else {
        r := ExtendSubkeysList(subkeysListOffset, childOffset, nameHash, k, rec.subkeys);
        if r.Done? {
          ListMoved(before, cells, rec.subList, r.value, CellSize(LIST_HEADER + 8 * (|rec.subkeys| + 1)),
                    SubkeyList(k));
        }
      }
    }

    /** Hangs the key `childOffset` into the subkey list of `parentOffset`. */
    method AddSubkeyToParent(parentOffset: u32, childOffset: u32, childName: seq<byte>) returns (r: Outcome<()>)
      requires HeapValid() && Records(cells, keys, vals) && NoLeak(cells, keys, vals)
      requires parentOffset in keys && |childName| < 0x8000_0000
      modifies `data, `bins, `cells, `keys
      ensures r.Done? ==>
        && HeapValid() && Records(cells, keys, vals) && NoLeak(cells, keys, vals)
        && Later(old(data), data, NewBinSize(CellSize(LIST_HEADER + 8 * (|old(keys)[parentOffset].subkeys| + 1))))
        && SubkeyAdded(old(keys), keys, parentOffset, Item(childOffset, NameHash(childName)), 2 * |childName|)
      ensures r.Done? ==> |old(keys)[parentOffset].subkeys| < MAX_SUBKEYS
      ensures r.NeverReturns? ==> |old(keys)[parentOffset].subkeys| == MAX_SUBKEYS
      ensures r.TooLarge? ==>
        !Room(|old(data)| - BASE, CellSize(LIST_HEADER + 8 * (|old(keys)[parentOffset].subkeys| + 1)))
    {
      hide HeapOk, Put, LE16, LE32, CellSize, NewBinSize, Room, FitsBin, SortByHash, KeyLinks, KeyFixed,
           Records, NoLeak, SubkeysRelisted;
      ghost var k, rec, before := parentOffset, keys[parentOffset], cells;
      KeyReads(data, bins, cells, keys, vals, k);
      var parentDataAbs := BASE + parentOffset + CELL_HEADER;
      var subkeysListOffset := ReadU32(parentDataAbs + 28);
      var subkeyCount := ReadU32(parentDataAbs + 20);
      var nameHash := ComputeNameHash(childName);
      ghost var items := SortByHash(rec.subkeys + [Item(childOffset, nameHash)]);
      var listOffset :- RelistSubkeys(parentOffset, subkeysListOffset, childOffset, nameHash);
      ghost var relisted := cells;
      RelistedKeeps(before, cells, keys, vals, k, listOffset, items);
      WriteSubkeyLinks(parentOffset, listOffset, subkeyCount + 1, |childName| * 2, rec, items);
      ghost var maxName := if |childName| * 2 > rec.maxName then |childName| * 2 else rec.maxName;
      SubkeysRelinked(before, relisted, keys, vals, k, listOffset, items, maxName, cells[k].payload);
      keys := keys[k := rec.(subkeys := items, subList := listOffset, maxName := maxName)];
      return Done(());
    }

    /** Writes the list, the count and, if it grows, the longest name of a key node. */
    method WriteSubkeyLinks(keyOffset: u32, listOffset: u32, count: u32, nameLen: u32,
                            ghost rec: KeyRec, ghost items: seq<Item>)
      requires HeapValid() && keyOffset in cells && KeyFields(cells[keyOffset].payload, rec) && |items| == count
      modifies `data, `cells
      ensures HeapValid() && Later(old(data), data, 0)
      ensures keyOffset in old(cells) && keyOffset in cells
      ensures cells == SetPayload(old(cells), keyOffset, cells[keyOffset].payload)
      ensures KeyFields(cells[keyOffset].payload, rec.(subkeys := items, subList := listOffset,
                        maxName := if nameLen > rec.maxName then nameLen else rec.maxName))
    {
      hide HeapOk, Put, LE32, KeyLinks, KeyFixed;
      SubkeyLinksWritten(cells[keyOffset].payload, rec, count, listOffset);
      KeyLinkReads(cells[keyOffset].payload, rec);
      WriteInCell(keyOffset, 28, LE32(listOffset));
      WriteInCell(keyOffset, 20, LE32(count));
      ghost var q := cells[keyOffset].payload;
      MaxNameWritten(q, rec, count, listOffset, nameLen);
      PayloadRead(data, bins, cells, keyOffset, 52);
      var currentMax := ReadU32(BASE + keyOffset + CELL_HEADER + 52);
      if nameLen > currentMax {
        WriteInCell(keyOffset, 52, LE32(nameLen));
      }
    }

    // ---------------------------------------------------------------- values

    /** Data of at most four bytes as the number that holds it. */
    method InlineData(bytes: seq<byte>) returns (value: u32)
      requires |bytes| <= 4
      ensures LE32(value)[..|bytes|] == bytes
    {
      var v: nat := 0;
      for i := 0 to |bytes|
        invariant v == LittleEndian(bytes, i)
      {
        v := v + bytes[i] as nat * Weight(i);
      }
      LittleEndianBytes(bytes);
      value := v;
    }

    /** Writes the header and the name of a value. */
    method WriteKeyValue(cellOffset: u32, name: seq<byte>, dataType: u32, storedSize: u32, storedOffset: u32,
                         ghost rec: ValRec, ghost before: Cells, ghost size: nat)
      requires HeapValid() && ValuePlaced(before, cells, cellOffset, rec, size)
      requires size == CellSize(VALUE_HEADER + |name|) && rec.name == name && rec.typ == dataType
      requires |rec.data| < 0x8000_0000
      requires storedSize == if |rec.data| <= 4 then |rec.data| + DATA_IN_OFFSET else |rec.data|
      requires if |rec.data| <= 4 then LE32(storedOffset)[..|rec.data|] == rec.data else storedOffset == rec.dataCell
      modifies `data, `cells
      ensures HeapValid() && Later(old(data), data, 0)
      ensures ValueGrown(before, cells, cellOffset, rec)
    {
      hide HeapOk, Put, LE16, LE32, ValueFields, KeyValueHeader, DataOk, SameUsedOutside, ValueGrown;
      CellSizeHolds(VALUE_HEADER + |name|);
      ghost var placed, p := cells, cells[cellOffset].payload;
      var header := KeyValueHeader(|name| % 0x1_0000, storedSize, storedOffset, dataType,
                                   if Ascii(name) then VALUE_COMP_NAME else 0);
      KeyValueWritten(p, rec, storedOffset);
      WriteInCell(cellOffset, 0, header);
      WriteInCell(cellOffset, VALUE_HEADER, name);
      assert cells == SetPayload(placed, cellOffset, cells[cellOffset].payload);
      PlacedValueWritten(before, placed, cellOffset, rec, size, cells[cellOffset].payload);
    }

    /** Allocates the record of a value and, if it has more than four bytes, a cell for its data. */
    method AllocateKeyValue(name: seq<byte>, dataType: u32, bytes: seq<byte>, ghost key: u32)
      returns (r: Outcome<u32>, ghost rec: ValRec)
      requires HeapValid()
      modifies `data, `bins, `cells
      ensures r.Done? ==>
        && HeapValid() && Later(old(data), data, ValueGrowth(name, bytes))
        && ValueGrown(old(cells), cells, r.value, rec)
        && rec == ValRec(key, name, dataType, bytes, rec.dataCell)
      ensures r.Done? ==> ValueFits(name, bytes)
      ensures r.NeverReturns? ==> !ValueFits(name, bytes)
      ensures r.TooLarge? ==> !RoomFor(|old(data)| - BASE, ValueGrowth(name, bytes))
    {
      hide HeapOk, Put, LE16, LE32, CellSize, NewBinSize, FitsBin, ValueFields, KeyValueHeader, Grown, ValuePlaced;
      ghost var before := cells;
      ghost var size := CellSize(VALUE_HEADER + |name|);
      rec := ValRec(key, name, dataType, bytes, 0);
      var cellOffset: u32;
      r := Allocate(VALUE_HEADER + |name|, ValueCell);
      if !r.Done? {
        return;
      }
      cellOffset := r.value;
      var storedOffset: u32, storedSize: u32;
      if |bytes| <= 4 {
        storedOffset := InlineData(bytes);
        storedSize := |bytes| + DATA_IN_OFFSET;
        ValueInline(before, cells, cellOffset, rec, size);
      } else {
        ghost var mid := cells;
        r := Allocate(|bytes|, DataCell(cellOffset));
        if !r.Done? {
          return;
        }
        rec := rec.(dataCell := r.value);
        CellSizeHolds(|bytes|);
        ServedSize(data, bins, mid, cells, r.value, CellSize(|bytes|), DataCell(cellOffset));
        PutPrefix(cells[r.value].payload, bytes);
        WriteNew(mid, r.value, CellSize(|bytes|), DataCell(cellOffset), 0, bytes);
        ValueWithData(before, mid, cells, cellOffset, rec, size, CellSize(|bytes|));
        storedOffset := r.value;
        storedSize := |bytes|;
      }
      WriteKeyValue(cellOffset, name, dataType, storedSize, storedOffset, rec, before, size);
      r := Done(cellOffset);
    }

    /** Allocates a list cell and writes the value offsets. */
    method CreateValuesList(valueOffsets: seq<u32>, ghost key: u32) returns (r: Outcome<u32>)
      requires HeapValid()
      modifies `data, `bins, `cells
      ensures r.Done? ==>
        && HeapValid() && Later(old(data), data, ValueListGrowth(|valueOffsets|))
        && Grown(old(cells), cells, r.value, CellSize(4 * |valueOffsets|), ValueList(key))
        && ValueListFields(cells[r.value].payload, valueOffsets)
      ensures r.Done? ==> FitsBin(CellSize(4 * |valueOffsets|))
      ensures r.NeverReturns? ==> !FitsBin(CellSize(4 * |valueOffsets|))
      ensures r.TooLarge? ==> !RoomFor(|old(data)| - BASE, ValueListGrowth(|valueOffsets|))
    {
      hide HeapOk, Put, LE32, NewBinSize, FitsBin;
      ghost var before := cells;
      var totalSize := |valueOffsets| * 4;
      var cellOffset :- Allocate(totalSize, ValueList(key));
      ghost var size, full := CellSize(totalSize), data;
      CellSizeHolds(totalSize);
      for i := 0 to |valueOffsets|
        invariant HeapValid() && Later(full, data, 0)
        invariant Grown(before, cells, cellOffset, size, ValueList(key))
        invariant ValueListPrefix(cells[cellOffset].payload, valueOffsets, i)
      {
        ValueListStep(cells[cellOffset].payload, valueOffsets, i);
        WriteNew(before, cellOffset, size, ValueList(key), i * 4, LE32(valueOffsets[i]));
      }
      return Done(cellOffset);
    }

    /** Replaces a value list by one with one more offset at the end. */
    method ExtendValuesList(keyOffset: u32, listOffset: u32, newValueOffset: u32) returns (r: Outcome<u32>)
      requires HeapValid() && keyOffset in keys && KeyOk(cells, keys, keyOffset)
      requires listOffset == keys[keyOffset].valList && keys[keyOffset].values != []
      modifies `data, `bins, `cells
      ensures r.Done? ==>
        && HeapValid() && Later(old(data), data, ValueListGrowth(|keys[keyOffset].values| + 1))
        && Grown(Release(old(cells), listOffset), cells, r.value,
                 CellSize(4 * (|keys[keyOffset].values| + 1)), ValueList(keyOffset))
        && ValueListFields(cells[r.value].payload, keys[keyOffset].values + [newValueOffset])
      ensures r.Done? ==> |keys[keyOffset].values| < MAX_VALUES
      ensures r.NeverReturns? ==> |keys[keyOffset].values| == MAX_VALUES
      ensures r.TooLarge? ==> !RoomFor(|old(data)| - BASE, ValueListGrowth(|keys[keyOffset].values| + 1))
    {
      hide HeapOk, Put, LE32, Grown, CellSize, NewBinSize, Room, FitsBin, KeyFixed, KeyLinks, SubkeyListFields;
      ghost var before := keys[keyOffset].values;
      var keyDataAbs := BASE + keyOffset + CELL_HEADER;
      KeyLinkReads(cells[keyOffset].payload, keys[keyOffset]);
      PayloadRead(data, bins, cells, keyOffset, 36);
      var count := ReadU32(keyDataAbs + 36);
      var listDataAbs := BASE + listOffset + CELL_HEADER;
      var offsets: seq<u32> := [];
      for i := 0 to count
        invariant data == old(data) && bins == old(bins) && cells == old(cells)
        invariant |offsets| == i && offsets == before[..i]
      {
        assert ValueItem(cells[listOffset].payload, before, i);
        PayloadRead(data, bins, cells, listOffset, 4 * i);
        offsets := offsets + [ReadU32(listDataAbs + i * 4)];
      }
      assert offsets == before;
      offsets := offsets + [newValueOffset];
      ListSizes(0, |before|);
      ListSizes(0, |before| + 1);
      FreeCell(listOffset);
      r := CreateValuesList(offsets, keyOffset);
    }

    /** The list part of `add_value_to_key`: a first list, or the old one extended. */
    method RelistValues(keyOffset: u32, valuesListOffset: u32, valueOffset: u32) returns (r: Outcome<u32>)
      requires HeapValid() && keyOffset in keys && KeyOk(cells, keys, keyOffset)
      requires valuesListOffset == keys[keyOffset].valList
      modifies `data, `bins, `cells
      ensures r.Done? ==>
        && HeapValid() && Later(old(data), data, ValueListGrowth(|keys[keyOffset].values| + 1))
        && ValuesRelisted(old(cells), cells, keyOffset, keys[keyOffset], r.value,
                          keys[keyOffset].values + [valueOffset])
      ensures r.Done? ==> |keys[keyOffset].values| < MAX_VALUES
      ensures r.NeverReturns? ==> |keys[keyOffset].values| == MAX_VALUES
      ensures r.TooLarge? ==> !RoomFor(|old(data)| - BASE, ValueListGrowth(|keys[keyOffset].values| + 1))
    {
      hide HeapOk, CellSize, NewBinSize, FitsBin, KeyFields, SubkeyListFields, ValueListFields;
      ghost var k, rec, before := keyOffset, keys[keyOffset], cells;
      if valuesListOffset == NONE {
        assert rec.values == [] by {
          if rec.values != [] {
            PayloadRead(data, bins, cells, rec.valList, 0);
          }
        }
        assert rec.values + [valueOffset] == [valueOffset];
        ListSizes(0, 1);
        r := CreateValuesList([valueOffset], k);
      } else {
        r := ExtendValuesList(keyOffset, valuesListOffset, valueOffset);
        if r.Done? {
          ListMoved(before, cells, rec.valList, r.value, CellSize(4 * (|rec.values| + 1)), ValueList(k));
        }
      }
    }

    /** Hangs the value `valueOffset` into the value list of `keyOffset`. */
    method AddValueToKey(keyOffset: u32, valueOffset: u32) returns (r: Outcome<()>)
      requires HeapValid() && Records(cells, keys, vals) && NoLeak(cells, keys, vals) && keyOffset in keys
      modifies `data, `bins, `cells, `keys
      ensures r.Done? ==>
        && HeapValid() && Records(cells, keys, vals) && NoLeak(cells, keys, vals)
        && Later(old(data), data, ValueListGrowth(|old(keys)[keyOffset].values| + 1))
        && ValueAdded(old(keys), keys, keyOffset, valueOffset)
      ensures r.Done? ==> |old(keys)[keyOffset].values| < MAX_VALUES
      ensures r.NeverReturns? ==> |old(keys)[keyOffset].values| == MAX_VALUES
      ensures r.TooLarge? ==> !RoomFor(|old(data)| - BASE, ValueListGrowth(|old(keys)[keyOffset].values| + 1))
    {
      hide HeapOk, Put, LE32, CellSize, NewBinSize, FitsBin, KeyLinks, KeyFixed, Records, NoLeak, ValuesRelisted;
      ghost var k, rec, before := keyOffset, keys[keyOffset], cells;
      KeyReads(data, bins, cells, keys, vals, k);
      var keyDataAbs := BASE + keyOffset + CELL_HEADER;
      var valuesListOffset := ReadU32(keyDataAbs + 40);
      var valuesCount := ReadU32(keyDataAbs + 36);
      ghost var offsets := rec.values + [valueOffset];
      var listOffset :- RelistValues(keyOffset, valuesListOffset, valueOffset);
      ghost var relisted := cells;
      ValuesRelistedKeeps(before, cells, keys, vals, k, listOffset, offsets);
      KeyLinkReads(cells[k].payload, rec);
      ValueLinksWritten(cells[k].payload, rec, valuesCount + 1, listOffset);
      WriteInCell(keyOffset, 40, LE32(listOffset));
      WriteInCell(keyOffset, 36, LE32(valuesCount + 1));
      assert cells == SetPayload(relisted, k, cells[k].payload);
      ValuesRelinked(before, relisted, keys, vals, k, listOffset, offsets, cells[k].payload);
      keys := keys[k := rec.(values := offsets, valList := listOffset)];
      return Done(());
    }

    // ---------------------------------------------------------------- operations

    /** Creates a subkey and returns its handle. */
    method CreateSubkey(parent: KeyHandle, name: seq<byte>) returns (r: Outcome<KeyHandle>)
      requires Valid() && parent.offset in keys
      modifies `data, `bins, `cells, `keys
      ensures r.Done? ==>
        && Valid() && SubkeyCreated(old(keys), keys, parent.offset, r.value.offset, name)
        && Later(old(data), data, KeyGrowth(name) + SubkeyListGrowth(|old(keys)[parent.offset].subkeys| + 1))
      ensures r.Done? ==> KeyFits(name) && |old(keys)[parent.offset].subkeys| < MAX_SUBKEYS
      ensures r.NeverReturns? ==> !(KeyFits(name) && |old(keys)[parent.offset].subkeys| < MAX_SUBKEYS)
      ensures r.TooLarge? ==>
        !RoomFor(|old(data)| - BASE, KeyGrowth(name) + SubkeyListGrowth(|old(keys)[parent.offset].subkeys| + 1))
    {
      hide HeapOk, CellSize, NewBinSize, FitsBin, Records, NoLeak, Graph, KeyFields, NameHash, SortByHash, BaseFields,
           SameBase;
      ghost var keys0, cells0, data0 := keys, cells, data;
      var keyOffset :- AllocateKeyNode(name, parent.offset, KEY_COMP_NAME, |keys|);
      ghost var data1 := data;
      ServedSize(data, bins, cells0, cells, keyOffset, CellSize(KEY_HEADER + |name|), KeyCell);
      CellSizeHolds(KEY_HEADER + |name|);
      KeyJoins(cells0, cells, keys, vals, keyOffset, CellSize(KEY_HEADER + |name|),
               NewKey(name, KEY_COMP_NAME, parent.offset, |keys|));
      keys := keys[keyOffset := NewKey(name, KEY_COMP_NAME, parent.offset, |keys|)];
      assert keys[parent.offset] == keys0[parent.offset];
      var _ :- AddSubkeyToParent(parent.offset, keyOffset, name);
      GraphGrows(keys0, keys, vals, rootKeyOffset, parent.offset, keyOffset, name, KEY_COMP_NAME, 2 * |name|);
      LaterTransitive(data0, data1, data, KeyGrowth(name), SubkeyListGrowth(|keys0[parent.offset].subkeys| + 1));
      BaseFieldsKept(data0, data, rootKeyOffset, sequenceNumber);
      return Done(KeyHandle(keyOffset));
    }

    /** Appends a value to a key. An existing value of the same name stays. */
    method SetValueInternal(key: KeyHandle, name: seq<byte>, dataType: u32, bytes: seq<byte>)
      returns (r: Outcome<()>, ghost v: u32)
      requires Valid() && key.offset in keys
      modifies `data, `bins, `cells, `keys, `vals
      ensures r.Done? ==>
        Valid() && ValueSet(old(data), old(keys), old(vals), data, keys, vals, key.offset, v, name, dataType, bytes)
      ensures r.Done? ==> ValueServed(old(keys), key.offset, name, bytes)
      ensures r.NeverReturns? ==> !ValueServed(old(keys), key.offset, name, bytes)
      ensures r.TooLarge? ==> !ValueRoom(old(data), old(keys), key.offset, name, bytes)
    {
      hide HeapOk, CellSize, NewBinSize, FitsBin, Records, NoLeak, Graph, BaseFields, SameBase, ValueGrown;
      ghost var keys0, vals0, cells0, data0 := keys, vals, cells, data;
      v := 0;
      var alloc: Outcome<u32>;
      ghost var rec;
      alloc, rec := AllocateKeyValue(name, dataType, bytes, key.offset);
      if !alloc.Done? {
        r := alloc.PropagateFailure();
        return;
      }
      var valueOffset := alloc.value;
      v := valueOffset;
      ghost var data1 := data;
      ValueJoins(cells0, cells, keys, vals, v, rec);
      vals := vals[v := rec];
      r := AddValueToKey(key.offset, valueOffset);
      if r.Done? {
        GraphGainsValue(keys0, keys, vals0, rootKeyOffset, key.offset, v, rec);
        LaterTransitive(data0, data1, data, ValueGrowth(name, bytes), ValueListGrowth(|keys0[key.offset].values| + 1));
        BaseFieldsKept(data0, data, rootKeyOffset, sequenceNumber);
      }
    }

    method SetDword(key: KeyHandle, name: seq<byte>, value: u32) returns (r: Outcome<()>, ghost v: u32)
      requires Valid() && key.offset in keys
      modifies `data, `bins, `cells, `keys, `vals
      ensures r.Done? ==>
        Valid() && ValueSet(old(data), old(keys), old(vals), data, keys, vals, key.offset, v, name, 4, LE32(value))
      ensures r.Done? ==> ValueServed(old(keys), key.offset, name, LE32(value))
      ensures r.NeverReturns? ==> !ValueServed(old(keys), key.offset, name, LE32(value))
      ensures r.TooLarge? ==> !ValueRoom(old(data), old(keys), key.offset, name, LE32(value))
    {
      r, v := SetValueInternal(key, name, 4, LE32(value));
    }

    method SetQword(key: KeyHandle, name: seq<byte>, value: u64) returns (r: Outcome<()>, ghost v: u32)
      requires Valid() && key.offset in keys
      modifies `data, `bins, `cells, `keys, `vals
      ensures r.Done? ==>
        Valid() && ValueSet(old(data), old(keys), old(vals), data, keys, vals, key.offset, v, name, 11, LE64(value))
      ensures r.Done? ==> ValueServed(old(keys), key.offset, name, LE64(value))
      ensures r.NeverReturns? ==> !ValueServed(old(keys), key.offset, name, LE64(value))
      ensures r.TooLarge? ==> !ValueRoom(old(data), old(keys), key.offset, name, LE64(value))
    {
      r, v := SetValueInternal(key, name, 11, LE64(value));
    }

    // ---------------------------------------------------------------- finishing

    /** Sets the sequence numbers and the checksum and hands out the bytes. */
    method Build() returns (bytes: seq<byte>)
      requires Valid() && sequenceNumber < 0xFFFF_FFFF
      modifies `data, `sequenceNumber
      ensures bytes == data && Valid() && |data| == |old(data)|
      ensures sequenceNumber == old(sequenceNumber) + 1
      ensures Get32(bytes, 508) == HiveReading.Checksum(bytes)
    {
      hide LE32, Get32, HeapOk, BaseFields, Records, NoLeak, Graph, HiveReading.Checksum;
      BaseLength(data, bins, cells, rootKeyOffset, sequenceNumber);
      FinishedValid(data, bins, cells, rootKeyOffset, sequenceNumber, sequenceNumber + 1);
      sequenceNumber := sequenceNumber + 1;
      WriteU32(4, sequenceNumber);
      WriteU32(8, sequenceNumber);
      var checksum := ComputeChecksum();
      WriteU32(508, checksum);
      bytes := data;
    }

    method ComputeChecksum() returns (checksum: u32)
      requires |data| >= 508
      ensures checksum == HiveReading.Checksum(data)
    {
      hide Xor32, Get32;
      checksum := 0;
      for i := 0 to 127
        invariant checksum == HiveReading.XorWords(data, i)
      {
        var dword := ReadU32(4 * i);
        checksum := Xor32(checksum, dword);
      }
      if checksum == 0 {
        checksum := 1;
      } else if checksum == 0xFFFF_FFFF {
        checksum := 0xFFFF_FFFE;
      }
    }
  }

  /** `compute_name_hash` walks the characters from the first to the last. */
  method ComputeNameHash(name: seq<byte>) returns (hash: u32)
    ensures hash == NameHash(name)
  {
    hash := 0;
    var chars := Chars(name);
    for i := 0 to |chars|
      invariant hash == Hash(chars[..i])
    {
      assert chars[..i + 1][..i] == chars[..i];
      hash := (hash * 37 + UpperChar(chars[i])) % U32_END;
    }
    assert chars[..|chars|] == chars;
  }
}
