/**
 The registry hive as a heap: bins that tile the buffer, cells that tile each bin.

 `Bins` and `Cells` describe a buffer abstractly; `Shape` says they form a tiling and `Image`
 says that a byte buffer holds exactly this tiling. All offsets are relative to the end of the
 4096-byte base block, as they are inside a hive file.
 */
module HiveHeap {
  import opened Bytes

  const BASE: nat := 4096
  const BIN_SIZE: nat := 4096
  const BIN_HEADER: nat := 32
  const CELL_HEADER: nat := 4
  const NONE: u32 := 0xFFFF_FFFF
  const MAX_DATA: nat := 0xFFFF_F000
  const MAX_BIN: nat := 0x8000_0000
  const MAX_FREE: nat := 4064

  /** What a cell is used for. The owner in the tag makes cells of different records distinct. */
  datatype Tag = Free | KeyCell | ValueCell | DataCell(value: nat) | SubkeyList(key: nat) | ValueList(key: nat)

  /** A cell of `size` bytes, 4 of them its header, inside the bin at `bin`. */
  datatype Cell = Cell(size: nat, bin: nat, tag: Tag, payload: seq<byte>)

  type Bins = map<nat, nat>
  type Cells = map<nat, Cell>

  function AlignCell(n: nat): (r: nat)
    ensures r % 8 == 0 && n <= r < n + 8
  {
    (n + 7) / 8 * 8
  }

  /** The size of a cell that can hold `n` bytes of data. */
  function CellSize(n: nat): nat {
    AlignCell(CELL_HEADER + n)
  }

  /** The cell size is the least multiple of 8 that holds the header and the data. */
  lemma CellSizeHolds(n: nat)
    ensures n <= CellSize(n) - CELL_HEADER && CellSize(n) % 8 == 0 && CellSize(n) >= 8
    ensures forall size: nat {:trigger size % 8} :: size % 8 == 0 && CELL_HEADER + n <= size ==> CellSize(n) <= size
  {
  }

  /** The size of the bin that `extend_hive` appends: the header is not counted in. */
  function NewBinSize(required: nat): nat {
    (required + BIN_SIZE - 1) / BIN_SIZE * BIN_SIZE
  }

  /** A request for which a freshly appended bin is large enough. */
  predicate FitsBin(required: nat) {
    required % BIN_SIZE != 0 && required % BIN_SIZE <= MAX_FREE
  }

  /** `FitsBin` is exactly the case in which the new bin can hold the cell beside its header. */
  lemma FitsBinIff(required: nat)
    requires required > 0
    ensures FitsBin(required) <==> required <= NewBinSize(required) - BIN_HEADER
    ensures NewBinSize(required) % BIN_SIZE == 0 && NewBinSize(required) >= BIN_SIZE
    ensures NewBinSize(required) - BIN_SIZE < required <= NewBinSize(required)
  {
    var q, m := required / BIN_SIZE, required % BIN_SIZE;
    assert required == q * BIN_SIZE + m;
    if m == 0 {
      assert (required + BIN_SIZE - 1) / BIN_SIZE == q;
    } else {
      assert (required + BIN_SIZE - 1) / BIN_SIZE == q + 1;
    }
  }

  // ------------------------------------------------------------------ shape

  ghost predicate BinShape(bins: Bins, cells: Cells, len: nat, b: nat)
    requires b in bins
  {
    && BIN_SIZE <= bins[b] <= MAX_BIN
    && (b + bins[b] in bins || b + bins[b] == len)
    && b + bins[b] <= len
    && b + BIN_HEADER in cells && cells[b + BIN_HEADER].bin == b
  }

  ghost predicate CellShape(bins: Bins, cells: Cells, c: nat)
    requires c in cells
  {
    var cell := cells[c];
    && cell.bin in bins
    && cell.bin + BIN_HEADER <= c
    && 8 <= cell.size < 0x8000_0000
    && c + cell.size <= cell.bin + bins[cell.bin]
    && (c + cell.size == cell.bin + bins[cell.bin]
        || (c + cell.size in cells && cells[c + cell.size].bin == cell.bin))
    && |cell.payload| == cell.size - CELL_HEADER
  }

  ghost predicate BinsApart(bins: Bins, b: nat, b': nat)
    requires b in bins && b' in bins
  {
    (b < b' ==> b + bins[b] <= b') && (b' < b ==> b' + bins[b'] <= b)
  }

  ghost predicate CellsApart(cells: Cells, c: nat, c': nat)
    requires c in cells && c' in cells
  {
    (c < c' ==> c + cells[c].size <= c') && (c' < c ==> c' + cells[c'].size <= c)
  }

  /** Bins tile the `len` bytes after the base block and cells tile every bin after its header. */
  ghost predicate Shape(bins: Bins, cells: Cells, len: nat) {
    && 0 in bins && len <= MAX_DATA
    && (forall b {:trigger BinShape(bins, cells, len, b)} :: b in bins ==> BinShape(bins, cells, len, b))
    && (forall c {:trigger CellShape(bins, cells, c)} :: c in cells ==> CellShape(bins, cells, c))
    && (forall b, b' {:trigger BinsApart(bins, b, b')} :: b in bins && b' in bins ==> BinsApart(bins, b, b'))
    && (forall c, c' {:trigger CellsApart(cells, c, c')} :: c in cells && c' in cells ==> CellsApart(cells, c, c'))
  }

  /** Bins start and end at multiples of 4096, cells at multiples of 8. */
  ghost predicate Aligned(bins: Bins, cells: Cells, len: nat) {
    && len % BIN_SIZE == 0
    && (forall b {:trigger BinAligned(bins, b)} :: b in bins ==> BinAligned(bins, b))
    && (forall c {:trigger CellAligned(cells, c)} :: c in cells ==> CellAligned(cells, c))
  }

  predicate BinAligned(bins: Bins, b: nat)
    requires b in bins
  {
    b % BIN_SIZE == 0 && bins[b] % BIN_SIZE == 0
  }

  predicate CellAligned(cells: Cells, c: nat)
    requires c in cells
  {
    c % 8 == 0 && cells[c].size % 8 == 0
  }

  /** No free cell is larger than the one in an empty 4096-byte bin. */
  ghost predicate SmallFree(cells: Cells) {
    forall c :: c in cells && cells[c].tag.Free? ==> cells[c].size <= MAX_FREE
  }

  // ------------------------------------------------------------------ image

  function SizeField(cell: Cell): int {
    if cell.tag.Free? then cell.size as int else -(cell.size as int)
  }

  ghost predicate CellImage(data: seq<byte>, c: nat, cell: Cell) {
    && CELL_HEADER <= cell.size && BASE + c + cell.size <= |data|
    && GetI32(data, BASE + c) == SizeField(cell)
    && data[BASE + c + CELL_HEADER..BASE + c + cell.size] == cell.payload
  }

  const HBIN: seq<byte> := [0x68, 0x62, 0x69, 0x6E]

  ghost predicate BinImage(data: seq<byte>, b: nat, size: nat) {
    && BASE + b + BIN_HEADER <= |data|
    && data[BASE + b..BASE + b + 4] == HBIN
    && Get32(data, BASE + b + 4) == b
    && Get32(data, BASE + b + 8) == size
  }

  ghost predicate Image(data: seq<byte>, bins: Bins, cells: Cells) {
    && (forall b {:trigger BinImage(data, b, bins[b])} :: b in bins ==> BinImage(data, b, bins[b]))
    && (forall c {:trigger CellImage(data, c, cells[c])} :: c in cells ==> CellImage(data, c, cells[c]))
  }

  /** The buffer `data`, base block included, holds the heap described by `bins` and `cells`. */
  ghost predicate Heap(data: seq<byte>, bins: Bins, cells: Cells) {
    && |data| >= BASE
    && Shape(bins, cells, |data| - BASE)
    && Image(data, bins, cells)
  }

  lemma CellImageFrame(data: seq<byte>, data': seq<byte>, c: nat, cell: Cell)
    requires CellImage(data, c, cell) && BASE + c + cell.size <= |data'|
    requires forall j :: BASE + c <= j < BASE + c + cell.size ==> data'[j] == data[j]
    ensures CellImage(data', c, cell)
  {
    SliceEq(data', data, BASE + c + CELL_HEADER, BASE + c + cell.size);
  }

  lemma BinImageFrame(data: seq<byte>, data': seq<byte>, b: nat, size: nat)
    requires BinImage(data, b, size) && BASE + b + BIN_HEADER <= |data'|
    requires forall j :: BASE + b <= j < BASE + b + BIN_HEADER ==> data'[j] == data[j]
    ensures BinImage(data', b, size)
  {
    SliceEq(data', data, BASE + b, BASE + b + 4);
  }

  /** A bin header never overlaps a cell. */
  lemma BinCellDisjoint(bins: Bins, cells: Cells, len: nat, b: nat, c: nat)
    requires Shape(bins, cells, len) && b in bins && c in cells
    ensures c + cells[c].size <= b || b + BIN_HEADER <= c
  {
    assert CellShape(bins, cells, c);
    assert BinShape(bins, cells, len, b);
    assert BinShape(bins, cells, len, cells[c].bin);
    assert BinsApart(bins, b, cells[c].bin);
  }

  /** A write that stays inside one cell leaves the image of everything else alone. */
  lemma FrameOutsideCell(data: seq<byte>, data': seq<byte>, bins: Bins, cells: Cells, c: nat)
    requires Heap(data, bins, cells) && c in cells && |data'| == |data|
    requires forall j :: 0 <= j < |data| && !(BASE + c <= j < BASE + c + cells[c].size) ==> data'[j] == data[j]
    ensures forall b {:trigger BinImage(data', b, bins[b])} :: b in bins ==> BinImage(data', b, bins[b])
    ensures forall d {:trigger CellImage(data', d, cells[d])} :: d in cells && d != c ==> CellImage(data', d, cells[d])
  {
    var len := |data| - BASE;
    forall b {:trigger BinImage(data', b, bins[b])} | b in bins
      ensures BinImage(data', b, bins[b])
    {
      assert BinShape(bins, cells, len, b);
      assert BinImage(data, b, bins[b]);
      BinCellDisjoint(bins, cells, len, b, c);
      BinImageFrame(data, data', b, bins[b]);
    }
    forall d {:trigger CellImage(data', d, cells[d])} | d in cells && d != c
      ensures CellImage(data', d, cells[d])
    {
      assert CellImage(data, d, cells[d]) && CellsApart(cells, c, d) && CellShape(bins, cells, c);
      CellImageFrame(data, data', d, cells[d]);
    }
  }

  /** A write to the base block leaves the heap alone. */
  lemma FrameBase(data: seq<byte>, data': seq<byte>, bins: Bins, cells: Cells)
    requires Heap(data, bins, cells) && |data'| == |data|
    requires forall j :: BASE <= j < |data| ==> data'[j] == data[j]
    ensures Heap(data', bins, cells)
  {
    forall b {:trigger BinImage(data', b, bins[b])} | b in bins
      ensures BinImage(data', b, bins[b])
    {
      assert BinImage(data, b, bins[b]);
      BinImageFrame(data, data', b, bins[b]);
    }
    forall c {:trigger CellImage(data', c, cells[c])} | c in cells
      ensures CellImage(data', c, cells[c])
    {
      assert CellImage(data, c, cells[c]);
      CellImageFrame(data, data', c, cells[c]);
    }
  }

  // ------------------------------------------------------------------ writing inside a cell

  function WriteCell(cells: Cells, c: nat, at: nat, b: seq<byte>): Cells
    requires c in cells && at + |b| <= |cells[c].payload|
  {
    cells[c := cells[c].(payload := Put(cells[c].payload, at, b))]
  }

  lemma WriteCellImage(data: seq<byte>, c: nat, cell: Cell, at: nat, b: seq<byte>)
    requires CellImage(data, c, cell) && at + |b| <= |cell.payload|
    ensures BASE + c + CELL_HEADER + at + |b| <= |data|
    ensures CellImage(Put(data, BASE + c + CELL_HEADER + at, b), c, cell.(payload := Put(cell.payload, at, b)))
  {
    var start := BASE + c + CELL_HEADER;
    var data' := Put(data, start + at, b);
    var p' := data'[start..BASE + c + cell.size];
    forall j | 0 <= j < |p'|
      ensures p'[j] == Put(cell.payload, at, b)[j]
    {
      assert cell.payload[j] == data[start + j];
    }
    assert p' == Put(cell.payload, at, b);
  }

  lemma WriteCellHeap(data: seq<byte>, bins: Bins, cells: Cells, c: nat, at: nat, b: seq<byte>)
    requires Heap(data, bins, cells) && c in cells && at + |b| <= |cells[c].payload|
    ensures BASE + c + CELL_HEADER + at + |b| <= |data|
    ensures Heap(Put(data, BASE + c + CELL_HEADER + at, b), bins, WriteCell(cells, c, at, b))
  {
    assert CellShape(bins, cells, c) && CellImage(data, c, cells[c]);
    WriteCellImage(data, c, cells[c], at, b);
    FrameOutsideCell(data, Put(data, BASE + c + CELL_HEADER + at, b), bins, cells, c);
    SameShape(bins, cells, WriteCell(cells, c, at, b), |data| - BASE);
  }

  /** The shape depends only on where the cells are, not on their use or contents. */
  ghost predicate SameLayout(cells: Cells, cells': Cells) {
    && cells'.Keys == cells.Keys
    && forall c {:trigger SameCell(cells, cells', c)} :: c in cells ==> SameCell(cells, cells', c)
  }

  ghost predicate SameCell(cells: Cells, cells': Cells, c: nat)
    requires c in cells && c in cells'
  {
    && cells'[c].size == cells[c].size && cells'[c].bin == cells[c].bin
    && |cells'[c].payload| == |cells[c].payload|
  }

  lemma SameShape(bins: Bins, cells: Cells, cells': Cells, len: nat)
    requires Shape(bins, cells, len) && SameLayout(cells, cells')
    ensures Shape(bins, cells', len)
  {
    forall b {:trigger BinShape(bins, cells', len, b)} | b in bins
      ensures BinShape(bins, cells', len, b)
    {
      assert BinShape(bins, cells, len, b);
      assert SameCell(cells, cells', b + BIN_HEADER);
    }
    forall c {:trigger CellShape(bins, cells', c)} | c in cells'
      ensures CellShape(bins, cells', c)
    {
      assert CellShape(bins, cells, c) && SameCell(cells, cells', c);
      var d := c + cells[c].size;
      assert d in cells ==> SameCell(cells, cells', d);
    }
    forall c, c' {:trigger CellsApart(cells', c, c')} | c in cells' && c' in cells'
      ensures CellsApart(cells', c, c')
    {
      assert CellsApart(cells, c, c') && SameCell(cells, cells', c) && SameCell(cells, cells', c');
    }
  }

  // ------------------------------------------------------------------ freeing

  function Release(cells: Cells, c: nat): Cells
    requires c in cells
  {
    cells[c := cells[c].(tag := Free)]
  }

  lemma ReleaseImage(data: seq<byte>, c: nat, cell: Cell)
    requires CellImage(data, c, cell) && 4 <= cell.size < 0x8000_0000
    ensures CellImage(Put(data, BASE + c, LE32(cell.size)), c, cell.(tag := Free))
  {
    var data' := Put(data, BASE + c, LE32(cell.size));
    PutGet32(data, BASE + c, cell.size);
    SliceEq(data', data, BASE + c + CELL_HEADER, BASE + c + cell.size);
  }

  lemma ReleaseHeap(data: seq<byte>, bins: Bins, cells: Cells, c: nat)
    requires Heap(data, bins, cells) && c in cells && !cells[c].tag.Free?
    ensures BASE + c + 4 <= |data| && GetI32(data, BASE + c) == -(cells[c].size as int)
    ensures 0 < cells[c].size < 0x8000_0000
    ensures Heap(Put(data, BASE + c, LE32(cells[c].size)), bins, Release(cells, c))
  {
    assert CellShape(bins, cells, c) && CellImage(data, c, cells[c]);
    ReleaseImage(data, c, cells[c]);
    FrameOutsideCell(data, Put(data, BASE + c, LE32(cells[c].size)), bins, cells, c);
    SameShape(bins, cells, Release(cells, c), |data| - BASE);
  }

  // ------------------------------------------------------------------ allocating

  predicate FreeFor(cells: Cells, c: nat, required: nat) {
    c in cells && cells[c].tag.Free? && cells[c].size >= required
  }

  /** The first `required` bytes of the free cell `c` become a used cell, the rest stays a free one. */
  function Take(cells: Cells, c: nat, required: nat, tag: Tag): Cells
    requires FreeFor(cells, c, required) && required >= 8 && |cells[c].payload| == cells[c].size - CELL_HEADER
    requires cells[c].size == required || cells[c].size - required >= 8
  {
    var cell := cells[c];
    var used := Cell(required, cell.bin, tag, cell.payload[..required - CELL_HEADER]);
    if cell.size == required then cells[c := used]
    else cells[c := used][c + required := Cell(cell.size - required, cell.bin, Free, cell.payload[required..])]
  }

  lemma TakeShape(bins: Bins, cells: Cells, len: nat, c: nat, required: nat, tag: Tag)
    requires Shape(bins, cells, len) && FreeFor(cells, c, required) && CellShape(bins, cells, c)
    requires required >= 8 && (cells[c].size == required || cells[c].size - required >= 8)
    ensures c + required !in cells || cells[c].size == required
    ensures Shape(bins, Take(cells, c, required, tag), len)
  {
    assert c + required in cells ==> CellsApart(cells, c, c + required);
    var cells' := Take(cells, c, required, tag);
    forall b {:trigger BinShape(bins, cells', len, b)} | b in bins
      ensures BinShape(bins, cells', len, b)
    {
      assert BinShape(bins, cells, len, b);
    }
    forall d {:trigger CellShape(bins, cells', d)} | d in cells'
      ensures CellShape(bins, cells', d)
    {
      if d in cells {
        assert CellShape(bins, cells, d);
      }
    }
    forall d, d' {:trigger CellsApart(cells', d, d')} | d in cells' && d' in cells'
      ensures CellsApart(cells', d, d')
    {
      TakeApart(bins, cells, len, c, required, tag, d, d');
    }
  }

  lemma TakeApart(bins: Bins, cells: Cells, len: nat, c: nat, required: nat, tag: Tag, d: nat, d': nat)
    requires Shape(bins, cells, len) && FreeFor(cells, c, required) && CellShape(bins, cells, c)
    requires required >= 8 && (cells[c].size == required || cells[c].size - required >= 8)
    requires d in Take(cells, c, required, tag) && d' in Take(cells, c, required, tag)
    ensures CellsApart(Take(cells, c, required, tag), d, d')
  {
    assert d in cells && d' in cells ==> CellsApart(cells, d, d');
    assert d in cells ==> CellsApart(cells, d, c) && CellShape(bins, cells, d);
    assert d' in cells ==> CellsApart(cells, c, d') && CellShape(bins, cells, d');
  }

  /** The buffer after `allocate_cell` marked the found cell and, if there is one, its remainder. */
  function TakeBytes(data: seq<byte>, c: nat, size: nat, required: nat): seq<byte>
    requires 8 <= required <= size < 0x8000_0000 && BASE + c + size <= |data|
    requires size - required == 0 || size - required >= 8
  {
    var marked := Put(data, BASE + c, LE32(Unsigned32(-(required as int))));
    if size == required then marked else Put(marked, BASE + c + required, LE32(size - required))
  }

  lemma TakeImageUsed(data: seq<byte>, c: nat, cell: Cell, required: nat, tag: Tag)
    requires CellImage(data, c, cell) && 8 <= required <= cell.size < 0x8000_0000 && !tag.Free?
    requires cell.size == required || cell.size - required >= 8
    requires |cell.payload| == cell.size - CELL_HEADER
    ensures CellImage(TakeBytes(data, c, cell.size, required), c,
                      Cell(required, cell.bin, tag, cell.payload[..required - CELL_HEADER]))
  {
    hide LE32;
    var field := Unsigned32(-(required as int));
    var marked := Put(data, BASE + c, LE32(field));
    PutGet32(data, BASE + c, field);
    var start, end := BASE + c + CELL_HEADER, BASE + c + required;
    PutMiss(data, BASE + c, LE32(field), start, end);
    assert data[start..end] == data[start..BASE + c + cell.size][..required - CELL_HEADER];
    if cell.size != required {
      PutMiss(marked, end, LE32(cell.size - required), start, end);
    }
  }

  lemma TakeImageRest(data: seq<byte>, c: nat, cell: Cell, required: nat)
    requires CellImage(data, c, cell) && 8 <= required < cell.size < 0x8000_0000
    requires cell.size - required >= 8
    requires |cell.payload| == cell.size - CELL_HEADER
    ensures CellImage(TakeBytes(data, c, cell.size, required), c + required,
                      Cell(cell.size - required, cell.bin, Free, cell.payload[required..]))
  {
    hide LE32;
    var field := LE32(Unsigned32(-(required as int)));
    var marked := Put(data, BASE + c, field);
    var start, end := BASE + c + required, BASE + c + cell.size;
    PutGet32(marked, start, cell.size - required);
    PutMiss(data, BASE + c, field, start + CELL_HEADER, end);
    PutMiss(marked, start, LE32(cell.size - required), start + CELL_HEADER, end);
    assert data[start + CELL_HEADER..end] == data[BASE + c + CELL_HEADER..end][required..];
  }

  /** Sizes are multiples of 8, so a remainder is never too small to become a cell of its own. */
  lemma RemainderFits(bins: Bins, cells: Cells, len: nat, c: nat, required: nat)
    requires Aligned(bins, cells, len) && FreeFor(cells, c, required) && required % 8 == 0
    ensures cells[c].size == required || cells[c].size - required >= 8
  {
    assert CellAligned(cells, c);
    SplitAligned(c, cells[c].size, required);
  }

  lemma TakeHeap(data: seq<byte>, bins: Bins, cells: Cells, c: nat, required: nat, tag: Tag)
    requires Heap(data, bins, cells) && FreeFor(cells, c, required) && !tag.Free?
    requires required >= 8 && (cells[c].size == required || cells[c].size - required >= 8)
    ensures CellShape(bins, cells, c) && CellImage(data, c, cells[c])
    ensures Heap(TakeBytes(data, c, cells[c].size, required), bins, Take(cells, c, required, tag))
  {
    var cell := cells[c];
    assert CellShape(bins, cells, c) && CellImage(data, c, cell);
    TakeShape(bins, cells, |data| - BASE, c, required, tag);
    TakeImageUsed(data, c, cell, required, tag);
    if cell.size != required {
      TakeImageRest(data, c, cell, required);
    }
    var data' := TakeBytes(data, c, cell.size, required);
    FrameOutsideCell(data, data', bins, cells, c);
    var cells' := Take(cells, c, required, tag);
    forall d {:trigger CellImage(data', d, cells'[d])} | d in cells'
      ensures CellImage(data', d, cells'[d])
    {
      assert d == c || d == c + required || (d in cells && cells'[d] == cells[d]);
    }
  }

  // ------------------------------------------------------------------ extending

  function ExtendBins(bins: Bins, len: nat, size: nat): Bins {
    bins[len := size]
  }

  function ExtendCells(cells: Cells, len: nat, size: nat): Cells
    requires size >= BIN_SIZE
  {
    cells[len + BIN_HEADER := Cell(size - BIN_HEADER, len, Free, Zeros(size - BIN_HEADER - CELL_HEADER))]
  }

  lemma ExtendBound(bins: Bins, cells: Cells, len: nat)
    requires Shape(bins, cells, len)
    ensures forall b :: b in bins ==> b < len
    ensures forall c :: c in cells ==> c + cells[c].size <= len
  {
    forall b | b in bins
      ensures b < len
    {
      assert BinShape(bins, cells, len, b);
    }
    forall c | c in cells
      ensures c + cells[c].size <= len
    {
      assert CellShape(bins, cells, c) && BinShape(bins, cells, len, cells[c].bin);
    }
  }

  lemma ExtendBinShape(bins: Bins, cells: Cells, len: nat, size: nat, b: nat)
    requires Shape(bins, cells, len) && b in ExtendBins(bins, len, size)
    requires BIN_SIZE <= size <= MAX_BIN
    ensures BinShape(ExtendBins(bins, len, size), ExtendCells(cells, len, size), len + size, b)
  {
    ExtendBound(bins, cells, len);
    if b != len {
      assert BinShape(bins, cells, len, b);
    }
  }

  lemma ExtendCellShape(bins: Bins, cells: Cells, len: nat, size: nat, c: nat)
    requires BIN_SIZE <= size <= MAX_BIN
    requires Shape(bins, cells, len) && c in ExtendCells(cells, len, size)
    ensures CellShape(ExtendBins(bins, len, size), ExtendCells(cells, len, size), c)
  {
    ExtendBound(bins, cells, len);
    if c in cells {
      assert CellShape(bins, cells, c);
    }
  }

  lemma BinOffsetsAligned(len: nat, size: nat)
    requires len % BIN_SIZE == 0 && size % BIN_SIZE == 0
    ensures (len + BIN_HEADER) % 8 == 0 && (size - BIN_HEADER) % 8 == 0 && (len + size) % BIN_SIZE == 0
  {
    var p, q := len / BIN_SIZE, size / BIN_SIZE;
    assert len == 8 * (512 * p) && size == 8 * (512 * q);
    assert len + BIN_HEADER == 8 * (512 * p + 4) && size - BIN_HEADER == 8 * (512 * q - 4);
    assert len + size == BIN_SIZE * (p + q);
  }

  lemma ExtendAligned(bins: Bins, cells: Cells, len: nat, size: nat)
    requires Aligned(bins, cells, len) && size % BIN_SIZE == 0 && size >= BIN_SIZE
    ensures Aligned(ExtendBins(bins, len, size), ExtendCells(cells, len, size), len + size)
  {
    BinOffsetsAligned(len, size);
    var bins', cells' := ExtendBins(bins, len, size), ExtendCells(cells, len, size);
    forall b {:trigger BinAligned(bins', b)} | b in bins'
      ensures BinAligned(bins', b)
    {
      assert b in bins ==> BinAligned(bins, b);
    }
    forall c {:trigger CellAligned(cells', c)} | c in cells'
      ensures CellAligned(cells', c)
    {
      assert c in cells ==> CellAligned(cells, c);
    }
  }

  lemma SplitAligned(c: nat, size: nat, required: nat)
    requires c % 8 == 0 && size % 8 == 0 && required % 8 == 0 && required <= size
    ensures (c + required) % 8 == 0 && (size - required) % 8 == 0
  {
  }

  lemma TakeAligned(bins: Bins, cells: Cells, len: nat, c: nat, required: nat, tag: Tag)
    requires Aligned(bins, cells, len) && FreeFor(cells, c, required) && required % 8 == 0
    requires required >= 8 && |cells[c].payload| == cells[c].size - CELL_HEADER
    requires cells[c].size == required || cells[c].size - required >= 8
    ensures Aligned(bins, Take(cells, c, required, tag), len)
  {
    assert CellAligned(cells, c);
    SplitAligned(c, cells[c].size, required);
    var cells' := Take(cells, c, required, tag);
    forall d {:trigger CellAligned(cells', d)} | d in cells'
      ensures CellAligned(cells', d)
    {
      assert d in cells ==> CellAligned(cells, d);
    }
  }

  lemma SameAligned(bins: Bins, cells: Cells, cells': Cells, len: nat)
    requires Aligned(bins, cells, len) && SameLayout(cells, cells')
    ensures Aligned(bins, cells', len)
  {
    forall c {:trigger CellAligned(cells', c)} | c in cells'
      ensures CellAligned(cells', c)
    {
      assert CellAligned(cells, c) && SameCell(cells, cells', c);
    }
  }

  lemma ExtendShape(bins: Bins, cells: Cells, len: nat, size: nat)
    requires Shape(bins, cells, len)
    requires BIN_SIZE <= size <= MAX_BIN && len + size <= MAX_DATA
    ensures Shape(ExtendBins(bins, len, size), ExtendCells(cells, len, size), len + size)
  {
    ExtendBound(bins, cells, len);
    var bins', cells' := ExtendBins(bins, len, size), ExtendCells(cells, len, size);
    forall b {:trigger BinShape(bins', cells', len + size, b)} | b in bins'
      ensures BinShape(bins', cells', len + size, b)
    {
      ExtendBinShape(bins, cells, len, size, b);
    }
    forall c {:trigger CellShape(bins', cells', c)} | c in cells'
      ensures CellShape(bins', cells', c)
    {
      ExtendCellShape(bins, cells, len, size, c);
    }
    forall b, b' {:trigger BinsApart(bins', b, b')} | b in bins' && b' in bins'
      ensures BinsApart(bins', b, b')
    {
      assert b in bins ==> BinShape(bins, cells, len, b);
      assert b' in bins ==> BinShape(bins, cells, len, b');
      assert b in bins && b' in bins ==> BinsApart(bins, b, b');
    }
    forall c, c' {:trigger CellsApart(cells', c, c')} | c in cells' && c' in cells'
      ensures CellsApart(cells', c, c')
    {
      assert c in cells && c' in cells ==> CellsApart(cells, c, c');
    }
  }

  /** The bytes that `extend_hive` appends. */
  function NewBin(len: nat, size: nat): (r: seq<byte>)
    requires BIN_SIZE <= size <= MAX_BIN && len <= MAX_DATA
    ensures |r| == size
  {
    HBIN + LE32(len) + LE32(size) + Zeros(20) + LE32(size - BIN_HEADER) + Zeros(size - BIN_HEADER - CELL_HEADER)
  }

  lemma NewBinImage(data: seq<byte>, len: nat, size: nat)
    requires BIN_SIZE <= size <= MAX_BIN && len <= MAX_DATA && |data| == BASE + len + size
    requires data[BASE + len..] == NewBin(len, size)
    ensures BinImage(data, len, size)
    ensures |Zeros(size - BIN_HEADER - CELL_HEADER)| == size - 36
      && CellImage(data, len + BIN_HEADER, Cell(size - BIN_HEADER, len, Free, Zeros(size - BIN_HEADER - CELL_HEADER)))
  {
    var s := BASE + len;
    var n := NewBin(len, size);
    forall i | 0 <= i < size
      ensures data[s + i] == n[i]
    {
      assert data[s..][i] == n[i];
    }
    assert data[s..s + 4] == HBIN;
    assert data[s + 4..s + 8] == LE32(len);
    Get32OfLE(data, s + 4, len);
    assert data[s + 8..s + 12] == LE32(size);
    Get32OfLE(data, s + 8, size);
    assert data[s + 32..s + 36] == LE32(size - BIN_HEADER);
    Get32OfLE(data, s + 32, size - BIN_HEADER);
    assert data[s + 36..s + size] == Zeros(size - BIN_HEADER - CELL_HEADER);
  }

  /** The writes of `extend_hive` into the zero-filled tail produce the new bin. */
  lemma NewBinWritten(z: seq<byte>, len: nat, size: nat)
    requires BIN_SIZE <= size <= MAX_BIN && len <= MAX_DATA && z == Zeros(size)
    ensures Put(Put(Put(Put(z, 0, HBIN), 4, LE32(len)), 8, LE32(size)), 32, LE32(size - BIN_HEADER))
      == NewBin(len, size)
  {
    hide LE32;
    var r := Put(Put(Put(Put(z, 0, HBIN), 4, LE32(len)), 8, LE32(size)), 32, LE32(size - BIN_HEADER));
    assert r[0..4] == HBIN;
    assert r[4..8] == LE32(len);
    assert r[8..12] == LE32(size);
    assert r[12..32] == Zeros(20);
    assert r[32..36] == LE32(size - BIN_HEADER);
    assert r[36..] == Zeros(size - 36);
    assert r == r[0..4] + r[4..8] + r[8..12] + r[12..32] + r[32..36] + r[36..];
  }

  /** A write behind `prefix` is a write into the rest. */
  lemma PutSuffix(prefix: seq<byte>, rest: seq<byte>, i: nat, b: seq<byte>)
    requires i + |b| <= |rest|
    ensures Put(prefix + rest, |prefix| + i, b) == prefix + Put(rest, i, b)
  {
  }

  lemma ExtendWritten(data: seq<byte>, len: nat, size: nat)
    requires BIN_SIZE <= size <= MAX_BIN && len <= MAX_DATA
    ensures var s := |data|;
      Put(Put(Put(Put(data + Zeros(size), s, HBIN), s + 4, LE32(len)), s + 8, LE32(size)), s + BIN_HEADER,
          LE32(size - BIN_HEADER))
      == data + NewBin(len, size)
  {
    hide LE32;
    var z := Zeros(size);
    NewBinWritten(z, len, size);
    PutSuffix(data, z, 0, HBIN);
    var z1 := Put(z, 0, HBIN);
    PutSuffix(data, z1, 4, LE32(len));
    var z2 := Put(z1, 4, LE32(len));
    PutSuffix(data, z2, 8, LE32(size));
    var z3 := Put(z2, 8, LE32(size));
    PutSuffix(data, z3, BIN_HEADER, LE32(size - BIN_HEADER));
  }

  lemma ExtendHeap(data: seq<byte>, data': seq<byte>, bins: Bins, cells: Cells, size: nat)
    requires Heap(data, bins, cells)
    requires BIN_SIZE <= size <= MAX_BIN && |data| - BASE + size <= MAX_DATA
    requires data' == data + NewBin(|data| - BASE, size)
    ensures Heap(data', ExtendBins(bins, |data| - BASE, size), ExtendCells(cells, |data| - BASE, size))
  {
    var len := |data| - BASE;
    ExtendBound(bins, cells, len);
    ExtendShape(bins, cells, len, size);
    assert data'[BASE + len..] == NewBin(len, size);
    NewBinImage(data', len, size);
    var bins', cells' := ExtendBins(bins, len, size), ExtendCells(cells, len, size);
    forall b {:trigger BinImage(data', b, bins'[b])} | b in bins'
      ensures BinImage(data', b, bins'[b])
    {
      if b in bins {
        assert BinImage(data, b, bins[b]);
        BinImageFrame(data, data', b, bins[b]);
      }
    }
    forall c {:trigger CellImage(data', c, cells'[c])} | c in cells'
      ensures CellImage(data', c, cells'[c])
    {
      if c in cells {
        assert CellImage(data, c, cells[c]);
        CellImageFrame(data, data', c, cells[c]);
      }
    }
  }

  // ------------------------------------------------------------------ first fit

  /** No free cell that starts before `limit` can hold `required` bytes. */
  ghost predicate NoneBelow(cells: Cells, required: nat, limit: int) {
    forall c: nat {:trigger FreeFor(cells, c, required)} :: c < limit ==> !FreeFor(cells, c, required)
  }

  ghost predicate NoneFits(cells: Cells, required: nat) {
    forall c: nat {:trigger FreeFor(cells, c, required)} :: !FreeFor(cells, c, required)
  }

  /** There is room for the bin that serves `required`, within 32-bit offsets and 31-bit cell sizes. */
  predicate Room(len: nat, required: nat) {
    RoomFor(len, NewBinSize(required))
  }

  predicate RoomFor(len: nat, growth: nat) {
    growth <= MAX_BIN && len + growth <= MAX_DATA
  }

  /** `cells'` is `cells` after the lowest free cell that fits, `o`, was taken. */
  ghost predicate FirstFit(cells: Cells, cells': Cells, o: nat, required: nat, tag: Tag) {
    && FreeFor(cells, o, required) && NoneBelow(cells, required, o)
    && required >= 8 && |cells[o].payload| == cells[o].size - CELL_HEADER
    && (cells[o].size == required || cells[o].size - required >= 8)
    && cells' == Take(cells, o, required, tag)
  }

  /** The effect of one allocation: first fit if any free cell fits, else first fit in one new bin. */
  ghost predicate Allocation(bins: Bins, cells: Cells, len: nat, bins': Bins, cells': Cells, len': nat,
                             o: nat, required: nat, tag: Tag) {
    if !NoneFits(cells, required) then
      bins' == bins && len' == len && FirstFit(cells, cells', o, required, tag)
    else
      var size := NewBinSize(required);
      && FitsBin(required) && Room(len, required) && size >= BIN_SIZE
      && bins' == ExtendBins(bins, len, size) && len' == len + size
      && o == len + BIN_HEADER && FirstFit(ExtendCells(cells, len, size), cells', o, required, tag)
  }

  /** The cell of a bin appended for `required` is the one and only cell that fits it. */
  lemma OnlyNewCellFits(cells: Cells, len: nat, required: nat, c: nat)
    requires NoneFits(cells, required) && FitsBin(required) && required > 0
    ensures NewBinSize(required) >= BIN_SIZE
    ensures FreeFor(ExtendCells(cells, len, NewBinSize(required)), c, required) <==> c == len + BIN_HEADER
  {
    FitsBinIff(required);
    assert !FreeFor(cells, c, required);
  }

  /** Retrying after one extension is the allocation in the new bin. */
  lemma RetryAllocates(bins: Bins, cells: Cells, len: nat, bins': Bins, cells': Cells, len': nat,
                       o: nat, required: nat, tag: Tag)
    requires NoneFits(cells, required) && FitsBin(required) && required > 0 && Room(len, required)
    requires NewBinSize(required) >= BIN_SIZE
    requires Allocation(ExtendBins(bins, len, NewBinSize(required)), ExtendCells(cells, len, NewBinSize(required)),
                        len + NewBinSize(required), bins', cells', len', o, required, tag)
    ensures Allocation(bins, cells, len, bins', cells', len', o, required, tag)
  {
    OnlyNewCellFits(cells, len, required, len + BIN_HEADER);
    OnlyNewCellFits(cells, len, required, o);
  }

  /** What a caller needs of an allocation: one new used cell, every other used cell as it was. */
  ghost predicate Grown(cells: Cells, cells': Cells, o: nat, size: nat, tag: Tag) {
    && o in cells' && cells'[o].tag == tag && cells'[o].size == size && |cells'[o].payload| == size - CELL_HEADER
    && (o in cells ==> cells[o].tag.Free?)
    && SameUsed(cells, cells', o)
    && (SmallFree(cells) ==> SmallFree(cells'))
  }

  /** Apart from the cell `o`, the same cells are in use and they hold the same bytes. */
  ghost predicate SameUsed(cells: Cells, cells': Cells, o: nat) {
    forall c {:trigger UsedIn(cells, c)} {:trigger UsedIn(cells', c)} :: c != o ==>
      UsedIn(cells, c) == UsedIn(cells', c) && (UsedIn(cells, c) ==> cells'[c] == cells[c])
  }

  ghost predicate UsedIn(cells: Cells, c: nat) {
    c in cells && !cells[c].tag.Free?
  }

  lemma GrownWritten(cells: Cells, cells': Cells, o: nat, size: nat, tag: Tag, at: nat, b: seq<byte>)
    requires Grown(cells, cells', o, size, tag) && !tag.Free? && at + |b| <= size - CELL_HEADER
    ensures Grown(cells, WriteCell(cells', o, at, b), o, size, tag)
    ensures WriteCell(cells', o, at, b)[o].payload == Put(cells'[o].payload, at, b)
  {
    var cells'' := WriteCell(cells', o, at, b);
    forall c {:trigger UsedIn(cells, c)} {:trigger UsedIn(cells'', c)} | c != o
      ensures UsedIn(cells, c) == UsedIn(cells'', c) && (UsedIn(cells, c) ==> cells''[c] == cells[c])
    {
      assert UsedIn(cells', c) == UsedIn(cells'', c);
    }
    if SmallFree(cells) {
      assert SmallFree(cells');
    }
  }

  lemma TakeGrown(bins: Bins, cells: Cells, len: nat, o: nat, required: nat, tag: Tag)
    requires Shape(bins, cells, len) && FreeFor(cells, o, required) && CellShape(bins, cells, o) && !tag.Free?
    requires required >= 8 && (cells[o].size == required || cells[o].size - required >= 8)
    ensures var cells' := Take(cells, o, required, tag);
      && o in cells' && cells'[o].tag == tag && cells'[o].size == required
      && |cells'[o].payload| == required - CELL_HEADER
      && SameUsed(cells, cells', o)
    ensures SmallFree(cells) ==> SmallFree(Take(cells, o, required, tag))
  {
    TakeShape(bins, cells, len, o, required, tag);
  }

  lemma AllocationGrown(bins: Bins, cells: Cells, len: nat, bins': Bins, cells': Cells, len': nat,
                        o: nat, required: nat, tag: Tag)
    requires Shape(bins, cells, len) && !tag.Free? && required > 0
    requires Allocation(bins, cells, len, bins', cells', len', o, required, tag)
    ensures Grown(cells, cells', o, required, tag)
  {
    if !NoneFits(cells, required) {
      assert CellShape(bins, cells, o);
      TakeGrown(bins, cells, len, o, required, tag);
    } else {
      var size := NewBinSize(required);
      var grown := ExtendCells(cells, len, size);
      ExtendBound(bins, cells, len);
      ExtendShape(bins, cells, len, size);
      assert CellShape(bins', grown, o);
      TakeGrown(bins', grown, len', o, required, tag);
      FitsBinIff(required);
      forall c {:trigger UsedIn(cells, c)} {:trigger UsedIn(cells', c)} | c != o
        ensures UsedIn(cells, c) == UsedIn(cells', c) && (UsedIn(cells, c) ==> cells'[c] == cells[c])
      {
        assert UsedIn(grown, c) == UsedIn(cells, c);
      }
    }
  }

  /** A first-fit scan goes on at the next cell: no cell starts in between. */
  lemma NoneBelowStep(bins: Bins, cells: Cells, len: nat, c: nat, required: nat)
    requires Shape(bins, cells, len) && c in cells
    requires NoneBelow(cells, required, c) && !FreeFor(cells, c, required)
    ensures NoneBelow(cells, required, c + cells[c].size)
  {
    forall d: nat {:trigger FreeFor(cells, d, required)} | d < c + cells[c].size
      ensures !FreeFor(cells, d, required)
    {
      assert d in cells ==> CellsApart(cells, c, d);
    }
  }

  /** A first-fit scan may skip a bin header. */
  lemma NoneBelowBin(bins: Bins, cells: Cells, len: nat, b: nat, required: nat)
    requires Shape(bins, cells, len) && b in bins && NoneBelow(cells, required, b)
    ensures NoneBelow(cells, required, b + BIN_HEADER)
  {
    forall c: nat {:trigger FreeFor(cells, c, required)} | c < b + BIN_HEADER
      ensures !FreeFor(cells, c, required)
    {
      if c in cells {
        BinCellDisjoint(bins, cells, len, b, c);
        assert CellShape(bins, cells, c);
      }
    }
  }

  lemma NoneFitsAtEnd(bins: Bins, cells: Cells, len: nat, required: nat)
    requires Shape(bins, cells, len) && NoneBelow(cells, required, len)
    ensures NoneFits(cells, required)
  {
    ExtendBound(bins, cells, len);
    forall c: nat {:trigger FreeFor(cells, c, required)}
      ensures !FreeFor(cells, c, required)
    {
      assert c in cells ==> CellShape(bins, cells, c);
    }
  }

  /** While every free cell is small, a request is served if and only if a new bin could serve it. */
  lemma ServedIff(cells: Cells, required: nat)
    requires SmallFree(cells) && required > 0
    ensures !NoneFits(cells, required) || FitsBin(required) <==> FitsBin(required)
  {
    if required <= MAX_FREE {
      assert required % BIN_SIZE == required;
    }
  }

  /** The cells after `n` rounds of extending the hive for a request that is then tried again. */
  ghost function Retried(cells: Cells, len: nat, required: nat, n: nat): Cells
    requires required > 0
  {
    FitsBinIff(required);
    if n == 0 then cells
    else ExtendCells(Retried(cells, len, required, n - 1), len + (n - 1) * NewBinSize(required), NewBinSize(required))
  }

  /** A request that no free cell and no new bin can hold is never served, however often it is retried. */
  lemma {:induction false} RetryNeverHelps(cells: Cells, len: nat, required: nat, n: nat)
    requires required > 0 && NoneFits(cells, required) && !FitsBin(required)
    ensures NoneFits(Retried(cells, len, required, n), required)
  {
    if n == 0 {
    } else {
      RetryNeverHelps(cells, len, required, n - 1);
      FitsBinIff(required);
      var before := Retried(cells, len, required, n - 1);
      var at := len + (n - 1) * NewBinSize(required) + BIN_HEADER;
      forall c: nat {:trigger FreeFor(Retried(cells, len, required, n), c, required)}
        ensures !FreeFor(Retried(cells, len, required, n), c, required)
      {
        assert !FreeFor(before, c, required);
      }
    }
  }

  /**
   Data of 4068 bytes asks for a cell of 4072: too large for the one free cell of a new hive, and for
   the one of every bin appended for it.
   */
  lemma NeverServed(n: nat)
    ensures var newHive := map[BIN_HEADER := Cell(MAX_FREE, 0, Free, Zeros(MAX_FREE - CELL_HEADER))];
            CellSize(4068) == 4072 && !FitsBin(4072) && NoneFits(Retried(newHive, BIN_SIZE, 4072, n), 4072)
  {
    var cells: Cells := map[BIN_HEADER := Cell(MAX_FREE, 0, Free, Zeros(MAX_FREE - CELL_HEADER))];
    assert NoneFits(cells, 4072);
    RetryNeverHelps(cells, BIN_SIZE, 4072, n);
  }
}
