/** Export lookup, once over the file and once over the loaded image, by binary search in the name table. */
module PeExports {
  import opened Bytes
  import opened Strings
  import opened Wrappers
  import opened PeLayout
  import Relocations

  datatype PeError = BufferTooSmall | RvaNotInSection | InvalidString | ExportNotFound

  /** The export directory's place and the fields of it that lookups use. */
  datatype Directory = Directory(rva: u32, size: u32, base: u32, functionCount: u32, nameCount: u32,
                                 functions: u32, names: u32, ordinals: u32)

  // ------------------------------------------------------------------ reading

  function ReadU16(data: seq<byte>, offset: nat): Option<u16> {
    if offset + 2 > |data| then None else Some(Get16(data, offset))
  }

  function ReadU32(data: seq<byte>, offset: nat): Option<u32> {
    if offset + 4 > |data| then None else Some(Get32(data, offset))
  }

  /** The first zero byte from `at` on, or the end. */
  function EndOf(data: seq<byte>, at: nat): (end: nat)
    requires at <= |data|
    ensures at <= end <= |data|
    decreases |data| - at
  {
    if at < |data| && data[at] != 0 then EndOf(data, at + 1) else at
  }

  function CString(data: seq<byte>, offset: nat): Option<seq<byte>> {
    if offset >= |data| then None
    else
      var s := data[offset..EndOf(data, offset)];
      if Utf8(s) then Some(s) else None
  }

  method ReadCString(data: seq<byte>, offset: nat) returns (s: Option<seq<byte>>)
    ensures s == CString(data, offset)
  {
    if offset >= |data| {
      return None;
    }
    var end := offset;
    while end < |data| && data[end] != 0
      invariant offset <= end <= |data| && EndOf(data, end) == EndOf(data, offset)
    {
      end := end + 1;
    }
    return if Utf8(data[offset..end]) then Some(data[offset..end]) else None;
  }

  // ------------------------------------------------------------------ the binary search

  /** Byte-wise order of strings. */
  predicate Less(a: seq<byte>, b: seq<byte>)
    decreases |a|
  {
    if b == [] then false
    else if a == [] then true
    else a[0] < b[0] || (a[0] == b[0] && Less(a[1..], b[1..]))
  }

  /** One string comes before another: by their first different byte, or as a part that the other goes on from. */
  ghost predicate Before(a: seq<byte>, b: seq<byte>) {
    exists k :: 0 <= k <= |a| && k <= |b| && a[..k] == b[..k] && DiffersAt(a, b, k)
  }

  predicate DiffersAt(a: seq<byte>, b: seq<byte>, k: nat) {
    (k == |a| < |b|) || (k < |a| && k < |b| && a[k] < b[k])
  }

  lemma {:induction false} LessIff(a: seq<byte>, b: seq<byte>)
    ensures Less(a, b) <==> Before(a, b)
    decreases |a|
  {
    if a == [] || b == [] || a[0] != b[0] {
      assert b != [] && (a == [] || a[0] < b[0]) ==> a[..0] == b[..0] && DiffersAt(a, b, 0);
    } else {
      LessIff(a[1..], b[1..]);
      if Before(a[1..], b[1..]) {
        var k :| 0 <= k <= |a[1..]| && k <= |b[1..]| && a[1..][..k] == b[1..][..k] && DiffersAt(a[1..], b[1..], k);
        assert a[..k + 1] == [a[0]] + a[1..][..k] && b[..k + 1] == [b[0]] + b[1..][..k];
        assert DiffersAt(a, b, k + 1);
      }
      if Before(a, b) {
        var k :| 0 <= k <= |a| && k <= |b| && a[..k] == b[..k] && DiffersAt(a, b, k);
        assert k > 0;
        assert a[1..][..k - 1] == a[..k][1..] && b[1..][..k - 1] == b[..k][1..];
        assert DiffersAt(a[1..], b[1..], k - 1);
      }
    }
  }

  datatype Found = Hit(index: nat) | Miss | Unreadable(index: nat)

  /** The search between `low` and `high`; an unreadable name ends it. */
  function Search<E>(table: seq<Result<seq<byte>, E>>, low: nat, high: nat, name: seq<byte>): (r: Found)
    requires low <= high <= |table|
    ensures !r.Miss? ==> low <= r.index < high
    ensures r.Hit? ==> table[r.index] == Ok(name)
    ensures r.Unreadable? ==> table[r.index].Err?
    decreases high - low
  {
    if low == high then Miss
    else
      var mid := (low + high) / 2;
      if table[mid].Err? then Unreadable(mid)
      else if table[mid].value == name then Hit(mid)
      else if Less(table[mid].value, name) then Search(table, mid + 1, high, name)
      else Search(table, low, mid, name)
  }

  /** All names are readable and ascend byte by byte. */
  ghost predicate Sorted<E(!new)>(table: seq<Result<seq<byte>, E>>) {
    && (forall i {:trigger table[i]} :: 0 <= i < |table| ==> table[i].Ok?)
    && (forall i, j {:trigger table[i], table[j]} :: 0 <= i < j < |table| ==> Before(table[i].value, table[j].value))
  }

  lemma {:induction false} LessOneWay(a: seq<byte>, b: seq<byte>)
    requires Less(a, b)
    ensures a != b && !Less(b, a)
    decreases |a|
  {
    if a == [] || a[0] != b[0] {
    } else {
      LessOneWay(a[1..], b[1..]);
    }
  }

  /** On a strictly sorted table, a name between the bounds is found where it is. */
  lemma {:induction false} SearchFinds<E(!new)>(table: seq<Result<seq<byte>, E>>, low: nat, high: nat, name: seq<byte>,
                                                k: nat)
    requires Sorted(table) && low <= k < high <= |table| && table[k] == Ok(name)
    ensures Search(table, low, high, name) == Hit(k)
    decreases high - low
  {
    var mid := (low + high) / 2;
    hide Before;
    if mid < k {
      assert Before(table[mid].value, table[k].value);
      LessIff(table[mid].value, name);
      LessOneWay(table[mid].value, name);
      SearchFinds(table, mid + 1, high, name, k);
    } else if k < mid {
      assert Before(table[k].value, table[mid].value);
      LessIff(name, table[mid].value);
      LessOneWay(name, table[mid].value);
      SearchFinds(table, low, mid, name, k);
    }
  }

  /** On a strictly sorted table, the search hits exactly the names that are listed. */
  lemma SearchIff<E(!new)>(table: seq<Result<seq<byte>, E>>, name: seq<byte>)
    requires Sorted(table)
    ensures Search(table, 0, |table|, name).Hit? <==> exists k :: 0 <= k < |table| && table[k] == Ok(name)
  {
    if k :| 0 <= k < |table| && table[k] == Ok(name) {
      SearchFinds(table, 0, |table|, name, k);
    }
  }

  // ------------------------------------------------------------------ the loaded view

  /** Reads the directory of a loaded image; `None` when there is none or it does not fit. */
  function ExportIndex(image: seq<byte>, rva: u32, size: u32): Option<Directory> {
    if rva == 0 || size == 0 || rva + 40 > |image| then None
    else Some(Directory(rva, size, Get32(image, rva + 0x10), Get32(image, rva + 0x14), Get32(image, rva + 0x18),
                        Get32(image, rva + 0x1C), Get32(image, rva + 0x20), Get32(image, rva + 0x24)))
  }

  function LoadedName(image: seq<byte>, x: Directory, i: nat): Result<seq<byte>, ()> {
    match ReadU32(image, x.names + i * 4)
    case None => Err(())
    case Some(rva) =>
      match CString(image, rva)
      case None => Err(())
      case Some(s) => Ok(s)
  }

  function LoadedNames(image: seq<byte>, x: Directory): (table: seq<Result<seq<byte>, ()>>)
    ensures |table| == x.nameCount
  {
    seq(x.nameCount, i requires 0 <= i < x.nameCount => LoadedName(image, x, i))
  }

  predicate Forwarder(x: Directory, rva: u32) {
    x.rva <= rva < x.rva + x.size
  }

  /** The address in slot `index` of the address table, unless it is a forwarder. */
  function LoadedFunction(image: seq<byte>, x: Directory, index: nat): Option<u32> {
    match ReadU32(image, x.functions + index * 4)
    case None => None
    case Some(rva) => if Forwarder(x, rva) then None else Some(rva)
  }

  /** What a hit at entry `i` of the name table resolves to. */
  function LoadedAt(image: seq<byte>, x: Directory, i: nat): Option<u32> {
    match ReadU16(image, x.ordinals + i * 2)
    case None => None
    case Some(ordinal) => LoadedFunction(image, x, ordinal)
  }

  /** The address of `name` relative to the image. */
  function LoadedByName(image: seq<byte>, x: Directory, name: seq<byte>): Option<u32> {
    match Search(LoadedNames(image, x), 0, x.nameCount, name)
    case Hit(i) => LoadedAt(image, x, i)
    case Miss => None
    case Unreadable(_) => None
  }

  function LoadedByOrdinal(image: seq<byte>, x: Directory, ordinal: u32): Option<u32> {
    if ordinal < x.base || ordinal - x.base >= x.functionCount then None
    else LoadedFunction(image, x, ordinal - x.base)
  }

  function Based(vaBase: u64, rva: Option<u32>): Option<nat> {
    match rva
    case None => None
    case Some(r) => Some(vaBase + r)
  }

  method ResolveIndex(image: seq<byte>, x: Directory, vaBase: u64, index: nat) returns (va: Option<nat>)
    ensures va == Based(vaBase, LoadedFunction(image, x, index))
  {
    var rva := ReadU32(image, x.functions + index * 4);
    if rva.None? {
      return None;
    }
    if rva.value >= x.rva && rva.value < x.rva + x.size {
      return None;
    }
    return Some(vaBase + rva.value);
  }

  method ReadName(image: seq<byte>, x: Directory, i: nat) returns (name: Result<seq<byte>, ()>)
    ensures name == LoadedName(image, x, i)
  {
    var rva := ReadU32(image, x.names + i * 4);
    if rva.None? {
      return Err(());
    }
    var s := ReadCString(image, rva.value);
    return if s.None? then Err(()) else Ok(s.value);
  }

  method ResolveByName(image: seq<byte>, x: Directory, vaBase: u64, name: seq<byte>) returns (va: Option<nat>)
    ensures va == Based(vaBase, LoadedByName(image, x, name))
  {
    hide CString, Less, Get16, Get32, LoadedFunction, LoadedName;
    ghost var table := LoadedNames(image, x);
    var low: nat, high: nat := 0, x.nameCount;
    while low < high
      invariant low <= high <= x.nameCount
      invariant Search(table, low, high, name) == Search(table, 0, x.nameCount, name)
    {
      var mid := (low + high) / 2;
      assert table[mid] == LoadedName(image, x, mid);
      var exportName := ReadName(image, x, mid);
      if exportName.Err? {
        return None;
      }
      if exportName.value == name {
        var ordinal := ReadU16(image, x.ordinals + mid * 2);
        if ordinal.None? {
          return None;
        }
        va := ResolveIndex(image, x, vaBase, ordinal.value);
        return;
      } else if Less(exportName.value, name) {
        low := mid + 1;
      } else {
        high := mid;
      }
    }
    return None;
  }

  method ResolveByOrdinal(image: seq<byte>, x: Directory, vaBase: u64, ordinal: u32) returns (va: Option<nat>)
    ensures va == Based(vaBase, LoadedByOrdinal(image, x, ordinal))
  {
    if ordinal < x.base {
      return None;
    }
    var index := ordinal - x.base;
    if index >= x.functionCount {
      return None;
    }
    va := ResolveIndex(image, x, vaBase, index);
  }

  /** A name resolves to what its ordinal resolves to, as long as the ordinal has a function. */
  lemma NameIsOrdinal(image: seq<byte>, x: Directory, name: seq<byte>, i: nat, ordinal: u16)
    requires Search(LoadedNames(image, x), 0, x.nameCount, name) == Hit(i)
    requires ReadU16(image, x.ordinals + i * 2) == Some(ordinal)
    requires x.base + ordinal < U32_END
    ensures ordinal < x.functionCount ==> LoadedByName(image, x, name) == LoadedByOrdinal(image, x, x.base + ordinal)
    ensures ordinal >= x.functionCount ==> LoadedByOrdinal(image, x, x.base + ordinal) == None
  {
  }

  /** On a strictly sorted table a name resolves exactly when it is listed with an address that is no forwarder. */
  lemma ByNameIff(image: seq<byte>, x: Directory, name: seq<byte>, r: u32)
    requires Sorted(LoadedNames(image, x))
    ensures LoadedByName(image, x, name) == Some(r)
            <==> exists k ::
              0 <= k < x.nameCount && LoadedName(image, x, k) == Ok(name) && LoadedAt(image, x, k) == Some(r)
  {
    var table := LoadedNames(image, x);
    if LoadedByName(image, x, name) == Some(r) {
      var k := Search(table, 0, x.nameCount, name).index;
      assert LoadedName(image, x, k) == table[k];
    }
    if k :| 0 <= k < x.nameCount && LoadedName(image, x, k) == Ok(name) && LoadedAt(image, x, k) == Some(r) {
      assert table[k] == Ok(name);
      SearchFinds(table, 0, x.nameCount, name, k);
    }
  }

  // ------------------------------------------------------------------ what an export directory says

  lemma {:induction false} EndIff(b: seq<byte>, at: nat, end: nat)
    requires at <= |b|
    ensures EndOf(b, at) == end <==>
      && at <= end <= |b| && (end < |b| ==> b[end] == 0)
      && forall i {:trigger b[i]} :: at <= i < end ==> b[i] != 0
    decreases |b| - at
  {
    if at < |b| && b[at] != 0 {
      EndIff(b, at + 1, end);
    }
  }

  /** The string `s` stands at `at`, up to a NUL or the end of the bytes. */
  ghost predicate StringAt(b: seq<byte>, at: nat, s: seq<byte>) {
    && at < |b| && at + |s| <= |b| && b[at..at + |s|] == s && Utf8(s)
    && (forall i {:trigger s[i]} :: 0 <= i < |s| ==> s[i] != 0)
    && (at + |s| < |b| ==> b[at + |s|] == 0)
  }

  lemma CStringIff(b: seq<byte>, at: nat, s: seq<byte>)
    ensures CString(b, at) == Some(s) <==> StringAt(b, at, s)
  {
    hide Utf8, EndOf;
    if at < |b| {
      EndIff(b, at, EndOf(b, at));
      if StringAt(b, at, s) {
        forall i {:trigger b[i]} | at <= i < at + |s| ensures b[i] != 0 {
          assert b[i] == b[at..at + |s|][i - at] == s[i - at];
        }
        EndIff(b, at, at + |s|);
      }
    }
  }

  /** Slot `index` of the address table holds `r`, which is not an address of the directory itself: a forwarder. */
  ghost predicate SlotHolds(image: seq<byte>, rva: u32, size: u32, index: nat, r: u32)
    requires rva + 40 <= |image|
  {
    var at := Get32(image, rva + 0x1C) + 4 * index;
    at + 4 <= |image| && Get32(image, at) == r && !(rva <= r < rva + size)
  }

  /** Entry `k` of the name table leads to the string `name`. */
  ghost predicate EntryNames(image: seq<byte>, rva: u32, k: nat, name: seq<byte>)
    requires rva + 40 <= |image|
  {
    var at := Get32(image, rva + 0x20) + 4 * k;
    at + 4 <= |image| && StringAt(image, Get32(image, at), name)
  }

  /** Entry `k` of the ordinal table leads to the address `r`. */
  ghost predicate EntryLeads(image: seq<byte>, rva: u32, size: u32, k: nat, r: u32)
    requires rva + 40 <= |image|
  {
    var at := Get32(image, rva + 0x24) + 2 * k;
    at + 2 <= |image| && SlotHolds(image, rva, size, Get16(image, at), r)
  }

  /** The directory lists `name` with the address `r`. */
  ghost predicate ListsName(image: seq<byte>, rva: u32, size: u32, name: seq<byte>, r: u32)
    requires rva + 40 <= |image|
  {
    exists k: nat ::
      k < Get32(image, rva + 0x18) && EntryNames(image, rva, k, name) && EntryLeads(image, rva, size, k, r)
  }

  /** The directory has the address `r` for an ordinal. */
  ghost predicate ListsOrdinal(image: seq<byte>, rva: u32, size: u32, ordinal: u32, r: u32)
    requires rva + 40 <= |image|
  {
    var base := Get32(image, rva + 0x10);
    base <= ordinal < base + Get32(image, rva + 0x14) && SlotHolds(image, rva, size, ordinal - base, r)
  }

  ghost predicate Readable(image: seq<byte>, rva: u32, k: nat)
    requires rva + 40 <= |image|
  {
    exists name :: EntryNames(image, rva, k, name)
  }

  /** All names of the directory are readable and ascend byte by byte, as the binary search needs it. */
  ghost predicate NamesAscend(image: seq<byte>, rva: u32)
    requires rva + 40 <= |image|
  {
    && (forall k: nat {:trigger Readable(image, rva, k)} :: k < Get32(image, rva + 0x18) ==> Readable(image, rva, k))
    && (forall j: nat, k: nat, s, t {:trigger EntryNames(image, rva, j, s), EntryNames(image, rva, k, t)} ::
          j < k < Get32(image, rva + 0x18) && EntryNames(image, rva, j, s) && EntryNames(image, rva, k, t) ==>
            Before(s, t))
  }

  lemma LoadedNameIff(image: seq<byte>, x: Directory, k: nat, name: seq<byte>)
    requires ExportIndex(image, x.rva, x.size) == Some(x)
    ensures LoadedName(image, x, k) == Ok(name) <==> EntryNames(image, x.rva, k, name)
  {
    hide Get32, CString, StringAt;
    if x.names + k * 4 + 4 <= |image| {
      CStringIff(image, Get32(image, x.names + k * 4), name);
    }
  }

  lemma LoadedAtIff(image: seq<byte>, x: Directory, k: nat, r: u32)
    requires ExportIndex(image, x.rva, x.size) == Some(x)
    ensures LoadedAt(image, x, k) == Some(r) <==> EntryLeads(image, x.rva, x.size, k, r)
  {
    hide Get32, Get16;
  }

  /** An ordinal resolves exactly to the address that the directory has for it. */
  lemma OrdinalIff(image: seq<byte>, x: Directory, ordinal: u32, r: u32)
    requires ExportIndex(image, x.rva, x.size) == Some(x)
    ensures LoadedByOrdinal(image, x, ordinal) == Some(r) <==> ListsOrdinal(image, x.rva, x.size, ordinal, r)
  {
    hide Get32;
  }

  lemma AscendingSorted(image: seq<byte>, x: Directory)
    requires ExportIndex(image, x.rva, x.size) == Some(x) && NamesAscend(image, x.rva)
    ensures Sorted(LoadedNames(image, x))
  {
    hide Get32, LoadedName, EntryNames, Before;
    var table := LoadedNames(image, x);
    assert x.nameCount == Get32(image, x.rva + 0x18);
    forall i {:trigger table[i]} | 0 <= i < |table| ensures table[i].Ok? {
      assert Readable(image, x.rva, i);
      var name :| EntryNames(image, x.rva, i, name);
      LoadedNameIff(image, x, i, name);
    }
    forall i, j {:trigger table[i], table[j]} | 0 <= i < j < |table| ensures Before(table[i].value, table[j].value) {
      LoadedNameIff(image, x, i, table[i].value);
      LoadedNameIff(image, x, j, table[j].value);
    }
  }

  /** What a name resolves to is listed for it; if the names ascend, whatever is listed is found. */
  lemma NameIff(image: seq<byte>, x: Directory, name: seq<byte>, r: u32)
    requires ExportIndex(image, x.rva, x.size) == Some(x)
    ensures LoadedByName(image, x, name) == Some(r) ==> ListsName(image, x.rva, x.size, name, r)
    ensures NamesAscend(image, x.rva) && ListsName(image, x.rva, x.size, name, r) ==>
      LoadedByName(image, x, name) == Some(r)
  {
    hide LoadedName, LoadedAt, EntryNames, EntryLeads, NamesAscend, Get32, Before;
    assert x.nameCount == Get32(image, x.rva + 0x18);
    var table := LoadedNames(image, x);
    if LoadedByName(image, x, name) == Some(r) {
      var k := Search(table, 0, x.nameCount, name).index;
      assert LoadedName(image, x, k) == table[k] == Ok(name);
      LoadedNameIff(image, x, k, name);
      LoadedAtIff(image, x, k, r);
    }
    if NamesAscend(image, x.rva) && ListsName(image, x.rva, x.size, name, r) {
      var k: nat :|
        k < x.nameCount && EntryNames(image, x.rva, k, name) && EntryLeads(image, x.rva, x.size, k, r);
      LoadedNameIff(image, x, k, name);
      LoadedAtIff(image, x, k, r);
      AscendingSorted(image, x);
      assert table[k] == LoadedName(image, x, k);
      SearchFinds(table, 0, x.nameCount, name, k);
    }
  }

  // ------------------------------------------------------------------ the file view

  function Offset(layout: Layout, rva: u32): Result<nat, PeError> {
    match OffsetOf(layout, rva)
    case None => Err(RvaNotInSection)
    case Some(o) => Ok(o)
  }

  function U16At(file: seq<byte>, offset: nat): Result<u16, PeError> {
    match ReadU16(file, offset)
    case None => Err(BufferTooSmall)
    case Some(v) => Ok(v)
  }

  function U32At(file: seq<byte>, offset: nat): Result<u32, PeError> {
    match ReadU32(file, offset)
    case None => Err(BufferTooSmall)
    case Some(v) => Ok(v)
  }

  function FileName(file: seq<byte>, layout: Layout, names: nat, i: nat): Result<seq<byte>, PeError> {
    var rva :- U32At(file, names + i * 4);
    var o :- Offset(layout, rva);
    match CString(file, o)
    case None => Err(InvalidString)
    case Some(s) => Ok(s)
  }

  function FileNames(file: seq<byte>, layout: Layout, names: nat, count: nat): (table: seq<Result<seq<byte>, PeError>>)
    ensures |table| == count
  {
    seq(count, i requires 0 <= i < count => FileName(file, layout, names, i))
  }

  function FileFunction(file: seq<byte>, rva: u32, size: u32, functions: nat, index: nat): Result<u32, PeError> {
    var r :- U32At(file, functions + index * 4);
    if rva <= r < rva + size then Err(ExportNotFound) else Ok(r)
  }

  function FileAt(file: seq<byte>, rva: u32, size: u32, ordinals: nat, functions: nat, i: nat): Result<u32, PeError> {
    var ordinal :- U16At(file, ordinals + i * 2);
    FileFunction(file, rva, size, functions, ordinal)
  }

  function FileSearch(file: seq<byte>, layout: Layout, rva: u32, size: u32, names: nat, ordinals: nat, functions: nat,
                      count: nat, name: seq<byte>): Result<u32, PeError>
  {
    match Search(FileNames(file, layout, names, count), 0, count, name)
    case Hit(i) => FileAt(file, rva, size, ordinals, functions, i)
    case Miss => Err(ExportNotFound)
    case Unreadable(i) => Err(FileNames(file, layout, names, count)[i].error)
  }

  /** The export `name` of the file whose directory is at `rva`. */
  function FileByName(file: seq<byte>, layout: Layout, rva: u32, size: u32, name: seq<byte>): Result<u32, PeError> {
    if rva == 0 || size == 0 then Err(ExportNotFound)
    else
      var d :- Offset(layout, rva);
      if d + 40 > |file| then Err(BufferTooSmall)
      else
        var names :- Offset(layout, Get32(file, d + 0x20));
        var ordinals :- Offset(layout, Get32(file, d + 0x24));
        var functions :- Offset(layout, Get32(file, d + 0x1C));
        FileSearch(file, layout, rva, size, names, ordinals, functions, Get32(file, d + 0x18), name)
  }

  method ResolveExportByName(file: seq<byte>, layout: Layout, rva: u32, size: u32, name: seq<byte>)
    returns (r: Result<u32, PeError>)
    ensures r == FileByName(file, layout, rva, size, name)
  {
    hide Get32, OffsetOf, FileSearch;
    if rva == 0 || size == 0 {
      return Err(ExportNotFound);
    }
    var d :- RvaOffset(layout, rva);
    if d + 40 > |file| {
      return Err(BufferTooSmall);
    }
    var count: nat := Get32(file, d + 0x18);
    var names :- RvaOffset(layout, Get32(file, d + 0x20));
    var ordinals :- RvaOffset(layout, Get32(file, d + 0x24));
    var functions :- RvaOffset(layout, Get32(file, d + 0x1C));
    r := SearchFile(file, layout, rva, size, names, ordinals, functions, count, name);
  }

  method RvaOffset(layout: Layout, rva: u32) returns (r: Result<nat, PeError>)
    ensures r == Offset(layout, rva)
  {
    var o := RvaToOffset(layout, rva);
    return if o.None? then Err(RvaNotInSection) else Ok(o.value);
  }

  method ExportAt(file: seq<byte>, rva: u32, size: u32, functions: nat, index: nat) returns (r: Result<u32, PeError>)
    ensures r == FileFunction(file, rva, size, functions, index)
  {
    var address :- U32At(file, functions + index * 4);
    if address >= rva && address < rva + size {
      return Err(ExportNotFound);
    }
    return Ok(address);
  }

  method ReadFileName(file: seq<byte>, layout: Layout, names: nat, i: nat) returns (name: Result<seq<byte>, PeError>)
    ensures name == FileName(file, layout, names, i)
  {
    var rva :- U32At(file, names + i * 4);
    var offset :- RvaOffset(layout, rva);
    var s := ReadCString(file, offset);
    return if s.None? then Err(InvalidString) else Ok(s.value);
  }

  method SearchFile(file: seq<byte>, layout: Layout, rva: u32, size: u32, names: nat, ordinals: nat, functions: nat,
                    count: nat, name: seq<byte>) returns (r: Result<u32, PeError>)
    ensures r == FileSearch(file, layout, rva, size, names, ordinals, functions, count, name)
  {
    hide CString, Less, Get16, Get32, OffsetOf, FileName, FileFunction;
    ghost var table := FileNames(file, layout, names, count);
    var low, high := 0, count;
    while low < high
      invariant 0 <= low <= high <= count
      invariant Search(table, low, high, name) == Search(table, 0, count, name)
    {
      var mid := (low + high) / 2;
      assert table[mid] == FileName(file, layout, names, mid);
      var exportName := ReadFileName(file, layout, names, mid);
      if exportName.Err? {
        return Err(exportName.error);
      }
      if exportName.value == name {
        var ordinal :- U16At(file, ordinals + mid * 2);
        r := ExportAt(file, rva, size, functions, ordinal);
        return;
      } else if Less(exportName.value, name) {
        low := mid + 1;
      } else {
        high := mid;
      }
    }
    return Err(ExportNotFound);
  }

  /** The export with `ordinal`. */
  function FileByOrdinal(file: seq<byte>, layout: Layout, rva: u32, size: u32, ordinal: u32): Result<u32, PeError> {
    if rva == 0 || size == 0 then Err(ExportNotFound)
    else
      var d :- Offset(layout, rva);
      var base :- U32At(file, d + 0x10);
      var count :- U32At(file, d + 0x14);
      var rvaOfFunctions :- U32At(file, d + 0x1C);
      if ordinal < base || ordinal - base >= count then Err(ExportNotFound)
      else
        var functions :- Offset(layout, rvaOfFunctions);
        FileFunction(file, rva, size, functions, ordinal - base)
  }

  // ------------------------------------------------------------------ what the file says

  /** Where the tables of the file's export directory lie: names, ordinals and addresses. */
  ghost predicate FileTables(file: seq<byte>, layout: Layout, rva: u32, size: u32, d: nat,
                             names: nat, ordinals: nat, functions: nat) {
    && rva != 0 && size != 0 && OffsetOf(layout, rva) == Some(d) && d + 40 <= |file|
    && OffsetOf(layout, Get32(file, d + 0x20)) == Some(names)
    && OffsetOf(layout, Get32(file, d + 0x24)) == Some(ordinals)
    && OffsetOf(layout, Get32(file, d + 0x1C)) == Some(functions)
  }

  /** Entry `k` of the file's name table is `name`. */
  ghost predicate FileNamed(file: seq<byte>, layout: Layout, names: nat, k: nat, name: seq<byte>) {
    && names + 4 * k + 4 <= |file| && OffsetOf(layout, Get32(file, names + 4 * k)).Some?
    && StringAt(file, OffsetOf(layout, Get32(file, names + 4 * k)).value, name)
  }

  /** Entry `k` of the file's ordinal table leads to `r`, which is no forwarder. */
  ghost predicate FileLeads(file: seq<byte>, rva: u32, size: u32, ordinals: nat, functions: nat, k: nat, r: u32) {
    && ordinals + 2 * k + 2 <= |file|
    && var at := functions + 4 * Get16(file, ordinals + 2 * k);
    at + 4 <= |file| && Get32(file, at) == r && !(rva <= r < rva + size)
  }

  ghost predicate FileLists(file: seq<byte>, layout: Layout, rva: u32, size: u32, d: nat, names: nat, ordinals: nat,
                            functions: nat, k: nat, name: seq<byte>, r: u32) {
    && FileTables(file, layout, rva, size, d, names, ordinals, functions)
    && k < Get32(file, d + 0x18) && FileNamed(file, layout, names, k, name)
    && FileLeads(file, rva, size, ordinals, functions, k, r)
  }

  /** What a name resolves to in the file is listed there. */
  lemma FileListed(file: seq<byte>, layout: Layout, rva: u32, size: u32, name: seq<byte>, r: u32)
    requires FileByName(file, layout, rva, size, name) == Ok(r)
    ensures exists d: nat, names: nat, ordinals: nat, functions: nat, k: nat ::
      FileLists(file, layout, rva, size, d, names, ordinals, functions, k, name, r)
  {
    hide Get32, Get16, OffsetOf, CString, StringAt;
    var d := OffsetOf(layout, rva).value;
    var names, ordinals := OffsetOf(layout, Get32(file, d + 0x20)).value, OffsetOf(layout, Get32(file, d + 0x24)).value;
    var functions := OffsetOf(layout, Get32(file, d + 0x1C)).value;
    var count := Get32(file, d + 0x18);
    var table := FileNames(file, layout, names, count);
    var k := Search(table, 0, count, name).index;
    assert FileName(file, layout, names, k) == table[k] == Ok(name);
    CStringIff(file, OffsetOf(layout, Get32(file, names + k * 4)).value, name);
    assert FileLists(file, layout, rva, size, d, names, ordinals, functions, k, name, r);
  }

  /** Which error a lookup by name ends with, as far as the directory decides it. */
  lemma FileErrors(file: seq<byte>, layout: Layout, rva: u32, size: u32, name: seq<byte>)
    ensures rva == 0 || size == 0 ==> FileByName(file, layout, rva, size, name) == Err(ExportNotFound)
    ensures rva != 0 && size != 0 && OffsetOf(layout, rva).None? ==>
      FileByName(file, layout, rva, size, name) == Err(RvaNotInSection)
    ensures rva != 0 && size != 0 && OffsetOf(layout, rva).Some? && OffsetOf(layout, rva).value + 40 > |file| ==>
      FileByName(file, layout, rva, size, name) == Err(BufferTooSmall)
  {
    hide Get32, Get16, OffsetOf, CString, StringAt, Offset;
    OffsetErrors(layout, rva);
  }

  /** The file's directory at `d` gives `ordinal` the address `r`, which is no forwarder. */
  ghost predicate FileOrdinal(file: seq<byte>, layout: Layout, rva: u32, size: u32, ordinal: u32, r: u32,
                              d: nat, functions: nat) {
    && rva != 0 && size != 0 && OffsetOf(layout, rva) == Some(d) && d + 32 <= |file|
    && Get32(file, d + 0x10) <= ordinal < Get32(file, d + 0x10) + Get32(file, d + 0x14)
    && OffsetOf(layout, Get32(file, d + 0x1C)) == Some(functions)
    && var at := functions + 4 * (ordinal - Get32(file, d + 0x10));
    at + 4 <= |file| && Get32(file, at) == r && !(rva <= r < rva + size)
  }

  /** An ordinal resolves to `r` exactly if its slot in the file holds `r`. */
  lemma FileOrdinalIff(file: seq<byte>, layout: Layout, rva: u32, size: u32, ordinal: u32, r: u32)
    ensures FileByOrdinal(file, layout, rva, size, ordinal) == Ok(r) <==>
      exists d: nat, functions: nat :: FileOrdinal(file, layout, rva, size, ordinal, r, d, functions)
    ensures rva == 0 || size == 0 ==> FileByOrdinal(file, layout, rva, size, ordinal) == Err(ExportNotFound)
    ensures rva != 0 && size != 0 && OffsetOf(layout, rva).None? ==>
      FileByOrdinal(file, layout, rva, size, ordinal) == Err(RvaNotInSection)
  {
    hide Get32, OffsetOf, Offset;
    OffsetErrors(layout, rva);
    if OffsetOf(layout, rva).Some? && OffsetOf(layout, rva).value + 32 <= |file| {
      var d := OffsetOf(layout, rva).value;
      OffsetErrors(layout, Get32(file, d + 0x1C));
      if OffsetOf(layout, Get32(file, d + 0x1C)).Some? {
        var functions := OffsetOf(layout, Get32(file, d + 0x1C)).value;
        assert FileByOrdinal(file, layout, rva, size, ordinal) == Ok(r) ==>
          FileOrdinal(file, layout, rva, size, ordinal, r, d, functions);
      }
    }
  }

  lemma OffsetErrors(layout: Layout, rva: u32)
    ensures Offset(layout, rva) == if OffsetOf(layout, rva).Some? then Ok(OffsetOf(layout, rva).value)
      else Err(RvaNotInSection)
  {
  }

  // ------------------------------------------------------------------ both views resolve alike

  function Maybe<E>(r: Result<u32, E>): Option<u32> {
    match r
    case Ok(v) => Some(v)
    case Err(_) => None
  }

  lemma SameGet32(a: seq<byte>, b: seq<byte>, i: nat, o: nat, n: nat, k: nat)
    requires i + n <= |a| && o + n <= |b| && a[i..i + n] == b[o..o + n] && k + 4 <= n
    ensures Get32(a, i + k) == Get32(b, o + k)
  {
    var x, y := a[i..i + n], b[o..o + n];
    assert forall j {:trigger x[j]} :: k <= j < k + 4 ==> x[j] == a[i + j] && y[j] == b[o + j];
    assert x[k] == y[k] && x[k + 1] == y[k + 1] && x[k + 2] == y[k + 2] && x[k + 3] == y[k + 3];
  }

  lemma SameGet16(a: seq<byte>, b: seq<byte>, i: nat, o: nat, n: nat, k: nat)
    requires i + n <= |a| && o + n <= |b| && a[i..i + n] == b[o..o + n] && k + 2 <= n
    ensures Get16(a, i + k) == Get16(b, o + k)
  {
    var x, y := a[i..i + n], b[o..o + n];
    assert forall j {:trigger x[j]} :: k <= j < k + 2 ==> x[j] == a[i + j] && y[j] == b[o + j];
    assert x[k] == y[k] && x[k + 1] == y[k + 1];
  }

  lemma {:induction false} SameEnd(a: seq<byte>, b: seq<byte>, i: nat, o: nat, n: nat)
    requires i + n <= |a| && o + n <= |b| && a[i..i + n] == b[o..o + n]
    requires EndOf(a, i) < i + n
    ensures EndOf(b, o) - o == EndOf(a, i) - i
    decreases n
  {
    assert a[i] == a[i..i + n][0] && b[o] == b[o..o + n][0];
    if a[i] == 0 {
    } else {
      assert a[i + 1..i + n] == a[i..i + n][1..] && b[o + 1..o + n] == b[o..o + n][1..];
      SameEnd(a, b, i + 1, o + 1, n - 1);
    }
  }

  /** The name at `rva`, with its terminator, shows the same in both views. */
  ghost predicate SameName(file: seq<byte>, layout: Layout, image: seq<byte>, rva: u32) {
    rva < |image| && EndOf(image, rva) < |image| && Same(file, layout, image, rva, EndOf(image, rva) + 1 - rva)
  }

  lemma SameCString(file: seq<byte>, layout: Layout, image: seq<byte>, rva: u32)
    requires SameName(file, layout, image, rva)
    ensures OffsetOf(layout, rva).Some? && CString(file, OffsetOf(layout, rva).value) == CString(image, rva)
  {
    var o, n := OffsetOf(layout, rva).value, EndOf(image, rva) + 1 - rva;
    SameEnd(image, file, rva, o, n);
    SliceOfSlice(image, rva, rva + n, 0, n - 1);
    SliceOfSlice(file, o, o + n, 0, n - 1);
  }

  /** The names, ordinals and addresses that lookups by name read show the same in both views. */
  ghost predicate SameNames(file: seq<byte>, layout: Layout, image: seq<byte>, x: Directory) {
    x.nameCount > 0 ==>
      && Same(file, layout, image, x.names, 4 * x.nameCount)
      && Same(file, layout, image, x.ordinals, 2 * x.nameCount)
      && Same(file, layout, image, x.functions, 4 * x.functionCount)
      && forall i: nat {:trigger SameEntry(file, layout, image, x, i)} ::
           i < x.nameCount ==> SameEntry(file, layout, image, x, i)
  }

  ghost predicate SameEntry(file: seq<byte>, layout: Layout, image: seq<byte>, x: Directory, i: nat) {
    && x.names + 4 * i + 4 <= |image| && SameName(file, layout, image, Get32(image, x.names + 4 * i))
    && x.ordinals + 2 * i + 2 <= |image| && Get16(image, x.ordinals + 2 * i) < x.functionCount
  }

  /** The addresses that lookups by ordinal read show the same. */
  ghost predicate SameFunctions(file: seq<byte>, layout: Layout, image: seq<byte>, x: Directory) {
    x.functionCount > 0 ==> Same(file, layout, image, x.functions, 4 * x.functionCount)
  }

  lemma SameNameEntry(file: seq<byte>, layout: Layout, image: seq<byte>, x: Directory, i: nat)
    requires Same(file, layout, image, x.names, 4 * x.nameCount) && i < x.nameCount
      && SameEntry(file, layout, image, x, i)
    ensures var t, u := LoadedName(image, x, i), FileName(file, layout, OffsetOf(layout, x.names).value, i);
            t.Ok? == u.Ok? && (t.Ok? ==> t.value == u.value)
  {
    hide Get32, CString, OffsetOf;
    var names := OffsetOf(layout, x.names).value;
    SameGet32(image, file, x.names, names, 4 * x.nameCount, 4 * i);
    SameCString(file, layout, image, Get32(image, x.names + 4 * i));
  }

  lemma {:induction false} SameSearch<E, F>(t: seq<Result<seq<byte>, E>>, u: seq<Result<seq<byte>, F>>,
                                            low: nat, high: nat, name: seq<byte>)
    requires low <= high <= |t| && |u| == |t|
    requires forall i {:trigger t[i]} {:trigger u[i]} ::
      0 <= i < |t| ==> t[i].Ok? == u[i].Ok? && (t[i].Ok? ==> t[i].value == u[i].value)
    ensures Search(t, low, high, name) == Search(u, low, high, name)
    decreases high - low
  {
    if high <= low {
    } else {
      var mid := (low + high) / 2;
      assert t[mid].Ok? == u[mid].Ok?;
      SameSearch(t, u, low, mid, name);
      SameSearch(t, u, mid + 1, high, name);
    }
  }

  lemma SameFunction(file: seq<byte>, layout: Layout, image: seq<byte>, x: Directory, index: nat)
    requires Same(file, layout, image, x.functions, 4 * x.functionCount) && index < x.functionCount
    ensures LoadedFunction(image, x, index)
      == Maybe(FileFunction(file, x.rva, x.size, OffsetOf(layout, x.functions).value, index))
  {
    hide Get32, OffsetOf;
    SameGet32(image, file, x.functions, OffsetOf(layout, x.functions).value, 4 * x.functionCount, 4 * index);
  }

  lemma SameHit(file: seq<byte>, layout: Layout, image: seq<byte>, x: Directory, i: nat)
    requires Same(file, layout, image, x.functions, 4 * x.functionCount)
    requires Same(file, layout, image, x.ordinals, 2 * x.nameCount) && i < x.nameCount
      && SameEntry(file, layout, image, x, i)
    ensures LoadedAt(image, x, i)
            == Maybe(FileAt(file, x.rva, x.size, OffsetOf(layout, x.ordinals).value,
                            OffsetOf(layout, x.functions).value, i))
  {
    hide Get16, OffsetOf, LoadedFunction, FileFunction;
    SameGet16(image, file, x.ordinals, OffsetOf(layout, x.ordinals).value, 2 * x.nameCount, 2 * i);
    SameFunction(file, layout, image, x, Get16(image, x.ordinals + 2 * i));
  }

  lemma SameSearchByName(file: seq<byte>, layout: Layout, image: seq<byte>, x: Directory, name: seq<byte>)
    requires Same(file, layout, image, x.names, 4 * x.nameCount)
    requires Same(file, layout, image, x.ordinals, 2 * x.nameCount)
    requires Same(file, layout, image, x.functions, 4 * x.functionCount)
    requires forall i: nat {:trigger SameEntry(file, layout, image, x, i)} ::
      i < x.nameCount ==> SameEntry(file, layout, image, x, i)
    ensures LoadedByName(image, x, name)
            == Maybe(FileSearch(file, layout, x.rva, x.size, OffsetOf(layout, x.names).value,
                                OffsetOf(layout, x.ordinals).value,
                                OffsetOf(layout, x.functions).value, x.nameCount, name))
  {
    hide SameEntry, OffsetOf, LoadedName, FileName, LoadedAt, FileAt;
    var names := OffsetOf(layout, x.names).value;
    var t, u := LoadedNames(image, x), FileNames(file, layout, names, x.nameCount);
    forall i {:trigger t[i]} {:trigger u[i]} | 0 <= i < |t|
      ensures t[i].Ok? == u[i].Ok? && (t[i].Ok? ==> t[i].value == u[i].value)
    {
      assert SameEntry(file, layout, image, x, i);
      SameNameEntry(file, layout, image, x, i);
    }
    SameSearch(t, u, 0, x.nameCount, name);
    var found := Search(t, 0, x.nameCount, name);
    if found.Hit? {
      assert SameEntry(file, layout, image, x, found.index);
      SameHit(file, layout, image, x, found.index);
    }
  }

  lemma SameDirectory(file: seq<byte>, layout: Layout, image: seq<byte>, rva: u32, size: u32)
    requires Same(file, layout, image, rva, 40) && ExportIndex(image, rva, size).Some?
    ensures var x := ExportIndex(image, rva, size).value;
            var d := OffsetOf(layout, rva).value;
            && d + 40 <= |file|
            && Get32(file, d + 0x10) == x.base && Get32(file, d + 0x14) == x.functionCount
            && Get32(file, d + 0x18) == x.nameCount
            && Get32(file, d + 0x1C) == x.functions && Get32(file, d + 0x20) == x.names
            && Get32(file, d + 0x24) == x.ordinals
  {
    hide Get32, OffsetOf;
    var d := OffsetOf(layout, rva).value;
    SameGet32(image, file, rva, d, 40, 0x10);
    SameGet32(image, file, rva, d, 40, 0x14);
    SameGet32(image, file, rva, d, 40, 0x18);
    SameGet32(image, file, rva, d, 40, 0x1C);
    SameGet32(image, file, rva, d, 40, 0x20);
    SameGet32(image, file, rva, d, 40, 0x24);
  }

  /** Where the name table and what it leads to show the same, every name resolves alike in both views. */
  lemma SameByName(file: seq<byte>, layout: Layout, image: seq<byte>, rva: u32, size: u32, name: seq<byte>)
    requires Same(file, layout, image, rva, 40) && ExportIndex(image, rva, size).Some?
    requires SameNames(file, layout, image, ExportIndex(image, rva, size).value)
    ensures LoadedByName(image, ExportIndex(image, rva, size).value, name)
            == Maybe(FileByName(file, layout, rva, size, name))
  {
    hide Get32, OffsetOf, LoadedNames, FileNames;
    var x := ExportIndex(image, rva, size).value;
    SameDirectory(file, layout, image, rva, size);
    if x.nameCount > 0 {
      hide FileSearch, LoadedByName;
      SameSearchByName(file, layout, image, x, name);
    }
  }

  /** Where the address table shows the same, every ordinal resolves alike; the name tables do not matter. */
  lemma SameByOrdinal(file: seq<byte>, layout: Layout, image: seq<byte>, rva: u32, size: u32, ordinal: u32)
    requires Same(file, layout, image, rva, 40) && ExportIndex(image, rva, size).Some?
    requires SameFunctions(file, layout, image, ExportIndex(image, rva, size).value)
    ensures LoadedByOrdinal(image, ExportIndex(image, rva, size).value, ordinal)
            == Maybe(FileByOrdinal(file, layout, rva, size, ordinal))
  {
    hide Get32, OffsetOf, LoadedFunction, FileFunction;
    var x := ExportIndex(image, rva, size).value;
    SameDirectory(file, layout, image, rva, size);
    if x.base <= ordinal && ordinal - x.base < x.functionCount {
      SameFunction(file, layout, image, x, ordinal - x.base);
    }
  }

  // ------------------------------------------------------------------ on loaded images

  /** Bytes copied from the file and patched by no relocation. */
  ghost predicate Steady(file: seq<byte>, layout: Layout, relocRva: u32, relocSize: u32, rva: nat, n: nat)
    requires HeadersFit(file, layout)
  {
    n > 0 && Backed(file, layout, rva, n) && Unrelocated(file, layout, relocRva, relocSize, rva, n)
  }

  /** An image whose relocations are well formed and whose export directory is steady. */
  ghost predicate Exporting(file: seq<byte>, layout: Layout, relocRva: u32, relocSize: u32, delta: int, rva: u32,
                            size: u32) {
    && HeadersFit(file, layout) && Tidy(layout.sections, layout.sizeOfHeaders)
    && Relocations.WellFormed(Placed(file, layout), relocRva, relocRva + relocSize, false)
    && Steady(file, layout, relocRva, relocSize, rva, 40)
    && ExportIndex(Loaded(file, layout, relocRva, relocSize, delta), rva, size).Some?
  }

  /** The export directory as the loaded image shows it. */
  function Exports(file: seq<byte>, layout: Layout, relocRva: u32, relocSize: u32, delta: int, rva: u32,
                   size: u32): Directory
    requires HeadersFit(file, layout) && ExportIndex(Loaded(file, layout, relocRva, relocSize, delta), rva, size).Some?
  {
    ExportIndex(Loaded(file, layout, relocRva, relocSize, delta), rva, size).value
  }

  /** The tables of names, ordinals and addresses and all names are steady, if there are names at all. */
  ghost predicate SteadyNames(file: seq<byte>, layout: Layout, relocRva: u32, relocSize: u32, image: seq<byte>,
                              x: Directory)
    requires HeadersFit(file, layout)
  {
    x.nameCount > 0 ==>
      && Steady(file, layout, relocRva, relocSize, x.names, 4 * x.nameCount)
      && Steady(file, layout, relocRva, relocSize, x.ordinals, 2 * x.nameCount)
      && Steady(file, layout, relocRva, relocSize, x.functions, 4 * x.functionCount)
      && forall i: nat {:trigger SteadyEntry(file, layout, relocRva, relocSize, image, x, i)} ::
           i < x.nameCount ==> SteadyEntry(file, layout, relocRva, relocSize, image, x, i)
  }

  ghost predicate SteadyEntry(file: seq<byte>, layout: Layout, relocRva: u32, relocSize: u32, image: seq<byte>,
                              x: Directory, i: nat)
    requires HeadersFit(file, layout)
  {
    && x.names + 4 * i + 4 <= |image| && x.ordinals + 2 * i + 2 <= |image|
    && Get16(image, x.ordinals + 2 * i) < x.functionCount
    && var rva := Get32(image, x.names + 4 * i);
    rva < |image| && EndOf(image, rva) < |image|
    && Steady(file, layout, relocRva, relocSize, rva, EndOf(image, rva) + 1 - rva)
  }

  /**
   On a loaded and relocated image a name resolves to `vaBase + r` exactly when the file's own export
   table says `r`. An image without names needs nothing of its name tables.
   */
  lemma NamesAgree(file: seq<byte>, layout: Layout, relocRva: u32, relocSize: u32, delta: int, rva: u32, size: u32,
                   vaBase: u64, name: seq<byte>)
    requires Exporting(file, layout, relocRva, relocSize, delta, rva, size)
    requires SteadyNames(file, layout, relocRva, relocSize, Loaded(file, layout, relocRva, relocSize, delta),
                         Exports(file, layout, relocRva, relocSize, delta, rva, size))
    ensures Based(vaBase, LoadedByName(Loaded(file, layout, relocRva, relocSize, delta),
                                       Exports(file, layout, relocRva, relocSize, delta, rva, size), name))
            == Based(vaBase, Maybe(FileByName(file, layout, rva, size, name)))
  {
    hide Loaded, Placed, Relocations.WellFormed, Tidy, Backed, Unrelocated, Same, LoadedByName, FileByName;
    var image := Loaded(file, layout, relocRva, relocSize, delta);
    var x := ExportIndex(image, rva, size).value;
    LoadedMatchesFile(file, layout, relocRva, relocSize, delta, rva, 40);
    if x.nameCount > 0 {
      LoadedMatchesFile(file, layout, relocRva, relocSize, delta, x.names, 4 * x.nameCount);
      LoadedMatchesFile(file, layout, relocRva, relocSize, delta, x.ordinals, 2 * x.nameCount);
      LoadedMatchesFile(file, layout, relocRva, relocSize, delta, x.functions, 4 * x.functionCount);
      forall i: nat {:trigger SameEntry(file, layout, image, x, i)} | i < x.nameCount
        ensures SameEntry(file, layout, image, x, i)
      {
        assert SteadyEntry(file, layout, relocRva, relocSize, image, x, i);
        var at := Get32(image, x.names + 4 * i);
        LoadedMatchesFile(file, layout, relocRva, relocSize, delta, at, EndOf(image, at) + 1 - at);
      }
    }
    SameByName(file, layout, image, rva, size, name);
  }

  /** An ordinal resolves to `vaBase + r` exactly when the file's own table says `r`, with or without names. */
  lemma OrdinalsAgree(file: seq<byte>, layout: Layout, relocRva: u32, relocSize: u32, delta: int, rva: u32, size: u32,
                      vaBase: u64, ordinal: u32)
    requires Exporting(file, layout, relocRva, relocSize, delta, rva, size)
    requires var x := Exports(file, layout, relocRva, relocSize, delta, rva, size);
             x.functionCount > 0 ==> Steady(file, layout, relocRva, relocSize, x.functions, 4 * x.functionCount)
    ensures Based(vaBase, LoadedByOrdinal(Loaded(file, layout, relocRva, relocSize, delta),
                                          Exports(file, layout, relocRva, relocSize, delta, rva, size), ordinal))
            == Based(vaBase, Maybe(FileByOrdinal(file, layout, rva, size, ordinal)))
  {
    hide Loaded, Placed, Relocations.WellFormed, Tidy, Backed, Unrelocated, Same, LoadedByOrdinal, FileByOrdinal;
    var image := Loaded(file, layout, relocRva, relocSize, delta);
    var x := ExportIndex(image, rva, size).value;
    LoadedMatchesFile(file, layout, relocRva, relocSize, delta, rva, 40);
    if x.functionCount > 0 {
      LoadedMatchesFile(file, layout, relocRva, relocSize, delta, x.functions, 4 * x.functionCount);
    }
    SameByOrdinal(file, layout, image, rva, size, ordinal);
  }
}
