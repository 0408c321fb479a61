/** Import linking: the address table of a loaded image is patched in place while the import tables are read from it. */
module PeImports {
  import opened Bytes
  import opened Wrappers
  import opened PeExports
  import opened Relocations

  datatype Symbol = ByOrdinal(ordinal: u16) | ByName(name: seq<byte>)

  datatype ImportError =
    | ModuleNotFound(dll: seq<byte>)
    | SymbolNotFound(symbol: Symbol)
    | InvalidExportDirectory
    | InvalidImportDirectory

  /** A loaded module; `exports` is the place of its export directory, if its headers give one. */
  datatype Module = Module(name: seq<byte>, image: seq<byte>, vaBase: u64, exports: Option<(u32, u32)>)

  // ------------------------------------------------------------------ finding the exporter

  const DLL: seq<byte> := [0x2E, 0x44, 0x4C, 0x4C]
  const EXE: seq<byte> := [0x2E, 0x45, 0x58, 0x45]
  const SYS: seq<byte> := [0x2E, 0x53, 0x59, 0x53]

  predicate EndsWith(s: seq<byte>, suffix: seq<byte>) {
    |suffix| <= |s| && s[|s| - |suffix|..] == suffix
  }

  /** The name without its extension. */
  function BaseName(dll: seq<byte>): seq<byte> {
    var u := Upper(dll);
    if EndsWith(u, DLL) || EndsWith(u, EXE) || EndsWith(u, SYS) then u[..|u| - 4] else u
  }

  function FindByName(modules: seq<Module>, name: seq<byte>): Option<Module>
    decreases |modules|
  {
    if modules == [] then None
    else if Upper(modules[0].name) == Upper(name) then Some(modules[0])
    else FindByName(modules[1..], name)
  }

  /** The module a DLL name stands for, and its exports. */
  function Exporter(modules: seq<Module>, dll: seq<byte>): Result<(Module, Directory), ImportError> {
    var base := FindByName(modules, BaseName(dll));
    var m := if base.Some? then base else FindByName(modules, dll);
    if m.None? then Err(ModuleNotFound(dll))
    else if m.value.exports.None? then Err(InvalidExportDirectory)
    else
      var x := ExportIndex(m.value.image, m.value.exports.value.0, m.value.exports.value.1);
      if x.None? then Err(InvalidExportDirectory) else Ok((m.value, x.value))
  }

  /** The virtual address of a symbol of the exporter, as the 64-bit word that is stored. */
  function Resolve(e: (Module, Directory), symbol: Symbol): Result<u64, ImportError> {
    var va := Based(e.0.vaBase, match symbol
                                case ByOrdinal(o) => LoadedByOrdinal(e.0.image, e.1, o)
                                case ByName(n) => LoadedByName(e.0.image, e.1, n));
    if va.None? then Err(SymbolNotFound(symbol)) else Ok(va.value % U64_END)
  }

  /** What a lookup entry names. */
  function SymbolAt(image: seq<byte>, thunk: u64): Result<Symbol, ImportError> {
    if thunk >= 0x8000_0000_0000_0000 then Ok(ByOrdinal(thunk % 0x1_0000))
    else if thunk + 2 >= |image| then Err(InvalidImportDirectory)
    else
      match CString(image, thunk + 2)
      case None => Err(InvalidImportDirectory)
      case Some(s) => Ok(ByName(s))
  }

  function Target(image: seq<byte>, e: (Module, Directory), thunk: u64): Result<u64, ImportError> {
    var symbol :- SymbolAt(image, thunk);
    Resolve(e, symbol)
  }

  // ------------------------------------------------------------------ what the loops do

  /** The image when linking stops, and why if it failed. */
  datatype Linked = Linked(image: seq<byte>, error: Option<ImportError>)

  predicate Fits(length: nat, lookup: nat, iat: nat, k: nat) {
    lookup + 8 * k + 8 <= length && iat + 8 * k + 8 <= length
  }

  function LinkThunks(image: seq<byte>, e: (Module, Directory), lookup: nat, iat: nat, k: nat): (r: Linked)
    ensures |r.image| == |image|
    decreases |image| - (iat + 8 * k)
  {
    if !Fits(|image|, lookup, iat, k) || Get64(image, lookup + 8 * k) == 0 then Linked(image, None)
    else
      var va := Target(image, e, Get64(image, lookup + 8 * k));
      if va.Err? then Linked(image, Some(va.error))
      else LinkThunks(Put(image, iat + 8 * k, LE64(va.value)), e, lookup, iat, k + 1)
  }

  datatype Descriptor = Descriptor(lookup: u32, name: u32, addresses: u32)

  function DescriptorAt(image: seq<byte>, d: nat): Descriptor
    requires d + 20 <= |image|
  {
    Descriptor(Get32(image, d), Get32(image, d + 12), Get32(image, d + 16))
  }

  /** The lookup table, or the address table itself when there is none. */
  function LookupTable(t: Descriptor): u32 {
    if t.lookup != 0 then t.lookup else t.addresses
  }

  function ExporterAt(image: seq<byte>, modules: seq<Module>, t: Descriptor): Result<(Module, Directory), ImportError> {
    match CString(image, t.name)
    case None => Err(InvalidImportDirectory)
    case Some(dll) => Exporter(modules, dll)
  }

  function LinkDescriptors(image: seq<byte>, modules: seq<Module>, d: nat): (r: Linked)
    ensures |r.image| == |image|
    decreases |image| - d
  {
    if d + 20 > |image| then Linked(image, None)
    else
      var t := DescriptorAt(image, d);
      if t.name == 0 && t.addresses == 0 then Linked(image, None)
      else
        var e := ExporterAt(image, modules, t);
        if e.Err? then Linked(image, Some(e.error))
        else
          var r := LinkThunks(image, e.value, LookupTable(t), t.addresses, 0);
          if r.error.Some? then r else LinkDescriptors(r.image, modules, d + 20)
  }

  method PatchThunks(image: array<byte>, e: (Module, Directory), lookup: nat, iat: nat)
    returns (error: Option<ImportError>)
    modifies image
    ensures Linked(image[..], error) == LinkThunks(old(image[..]), e, lookup, iat, 0)
  {
    hide Get64, LE64, Target, Put;
    var k := 0;
    while Fits(image.Length, lookup, iat, k)
      invariant k >= 0 && LinkThunks(image[..], e, lookup, iat, k) == LinkThunks(old(image[..]), e, lookup, iat, 0)
      decreases image.Length - (iat + 8 * k)
    {
      var thunk := Get64(image[..], lookup + 8 * k);
      if thunk == 0 {
        break;
      }
      var va := Target(image[..], e, thunk);
      if va.Err? {
        return Some(va.error);
      }
      WriteBytes(image, iat + 8 * k, LE64(va.value));
      k := k + 1;
    }
    return None;
  }

  /** Links every import of the image whose import directory is at `rva`. */
  method ResolveImports(image: array<byte>, modules: seq<Module>, rva: u32, size: u32)
    returns (error: Option<ImportError>)
    modifies image
    ensures Linked(image[..], error) == if rva == 0 || size == 0 then Linked(old(image[..]), None)
      else LinkDescriptors(old(image[..]), modules, rva)
  {
    hide DescriptorAt, ExporterAt, LinkThunks;
    if rva == 0 || size == 0 {
      return None;
    }
    var d: nat := rva;
    while d + 20 <= image.Length
      invariant LinkDescriptors(image[..], modules, d) == LinkDescriptors(old(image[..]), modules, rva)
      decreases image.Length - d
    {
      var t := DescriptorAt(image[..], d);
      if t.name == 0 && t.addresses == 0 {
        break;
      }
      var e := ExporterAt(image[..], modules, t);
      if e.Err? {
        return Some(e.error);
      }
      error := PatchThunks(image, e.value, LookupTable(t), t.addresses);
      if error.Some? {
        return;
      }
      d := d + 20;
    }
    return None;
  }

  // ------------------------------------------------------------------ what the tables ask for

  /** One address to be stored. */
  datatype Slot = Slot(at: nat, va: u64)

  datatype Plan = Plan(slots: seq<Slot>, error: Option<ImportError>)

  /** What the tables of the image, as it is on entry, ask for: entry k on of one descriptor. */
  function ThunkPlan(image: seq<byte>, e: (Module, Directory), lookup: nat, iat: nat, k: nat): Plan
    decreases |image| - (iat + 8 * k)
  {
    if !Fits(|image|, lookup, iat, k) || Get64(image, lookup + 8 * k) == 0 then Plan([], None)
    else
      var va := Target(image, e, Get64(image, lookup + 8 * k));
      if va.Err? then Plan([], Some(va.error))
      else
        var rest := ThunkPlan(image, e, lookup, iat, k + 1);
        Plan([Slot(iat + 8 * k, va.value)] + rest.slots, rest.error)
  }

  function ImportPlan(image: seq<byte>, modules: seq<Module>, d: nat): Plan
    decreases |image| - d
  {
    if d + 20 > |image| then Plan([], None)
    else
      var t := DescriptorAt(image, d);
      if t.name == 0 && t.addresses == 0 then Plan([], None)
      else
        var e := ExporterAt(image, modules, t);
        if e.Err? then Plan([], Some(e.error))
        else
          var p := ThunkPlan(image, e.value, LookupTable(t), t.addresses, 0);
          if p.error.Some? then p
          else
            var rest := ImportPlan(image, modules, d + 20);
            Plan(p.slots + rest.slots, rest.error)
  }

  function Patch(image: seq<byte>, slots: seq<Slot>): (r: seq<byte>)
    ensures |r| == |image|
    decreases |slots|
  {
    if slots == [] then image
    else
      var n := |slots| - 1;
      var r := Patch(image, slots[..n]);
      if slots[n].at + 8 <= |image| then Put(r, slots[n].at, LE64(slots[n].va)) else r
  }

  predicate Beyond(s: Slot, lo: nat, hi: nat) {
    s.at + 8 <= lo || hi <= s.at
  }

  /** None of the slots touches the bytes from `lo` to `hi`. */
  ghost predicate Clear(slots: seq<Slot>, lo: nat, hi: nat) {
    forall i {:trigger slots[i]} :: 0 <= i < |slots| ==> Beyond(slots[i], lo, hi)
  }

  /** One past the terminator of the string at `at`. */
  function StringEnd(image: seq<byte>, at: nat): nat {
    if at < |image| then EndOf(image, at) + 1 else at
  }

  /** No byte that decides entry k on is read after one of the slots before it was written. */
  ghost predicate ThunksSteady(image: seq<byte>, e: (Module, Directory), lookup: nat, iat: nat, k: nat,
                               before: seq<Slot>)
    decreases |image| - (iat + 8 * k)
  {
    Fits(|image|, lookup, iat, k) ==>
      && Clear(before, lookup + 8 * k, lookup + 8 * k + 8)
      && var thunk := Get64(image, lookup + 8 * k);
      (thunk != 0 ==>
        && (thunk < 0x8000_0000_0000_0000 ==> Clear(before, thunk + 2, StringEnd(image, thunk + 2)))
        && var va := Target(image, e, thunk);
        (va.Ok? ==> ThunksSteady(image, e, lookup, iat, k + 1, before + [Slot(iat + 8 * k, va.value)])))
  }

  /** No byte of the import tables is read after it was patched. */
  ghost predicate ImportsSteady(image: seq<byte>, modules: seq<Module>, d: nat, before: seq<Slot>)
    decreases |image| - d
  {
    d + 20 <= |image| ==>
      && Clear(before, d, d + 20)
      && var t := DescriptorAt(image, d);
      (!(t.name == 0 && t.addresses == 0) ==>
        && Clear(before, t.name, StringEnd(image, t.name))
        && var e := ExporterAt(image, modules, t);
        (e.Ok? ==>
          && ThunksSteady(image, e.value, LookupTable(t), t.addresses, 0, before)
          && var p := ThunkPlan(image, e.value, LookupTable(t), t.addresses, 0);
          (p.error.None? ==> ImportsSteady(image, modules, d + 20, before + p.slots))))
  }

  // ------------------------------------------------------------------ patched images read as before

  lemma {:induction false} PatchClear(image: seq<byte>, slots: seq<Slot>, lo: nat, hi: nat)
    requires Clear(slots, lo, hi) && lo <= hi
    ensures forall j {:trigger Patch(image, slots)[j]} ::
      lo <= j < hi && j < |image| ==> Patch(image, slots)[j] == image[j]
    decreases |slots|
  {
    hide LE64;
    if slots == [] {
    } else {
      var n := |slots| - 1;
      PatchClear(image, slots[..n], lo, hi);
      assert Beyond(slots[n], lo, hi);
    }
  }

  lemma PatchSnoc(image: seq<byte>, slots: seq<Slot>, s: Slot)
    ensures Patch(image, slots + [s]) == if s.at + 8 <= |image| then Put(Patch(image, slots), s.at, LE64(s.va))
      else Patch(image, slots)
  {
    assert (slots + [s])[..|slots|] == slots;
  }

  lemma Get64Clear(image: seq<byte>, slots: seq<Slot>, at: nat)
    requires at + 8 <= |image| && Clear(slots, at, at + 8)
    ensures Get64(Patch(image, slots), at) == Get64(image, at)
  {
    PatchClear(image, slots, at, at + 8);
    SliceEq(Patch(image, slots), image, at, at + 8);
    SameGet32(Patch(image, slots), image, at, at, 8, 0);
    SameGet32(Patch(image, slots), image, at, at, 8, 4);
  }

  lemma {:induction false} CStringAgree(a: seq<byte>, b: seq<byte>, at: nat)
    requires |a| == |b| && forall j {:trigger a[j]} :: at <= j < StringEnd(b, at) && j < |b| ==> a[j] == b[j]
    ensures CString(a, at) == CString(b, at)
  {
    if at < |b| {
      var end := EndOf(b, at);
      EndAgree(a, b, at);
      SliceEq(a, b, at, end);
    }
  }

  lemma {:induction false} EndAgree(a: seq<byte>, b: seq<byte>, at: nat)
    requires |a| == |b| && at <= |b| && forall j {:trigger a[j]} :: at <= j <= EndOf(b, at) && j < |b| ==> a[j] == b[j]
    ensures EndOf(a, at) == EndOf(b, at)
    decreases |b| - at
  {
    if |b| <= at || b[at] == 0 {
    } else {
      EndAgree(a, b, at + 1);
    }
  }

  lemma TargetClear(image: seq<byte>, slots: seq<Slot>, e: (Module, Directory), thunk: u64)
    requires thunk < 0x8000_0000_0000_0000 ==> Clear(slots, thunk + 2, StringEnd(image, thunk + 2))
    ensures Target(Patch(image, slots), e, thunk) == Target(image, e, thunk)
  {
    hide Resolve, CString, Patch, StringEnd;
    if thunk < 0x8000_0000_0000_0000 {
      CStringClear(image, slots, thunk + 2);
    }
  }

  lemma CStringClear(image: seq<byte>, slots: seq<Slot>, at: nat)
    requires Clear(slots, at, StringEnd(image, at))
    ensures CString(Patch(image, slots), at) == CString(image, at)
  {
    PatchClear(image, slots, at, StringEnd(image, at));
    CStringAgree(Patch(image, slots), image, at);
  }

  lemma DescriptorClear(image: seq<byte>, slots: seq<Slot>, d: nat)
    requires d + 20 <= |image| && Clear(slots, d, d + 20)
    ensures DescriptorAt(Patch(image, slots), d) == DescriptorAt(image, d)
  {
    PatchClear(image, slots, d, d + 20);
    SliceEq(Patch(image, slots), image, d, d + 20);
    SameGet32(Patch(image, slots), image, d, d, 20, 0);
    SameGet32(Patch(image, slots), image, d, d, 20, 12);
    SameGet32(Patch(image, slots), image, d, d, 20, 16);
  }

  // ------------------------------------------------------------------ linking carries out the plan

  lemma {:induction false} ThunksFollowPlan(image: seq<byte>, e: (Module, Directory), lookup: nat, iat: nat, k: nat,
                                            before: seq<Slot>)
    requires ThunksSteady(image, e, lookup, iat, k, before)
    ensures var p := ThunkPlan(image, e, lookup, iat, k);
            LinkThunks(Patch(image, before), e, lookup, iat, k) == Linked(Patch(image, before + p.slots), p.error)
    decreases |image| - (iat + 8 * k)
  {
    hide Get64, LE64, Target, Patch, Clear, StringEnd, Put;
    var p := ThunkPlan(image, e, lookup, iat, k);
    assert before + [] == before;
    if !Fits(|image|, lookup, iat, k) {
    } else {
      Get64Clear(image, before, lookup + 8 * k);
      var thunk := Get64(image, lookup + 8 * k);
      if thunk != 0 {
        TargetClear(image, before, e, thunk);
        var va := Target(image, e, thunk);
        if va.Ok? {
          var s := Slot(iat + 8 * k, va.value);
          PatchSnoc(image, before, s);
          ThunksFollowPlan(image, e, lookup, iat, k + 1, before + [s]);
          var rest := ThunkPlan(image, e, lookup, iat, k + 1);
          assert before + [s] + rest.slots == before + p.slots;
        }
      }
    }
  }

  lemma {:induction false} ImportsFollowPlan(image: seq<byte>, modules: seq<Module>, d: nat, before: seq<Slot>)
    requires ImportsSteady(image, modules, d, before)
    ensures var p := ImportPlan(image, modules, d);
            LinkDescriptors(Patch(image, before), modules, d) == Linked(Patch(image, before + p.slots), p.error)
    decreases |image| - d
  {
    hide LinkThunks, ThunkPlan, DescriptorAt, Exporter, CString, Patch, Clear, StringEnd, ThunksSteady;
    assert before + [] == before;
    if |image| < d + 20 {
    } else {
      DescriptorClear(image, before, d);
      var t := DescriptorAt(image, d);
      if !(t.name == 0 && t.addresses == 0) {
        CStringClear(image, before, t.name);
        var e := ExporterAt(image, modules, t);
        if e.Ok? {
          ThunksFollowPlan(image, e.value, LookupTable(t), t.addresses, 0, before);
          var q := ThunkPlan(image, e.value, LookupTable(t), t.addresses, 0);
          if q.error.None? {
            ImportsFollowPlan(image, modules, d + 20, before + q.slots);
            var rest := ImportPlan(image, modules, d + 20);
            assert before + q.slots + rest.slots == before + (q.slots + rest.slots);
          }
        }
      }
    }
  }

  // ------------------------------------------------------------------ results

  ghost predicate SlotsApart(slots: seq<Slot>) {
    forall i, j {:trigger slots[i], slots[j]} :: 0 <= i < j < |slots| ==> Beyond(slots[i], slots[j].at, slots[j].at + 8)
  }

  lemma {:induction false} PatchStores(image: seq<byte>, slots: seq<Slot>, i: nat)
    requires SlotsApart(slots) && i < |slots| && slots[i].at + 8 <= |image|
    ensures Get64(Patch(image, slots), slots[i].at) == slots[i].va
    decreases |slots|
  {
    hide Get64, LE64;
    var n := |slots| - 1;
    if i == n {
      PutGet64(Patch(image, slots[..n]), slots[n].at, slots[n].va);
    } else {
      PatchStores(image, slots[..n], i);
      var r := Patch(image, slots[..n]);
      assert Beyond(slots[i], slots[n].at, slots[n].at + 8);
      Get64Clear(r, [slots[n]], slots[i].at);
      PatchSnoc(r, [], slots[n]);
      assert [] + [slots[n]] == [slots[n]];
    }
  }

  lemma {:induction false} PlanFits(image: seq<byte>, e: (Module, Directory), lookup: nat, iat: nat, k: nat)
    ensures forall s :: s in ThunkPlan(image, e, lookup, iat, k).slots ==> s.at + 8 <= |image|
    decreases |image| - (iat + 8 * k)
  {
    hide Get64, Target;
    if !Fits(|image|, lookup, iat, k) {
    } else {
      PlanFits(image, e, lookup, iat, k + 1);
    }
  }

  lemma {:induction false} ImportPlanFits(image: seq<byte>, modules: seq<Module>, d: nat)
    ensures forall s :: s in ImportPlan(image, modules, d).slots ==> s.at + 8 <= |image|
    decreases |image| - d
  {
    if |image| < d + 20 {
    } else {
      var t := DescriptorAt(image, d);
      var e := ExporterAt(image, modules, t);
      if e.Ok? {
        PlanFits(image, e.value, LookupTable(t), t.addresses, 0);
      }
      ImportPlanFits(image, modules, d + 20);
    }
  }

  /**
   When no byte of the import tables is read after it was patched, linking succeeds exactly when
   the tables, as they are on entry, name only symbols that resolve; then every slot holds the
   address its entry named, and no other byte has changed.
   */
  lemma LinkingMeaning(image: seq<byte>, modules: seq<Module>, d: nat)
    requires ImportsSteady(image, modules, d, [])
    ensures var p, r := ImportPlan(image, modules, d), LinkDescriptors(image, modules, d);
            && r.error == p.error
            && (SlotsApart(p.slots) ==> forall i {:trigger p.slots[i]} :: 0 <= i < |p.slots| ==>
                  p.slots[i].at + 8 <= |image| && Get64(r.image, p.slots[i].at) == p.slots[i].va)
            && (forall j {:trigger r.image[j]} ::
              0 <= j < |image| && Clear(p.slots, j, j + 1) ==> r.image[j] == image[j])
  {
    hide Get64, ImportsSteady, ImportPlan, LinkDescriptors, LE64, Put, SlotsApart;
    var p, r := ImportPlan(image, modules, d), LinkDescriptors(image, modules, d);
    ImportsFollowPlan(image, modules, d, []);
    assert [] + p.slots == p.slots && Patch(image, []) == image;
    hide Patch, Clear;
    ImportPlanFits(image, modules, d);
    if SlotsApart(p.slots) {
      forall i {:trigger p.slots[i]} | 0 <= i < |p.slots|
        ensures p.slots[i].at + 8 <= |image| && Get64(r.image, p.slots[i].at) == p.slots[i].va
      {
        PatchStores(image, p.slots, i);
      }
    }
    forall j {:trigger r.image[j]} | 0 <= j < |image| && Clear(p.slots, j, j + 1) ensures r.image[j] == image[j] {
      PatchClear(image, p.slots, j, j + 1);
    }
  }

  // ------------------------------------------------------------------ what an import directory says

  /** The name ends in `.DLL`, `.EXE` or `.SYS`, in whatever case. */
  ghost predicate HasExtension(dll: seq<byte>) {
    && |dll| >= 4
    && var end := dll[|dll| - 4..];
    || SameLetters(end, [0x2E, 0x44, 0x4C, 0x4C])
    || SameLetters(end, [0x2E, 0x45, 0x58, 0x45])
    || SameLetters(end, [0x2E, 0x53, 0x59, 0x53])
  }

  ghost function Stem(dll: seq<byte>): seq<byte> {
    if HasExtension(dll) then dll[..|dll| - 4] else dll
  }

  /** Module `i` is the first one with the name, up to case. */
  ghost predicate FirstNamed(modules: seq<Module>, name: seq<byte>, i: nat) {
    && i < |modules| && SameLetters(modules[i].name, name)
    && forall j {:trigger modules[j]} :: 0 <= j < i ==> !SameLetters(modules[j].name, name)
  }

  ghost predicate NoneNamed(modules: seq<Module>, name: seq<byte>) {
    forall j {:trigger modules[j]} :: 0 <= j < |modules| ==> !SameLetters(modules[j].name, name)
  }

  /** Module `i` is meant by the name of a DLL: the one named without the extension, else the one named in full. */
  ghost predicate Meant(modules: seq<Module>, dll: seq<byte>, i: nat) {
    FirstNamed(modules, Stem(dll), i) || (NoneNamed(modules, Stem(dll)) && FirstNamed(modules, dll, i))
  }

  /** The module has an export directory within its image. */
  predicate Exports(m: Module) {
    m.exports.Some? && m.exports.value.0 != 0 && m.exports.value.1 != 0 && m.exports.value.0 + 40 <= |m.image|
  }

  /** The word of a lookup table is the ordinal in its low 16 bits, or leads to a hint and a name. */
  ghost predicate NamesSymbol(image: seq<byte>, word: u64, symbol: Symbol) {
    match symbol
    case ByOrdinal(o) => word >= 0x8000_0000_0000_0000 && o == word % 0x1_0000
    case ByName(name) => word < 0x8000_0000_0000_0000 && StringAt(image, word + 2, name)
  }

  /** The module's export directory has the address `r` for the symbol. */
  ghost predicate HasSymbol(m: Module, symbol: Symbol, r: u32)
    requires Exports(m)
  {
    match symbol
    case ByOrdinal(o) => ListsOrdinal(m.image, m.exports.value.0, m.exports.value.1, o, r)
    case ByName(name) => ListsName(m.image, m.exports.value.0, m.exports.value.1, name, r)
  }

  /** The 20 bytes at `at` are a descriptor, and not the null one at the end of the directory. */
  predicate Listed(image: seq<byte>, at: nat) {
    at + 20 <= |image| && !(Get32(image, at + 12) == 0 && Get32(image, at + 16) == 0)
  }

  /** Where the symbols of a descriptor are named: its lookup table, or the address table if it has none. */
  function WordsOf(image: seq<byte>, at: nat): u32
    requires at + 20 <= |image|
  {
    if Get32(image, at) != 0 then Get32(image, at) else Get32(image, at + 16)
  }

  /** Word `k` and slot `k` of a descriptor lie within the image. */
  predicate EntryFits(image: seq<byte>, at: nat, k: nat)
    requires at + 20 <= |image|
  {
    WordsOf(image, at) + 8 * k + 8 <= |image| && Get32(image, at + 16) + 8 * k + 8 <= |image|
  }

  predicate EntryListed(image: seq<byte>, at: nat, k: nat) {
    at + 20 <= |image| && EntryFits(image, at, k) && Get64(image, WordsOf(image, at) + 8 * k) != 0
  }

  predicate DescriptorListed(image: seq<byte>, d: nat, j: nat) {
    Listed(image, d + 20 * j)
  }

  /** The directory at `d` does not end before descriptor `j`. */
  ghost predicate Reached(image: seq<byte>, d: nat, j: nat) {
    forall i: nat {:trigger DescriptorListed(image, d, i)} :: i < j ==> DescriptorListed(image, d, i)
  }

  /** The table of the descriptor at `at` does not end before entry `k`. */
  ghost predicate EntryReached(image: seq<byte>, at: nat, k: nat) {
    forall i: nat {:trigger EntryListed(image, at, i)} :: i < k ==> EntryListed(image, at, i)
  }

  /** Slot `k` of descriptor `j` is one of those that are patched. */
  ghost predicate LiveSlot(image: seq<byte>, d: nat, j: nat, k: nat) {
    Reached(image, d, j + 1) && EntryReached(image, d + 20 * j, k + 1)
  }

  function SlotPlace(image: seq<byte>, at: nat, k: nat): nat
    requires at + 20 <= |image|
  {
    Get32(image, at + 16) + 8 * k
  }

  /** Module `i`, meant by the name `dll`, has the address `va` for the symbol that entry `k` names. */
  ghost predicate ImportIs(image: seq<byte>, modules: seq<Module>, at: nat, k: nat, va: u64,
                           dll: seq<byte>, i: nat, symbol: Symbol, r: u32) {
    && EntryListed(image, at, k)
    && StringAt(image, Get32(image, at + 12), dll) && Meant(modules, dll, i) && Exports(modules[i])
    && NamesSymbol(image, Get64(image, WordsOf(image, at) + 8 * k), symbol)
    && HasSymbol(modules[i], symbol, r) && va == (modules[i].vaBase + r) % 0x1_0000_0000_0000_0000
  }

  /** What entry `k` of the descriptor at `at` imports has the address `va`. */
  ghost predicate Imports(image: seq<byte>, modules: seq<Module>, at: nat, k: nat, va: u64) {
    exists dll, i: nat, symbol, r :: ImportIs(image, modules, at, k, va, dll, i, symbol, r)
  }

  // ------------------------------------------------------------------ the reading functions say the same

  lemma BaseNameIff(dll: seq<byte>, name: seq<byte>)
    ensures Upper(name) == Upper(BaseName(dll)) <==> SameLetters(name, Stem(dll))
  {
    var u := Upper(dll);
    if |dll| >= 4 {
      var end := dll[|dll| - 4..];
      assert u[|u| - 4..] == Upper(end);
      assert Upper(DLL) == DLL && Upper(EXE) == EXE && Upper(SYS) == SYS;
      UpperIff(end, DLL);
      UpperIff(end, EXE);
      UpperIff(end, SYS);
      assert u[..|u| - 4] == Upper(dll[..|dll| - 4]);
    }
    assert EndsWith(u, DLL) || EndsWith(u, EXE) || EndsWith(u, SYS) <==> HasExtension(dll);
    assert BaseName(dll) == Upper(Stem(dll));
    UpperTwice(Stem(dll));
    UpperIff(name, Stem(dll));
  }

  lemma UpperTwice(s: seq<byte>)
    ensures Upper(Upper(s)) == Upper(s)
  {
  }

  lemma {:induction false} FindIff(modules: seq<Module>, name: seq<byte>)
    ensures FindByName(modules, name).None? <==> NoneNamed(modules, name)
    ensures forall i: nat {:trigger FirstNamed(modules, name, i)} ::
      FirstNamed(modules, name, i) ==> FindByName(modules, name) == Some(modules[i])
    ensures FindByName(modules, name).Some? ==>
      exists i: nat :: FirstNamed(modules, name, i) && FindByName(modules, name) == Some(modules[i])
    decreases |modules|
  {
    hide SameLetters;
    if modules == [] {
    } else {
      var rest := modules[1..];
      UpperIff(modules[0].name, name);
      FindIff(rest, name);
      if SameLetters(modules[0].name, name) {
        assert FirstNamed(modules, name, 0);
      } else {
        forall i: nat {:trigger FirstNamed(modules, name, i)} | FirstNamed(modules, name, i)
          ensures FirstNamed(rest, name, i - 1)
        {
          assert forall j {:trigger rest[j]} :: 0 <= j < i - 1 ==> rest[j] == modules[j + 1];
        }
        if FindByName(rest, name).Some? {
          var i: nat :| FirstNamed(rest, name, i) && FindByName(rest, name) == Some(rest[i]);
          assert forall j {:trigger modules[j]} :: 0 < j < i + 1 ==> modules[j] == rest[j - 1];
          assert FirstNamed(modules, name, i + 1);
        } else {
          assert forall j {:trigger modules[j]} :: 0 < j < |modules| ==> modules[j] == rest[j - 1];
        }
        if NoneNamed(modules, name) {
          assert forall j {:trigger rest[j]} :: 0 <= j < |rest| ==> rest[j] == modules[j + 1];
        }
      }
    }
  }

  /** A DLL name leads to the exports of the module that is meant, and to an error if there are none. */
  lemma ExporterIff(modules: seq<Module>, dll: seq<byte>, i: nat)
    ensures Meant(modules, dll, i) ==>
      (Exporter(modules, dll).Ok? <==> Exports(modules[i]))
      && (Exports(modules[i]) ==> var x := modules[i].exports.value;
          ExportIndex(modules[i].image, x.0, x.1).Some?
          && Exporter(modules, dll) == Ok((modules[i], ExportIndex(modules[i].image, x.0, x.1).value)))
    ensures Exporter(modules, dll).Ok? ==> exists j: nat :: Meant(modules, dll, j)
  {
    hide SameLetters, Get32, FindByName, BaseName;
    var base, stem := BaseName(dll), Stem(dll);
    FindIff(modules, base);
    FindIff(modules, dll);
    forall m ensures SameLetters(m, base) <==> SameLetters(m, stem) {
      BaseNameIff(dll, m);
      UpperIff(m, base);
    }
    assert NoneNamed(modules, base) <==> NoneNamed(modules, stem);
    forall j: nat {:trigger FirstNamed(modules, stem, j)}
      ensures FirstNamed(modules, base, j) <==> FirstNamed(modules, stem, j)
    {
    }
    if Exporter(modules, dll).Ok? {
      if FindByName(modules, base).Some? {
        var j: nat :| FirstNamed(modules, base, j);
        assert Meant(modules, dll, j);
      } else {
        var j: nat :| FirstNamed(modules, dll, j);
        assert Meant(modules, dll, j);
      }
    }
  }

  lemma SymbolIff(image: seq<byte>, word: u64, symbol: Symbol)
    ensures SymbolAt(image, word) == Ok(symbol) <==> NamesSymbol(image, word, symbol)
  {
    hide CString, StringAt;
    if word < 0x8000_0000_0000_0000 && symbol.ByName? {
      CStringIff(image, word + 2, symbol.name);
      StringBegins(image, word + 2, symbol.name);
    }
  }

  lemma StringBegins(b: seq<byte>, at: nat, s: seq<byte>)
    ensures StringAt(b, at, s) ==> at < |b|
  {
  }

  /** The address stored for a symbol is one that the exporter has for it, and with ascending names the only one. */
  lemma ResolveIff(m: Module, symbol: Symbol, r: u32)
    requires Exports(m)
    ensures var x := ExportIndex(m.image, m.exports.value.0, m.exports.value.1);
      x.Some?
      && (NamesAscend(m.image, m.exports.value.0) && HasSymbol(m, symbol, r) ==>
            Resolve((m, x.value), symbol) == Ok((m.vaBase + r) % 0x1_0000_0000_0000_0000))
  {
    hide Get32, LoadedByName, LoadedByOrdinal, NamesAscend, ListsName, ListsOrdinal;
    var x := ExportIndex(m.image, m.exports.value.0, m.exports.value.1).value;
    match symbol
    case ByOrdinal(o) => OrdinalIff(m.image, x, o, r);
    case ByName(name) => NameIff(m.image, x, name, r);
  }

  lemma ResolvedHas(m: Module, symbol: Symbol, va: u64) returns (r: u32)
    requires Exports(m)
    requires ExportIndex(m.image, m.exports.value.0, m.exports.value.1).Some?
    requires Resolve((m, ExportIndex(m.image, m.exports.value.0, m.exports.value.1).value), symbol) == Ok(va)
    ensures HasSymbol(m, symbol, r) && va == (m.vaBase + r) % 0x1_0000_0000_0000_0000
  {
    hide Get32, LoadedByName, LoadedByOrdinal, NamesAscend, ListsName, ListsOrdinal;
    var x := ExportIndex(m.image, m.exports.value.0, m.exports.value.1).value;
    match symbol
    case ByOrdinal(o) =>
      r := LoadedByOrdinal(m.image, x, o).value;
      OrdinalIff(m.image, x, o, r);
    case ByName(name) =>
      r := LoadedByName(m.image, x, name).value;
      NameIff(m.image, x, name, r);
  }

  /** What the plan stores for an entry is what the entry imports. */
  lemma TargetImports(image: seq<byte>, modules: seq<Module>, at: nat, k: nat, va: u64)
    requires EntryListed(image, at, k) && ExporterAt(image, modules, DescriptorAt(image, at)).Ok?
    requires Target(image, ExporterAt(image, modules, DescriptorAt(image, at)).value,
                    Get64(image, WordsOf(image, at) + 8 * k)) == Ok(va)
    ensures Imports(image, modules, at, k, va)
  {
    hide CString, Exporter, SymbolAt, Resolve, StringAt, Meant, HasSymbol, NamesSymbol, Get32, Get64;
    var e := ExporterAt(image, modules, DescriptorAt(image, at)).value;
    var word := Get64(image, WordsOf(image, at) + 8 * k);
    var dll := CString(image, Get32(image, at + 12)).value;
    CStringIff(image, Get32(image, at + 12), dll);
    ExporterIff(modules, dll, 0);
    var i: nat :| Meant(modules, dll, i);
    ExporterIff(modules, dll, i);
    var symbol := SymbolAt(image, word).value;
    SymbolIff(image, word, symbol);
    assert i < |modules| by {
      MeantWithin(modules, dll, i);
    }
    var r := ResolvedHas(modules[i], symbol, va);
    assert ImportIs(image, modules, at, k, va, dll, i, symbol, r);
  }

  lemma MeantWithin(modules: seq<Module>, dll: seq<byte>, i: nat)
    requires Meant(modules, dll, i)
    ensures i < |modules|
  {
  }

  /** The names of all modules that export anything ascend. */
  ghost predicate AllAscend(modules: seq<Module>) {
    forall i {:trigger modules[i]} :: 0 <= i < |modules| && Exports(modules[i]) ==>
      NamesAscend(modules[i].image, modules[i].exports.value.0)
  }

  /** What an entry imports is what the plan stores for it, when the names of the exporters ascend. */
  lemma ImportsTarget(image: seq<byte>, modules: seq<Module>, at: nat, k: nat, va: u64)
    requires Imports(image, modules, at, k, va) && AllAscend(modules)
    ensures at + 20 <= |image| && EntryFits(image, at, k) && ExporterAt(image, modules, DescriptorAt(image, at)).Ok?
    ensures Target(image, ExporterAt(image, modules, DescriptorAt(image, at)).value,
                   Get64(image, WordsOf(image, at) + 8 * k)) == Ok(va)
  {
    hide CString, Exporter, SymbolAt, Resolve, StringAt, Meant, HasSymbol, NamesSymbol, Get32, Get64, NamesAscend;
    var dll, i: nat, symbol, r :| ImportIs(image, modules, at, k, va, dll, i, symbol, r);
    CStringIff(image, Get32(image, at + 12), dll);
    ExporterIff(modules, dll, i);
    SymbolIff(image, Get64(image, WordsOf(image, at) + 8 * k), symbol);
    MeantWithin(modules, dll, i);
    ResolveIff(modules[i], symbol, r);
  }

  // ------------------------------------------------------------------ layouts that are read in time

  /** No slot that is patched touches the bytes from `lo` to `hi`. */
  ghost predicate Untouched(image: seq<byte>, d: nat, lo: nat, hi: nat) {
    forall j: nat, k: nat {:trigger LiveSlot(image, d, j, k)} :: LiveSlot(image, d, j, k) ==>
      d + 20 * j + 20 <= |image| && Beyond(Slot(SlotPlace(image, d + 20 * j, k), 0), lo, hi)
  }

  /** Slots of different descriptors are apart. */
  ghost predicate TablesApart(image: seq<byte>, d: nat) {
    forall i: nat, j: nat, k: nat, l: nat {:trigger LiveSlot(image, d, i, k), LiveSlot(image, d, j, l)} ::
      i < j && LiveSlot(image, d, i, k) && LiveSlot(image, d, j, l)
      && d + 20 * i + 20 <= |image| && d + 20 * j + 20 <= |image| ==>
        var at := SlotPlace(image, d + 20 * j, l);
        Beyond(Slot(SlotPlace(image, d + 20 * i, k), 0), at, at + 8)
  }

  /** Word `k` of a descriptor is its own slot or outside all slots, and the name it leads to outside all of them. */
  ghost predicate EntryOutside(image: seq<byte>, d: nat, at: nat, k: nat) {
    at + 20 <= |image| && EntryFits(image, at, k) ==>
      var words := WordsOf(image, at);
      var word := Get64(image, words + 8 * k);
      && ((word != 0 && words == Get32(image, at + 16)) || Untouched(image, d, words + 8 * k, words + 8 * k + 8))
      && (0 < word < 0x8000_0000_0000_0000 ==> Untouched(image, d, word + 2, StringEnd(image, word + 2)))
  }

  /** What is read of descriptor `j`: itself, the name of its DLL, and its entries. */
  ghost predicate DescriptorOutside(image: seq<byte>, d: nat, j: nat) {
    var at := d + 20 * j;
    at + 20 <= |image| ==>
      && Untouched(image, d, at, at + 20)
      && (Listed(image, at) ==>
            && Untouched(image, d, Get32(image, at + 12), StringEnd(image, Get32(image, at + 12)))
            && forall k: nat {:trigger EntryOutside(image, d, at, k)} ::
                 EntryReached(image, at, k) ==> EntryOutside(image, d, at, k))
  }

  /**
   The layout of a well-made import directory, read off the image on entry: address tables are disjoint, and
   descriptors, names and lookup tables lie outside them or are the address tables themselves.
   */
  ghost predicate WellLaid(image: seq<byte>, d: nat) {
    && TablesApart(image, d)
    && forall j: nat {:trigger DescriptorOutside(image, d, j)} ::
         Reached(image, d, j) ==> DescriptorOutside(image, d, j)
  }

  /** The slot is that of entry `k` of descriptor `j`. */
  ghost predicate IsSlot(image: seq<byte>, d: nat, s: Slot, j: nat, k: nat) {
    LiveSlot(image, d, j, k) && d + 20 * j + 20 <= |image| && s.at == SlotPlace(image, d + 20 * j, k)
  }

  /** The slot is that of an entry before entry `k` of descriptor `j`. */
  ghost predicate Earlier(image: seq<byte>, d: nat, s: Slot, j: nat, k: nat) {
    exists i: nat, l: nat :: (i < j || (i == j && l < k)) && IsSlot(image, d, s, i, l)
  }

  ghost predicate AllEarlier(image: seq<byte>, d: nat, slots: seq<Slot>, j: nat, k: nat) {
    forall m {:trigger slots[m]} :: 0 <= m < |slots| ==> Earlier(image, d, slots[m], j, k)
  }

  lemma EarlierClear(image: seq<byte>, d: nat, slots: seq<Slot>, j: nat, k: nat, lo: nat, hi: nat)
    requires AllEarlier(image, d, slots, j, k) && Untouched(image, d, lo, hi)
    ensures Clear(slots, lo, hi)
  {
    forall m {:trigger slots[m]} | 0 <= m < |slots| ensures Beyond(slots[m], lo, hi) {
      var i: nat, l: nat :| (i < j || (i == j && l < k)) && IsSlot(image, d, slots[m], i, l);
    }
  }

  /** In an address table that is its own lookup table, a word is clear of all slots before it. */
  lemma InPlaceClear(image: seq<byte>, d: nat, slots: seq<Slot>, j: nat, k: nat)
    requires AllEarlier(image, d, slots, j, k) && TablesApart(image, d) && LiveSlot(image, d, j, k)
    requires d + 20 * j + 20 <= |image|
    ensures var at := SlotPlace(image, d + 20 * j, k); Clear(slots, at, at + 8)
  {
    hide LiveSlot;
    var at := SlotPlace(image, d + 20 * j, k);
    forall m {:trigger slots[m]} | 0 <= m < |slots| ensures Beyond(slots[m], at, at + 8) {
      var i: nat, l: nat :| (i < j || (i == j && l < k)) && IsSlot(image, d, slots[m], i, l);
      assert Beyond(Slot(SlotPlace(image, d + 20 * i, l), 0), at, at + 8);
    }
  }

  lemma EarlierMore(image: seq<byte>, d: nat, slots: seq<Slot>, s: Slot, j: nat, k: nat)
    requires AllEarlier(image, d, slots, j, k) && IsSlot(image, d, s, j, k)
    ensures AllEarlier(image, d, slots + [s], j, k + 1)
  {
    hide LiveSlot;
    var all := slots + [s];
    forall m {:trigger all[m]} | 0 <= m < |all| ensures Earlier(image, d, all[m], j, k + 1) {
      if m < |slots| {
        assert Earlier(image, d, slots[m], j, k);
      } else {
        assert IsSlot(image, d, all[m], j, k);
      }
    }
  }

  lemma ReachedMore(image: seq<byte>, d: nat, j: nat)
    requires Reached(image, d, j) && DescriptorListed(image, d, j)
    ensures Reached(image, d, j + 1)
  {
  }

  lemma EntryReachedMore(image: seq<byte>, at: nat, k: nat)
    requires EntryReached(image, at, k) && EntryListed(image, at, k)
    ensures EntryReached(image, at, k + 1)
  {
  }

  /** One descriptor is read in time, both with a lookup table of its own and in place. */
  lemma {:induction false} ThunksInTime(image: seq<byte>, d: nat, j: nat, e: (Module, Directory), k: nat,
                                        before: seq<Slot>)
    requires WellLaid(image, d) && Reached(image, d, j + 1) && d + 20 * j + 20 <= |image|
    requires EntryReached(image, d + 20 * j, k) && AllEarlier(image, d, before, j, k)
    ensures var at := d + 20 * j;
            ThunksSteady(image, e, WordsOf(image, at), Get32(image, at + 16), k, before)
    decreases |image| - (Get32(image, d + 20 * j + 16) + 8 * k)
  {
    hide Get64, Get32, Target, StringEnd, Clear, Reached, EntryReached, TablesApart, Untouched, Earlier;
    var at := d + 20 * j;
    if EntryFits(image, at, k) {
      var words := WordsOf(image, at);
      var word := Get64(image, words + 8 * k);
      assert Reached(image, d, j) && DescriptorListed(image, d, j) by {
        ReachedLess(image, d, j);
      }
      assert DescriptorOutside(image, d, j);
      assert EntryOutside(image, d, at, k);
      if word != 0 {
        EntryReachedMore(image, at, k);
      }
      if word != 0 && words == Get32(image, at + 16) {
        InPlaceClear(image, d, before, j, k);
      } else {
        EarlierClear(image, d, before, j, k, words + 8 * k, words + 8 * k + 8);
      }
      if word != 0 {
        if word < 0x8000_0000_0000_0000 {
          EarlierClear(image, d, before, j, k, word + 2, StringEnd(image, word + 2));
        }
        var va := Target(image, e, word);
        if va.Ok? {
          var s := Slot(Get32(image, at + 16) + 8 * k, va.value);
          EarlierMore(image, d, before, s, j, k);
          ThunksInTime(image, d, j, e, k + 1, before + [s]);
        }
      }
    }
  }

  lemma ReachedLess(image: seq<byte>, d: nat, j: nat)
    requires Reached(image, d, j + 1)
    ensures Reached(image, d, j) && DescriptorListed(image, d, j)
  {
  }

  /** What one descriptor asks for, and nothing else, is the plan for its slots. */
  lemma {:induction false} ThunksPlanned(image: seq<byte>, modules: seq<Module>, d: nat, j: nat, k: nat)
    requires Reached(image, d, j + 1) && d + 20 * j + 20 <= |image| && EntryReached(image, d + 20 * j, k)
    requires ExporterAt(image, modules, DescriptorAt(image, d + 20 * j)).Ok?
    ensures var at := d + 20 * j;
            var e := ExporterAt(image, modules, DescriptorAt(image, at)).value;
            var p := ThunkPlan(image, e, WordsOf(image, at), Get32(image, at + 16), k);
            && (forall i {:trigger p.slots[i]} :: 0 <= i < |p.slots| ==>
                  IsSlot(image, d, p.slots[i], j, k + i) && Imports(image, modules, at, k + i, p.slots[i].va))
            && (p.error.None? ==> !EntryListed(image, at, k + |p.slots|))
    decreases |image| - (Get32(image, d + 20 * j + 16) + 8 * k)
  {
    hide Get64, Get32, Target, Reached, EntryReached, ExporterAt, Imports;
    var at := d + 20 * j;
    var e := ExporterAt(image, modules, DescriptorAt(image, at)).value;
    if EntryListed(image, at, k) {
      EntryReachedMore(image, at, k);
      var va := Target(image, e, Get64(image, WordsOf(image, at) + 8 * k));
      if va.Ok? {
        TargetImports(image, modules, at, k, va.value);
        ThunksPlanned(image, modules, d, j, k + 1);
        var p := ThunkPlan(image, e, WordsOf(image, at), Get32(image, at + 16), k);
        var rest := ThunkPlan(image, e, WordsOf(image, at), Get32(image, at + 16), k + 1);
        assert p.slots[1..] == rest.slots;
        forall i {:trigger p.slots[i]} | 0 <= i < |p.slots|
          ensures IsSlot(image, d, p.slots[i], j, k + i) && Imports(image, modules, at, k + i, p.slots[i].va)
        {
          if i > 0 {
            assert p.slots[i] == rest.slots[i - 1];
          }
        }
      }
    }
  }

  /** Descriptor `j` is read in time; its slots are then among those patched before the next one is read. */
  lemma DescriptorInTime(image: seq<byte>, modules: seq<Module>, d: nat, j: nat, before: seq<Slot>)
    requires WellLaid(image, d) && Reached(image, d, j) && AllEarlier(image, d, before, j, 0)
    requires Listed(image, d + 20 * j)
    ensures var at := d + 20 * j;
            && Reached(image, d, j + 1) && Clear(before, at, at + 20)
            && Clear(before, Get32(image, at + 12), StringEnd(image, Get32(image, at + 12)))
            && (ExporterAt(image, modules, DescriptorAt(image, at)).Ok? ==>
                  var e := ExporterAt(image, modules, DescriptorAt(image, at)).value;
                  && ThunksSteady(image, e, WordsOf(image, at), Get32(image, at + 16), 0, before)
                  && AllEarlier(image, d,
                                before + ThunkPlan(image, e, WordsOf(image, at), Get32(image, at + 16), 0).slots,
                                j + 1, 0))
  {
    hide Get32, ThunkPlan, Clear, StringEnd, ThunksSteady, EntryReached, TablesApart, Untouched, AllEarlier, Reached,
         ExporterAt;
    var at := d + 20 * j;
    assert DescriptorOutside(image, d, j);
    EarlierClear(image, d, before, j, 0, at, at + 20);
    assert DescriptorListed(image, d, j);
    ReachedMore(image, d, j);
    EarlierClear(image, d, before, j, 0, Get32(image, at + 12), StringEnd(image, Get32(image, at + 12)));
    if ExporterAt(image, modules, DescriptorAt(image, at)).Ok? {
      NoneReached(image, at);
      ThunksInTime(image, d, j, ExporterAt(image, modules, DescriptorAt(image, at)).value, 0, before);
      ThunksPlanned(image, modules, d, j, 0);
      AllEarlierNext(image, d, before,
                     ThunkPlan(image, ExporterAt(image, modules, DescriptorAt(image, at)).value, WordsOf(image, at),
                               Get32(image, at + 16), 0).slots, j);
    }
  }

  /** Nothing of the directory is read after it was patched. */
  lemma {:induction false} DirectoryInTime(image: seq<byte>, modules: seq<Module>, d: nat, j: nat, before: seq<Slot>)
    requires WellLaid(image, d) && Reached(image, d, j) && AllEarlier(image, d, before, j, 0)
    ensures ImportsSteady(image, modules, d + 20 * j, before)
    decreases |image| - (d + 20 * j)
  {
    hide Get32, ThunkPlan, Clear, StringEnd, ThunksSteady, EntryReached, TablesApart, Untouched, AllEarlier, Reached,
         ExporterAt;
    var at := d + 20 * j;
    if at + 20 <= |image| {
      assert DescriptorOutside(image, d, j);
      EarlierClear(image, d, before, j, 0, at, at + 20);
      if Listed(image, at) {
        hide WellLaid, DescriptorOutside;
        DescriptorInTime(image, modules, d, j, before);
        var e := ExporterAt(image, modules, DescriptorAt(image, at));
        if e.Ok? {
          var p := ThunkPlan(image, e.value, WordsOf(image, at), Get32(image, at + 16), 0);
          if p.error.None? {
            assert d + 20 * (j + 1) == at + 20;
            DirectoryInTime(image, modules, d, j + 1, before + p.slots);
          }
        }
      }
    }
  }

  lemma NoneReached(image: seq<byte>, at: nat)
    ensures EntryReached(image, at, 0) && Reached(image, at, 0)
  {
  }

  lemma AllEarlierNext(image: seq<byte>, d: nat, before: seq<Slot>, own: seq<Slot>, j: nat)
    requires AllEarlier(image, d, before, j, 0)
    requires forall i {:trigger own[i]} :: 0 <= i < |own| ==> IsSlot(image, d, own[i], j, i)
    ensures AllEarlier(image, d, before + own, j + 1, 0)
  {
    hide LiveSlot;
    var all := before + own;
    forall m {:trigger all[m]} | 0 <= m < |all| ensures Earlier(image, d, all[m], j + 1, 0) {
      if m < |before| {
        var i: nat, l: nat :| (i < j || (i == j && l < 0)) && IsSlot(image, d, before[m], i, l);
        assert i < j + 1 && IsSlot(image, d, all[m], i, l);
      } else {
        assert IsSlot(image, d, all[m], j, m - |before|);
      }
    }
  }

  /** The slot is that of entry `k` of descriptor `j` and stores what this entry imports. */
  ghost predicate Stores(image: seq<byte>, modules: seq<Module>, d: nat, s: Slot, j: nat, k: nat) {
    IsSlot(image, d, s, j, k) && Imports(image, modules, d + 20 * j, k, s.va)
  }

  /** The slot belongs to descriptor `j` or a later one. */
  ghost predicate From(image: seq<byte>, modules: seq<Module>, d: nat, s: Slot, j: nat) {
    exists i: nat, k: nat :: j <= i && Stores(image, modules, d, s, i, k)
  }

  ghost predicate AllFrom(image: seq<byte>, modules: seq<Module>, d: nat, slots: seq<Slot>, j: nat) {
    forall m {:trigger slots[m]} :: 0 <= m < |slots| ==> From(image, modules, d, slots[m], j)
  }

  lemma OwnFrom(image: seq<byte>, modules: seq<Module>, d: nat, own: seq<Slot>, rest: seq<Slot>, j: nat)
    requires forall i {:trigger own[i]} :: 0 <= i < |own| ==> Stores(image, modules, d, own[i], j, i)
    requires AllFrom(image, modules, d, rest, j + 1)
    ensures AllFrom(image, modules, d, own + rest, j)
  {
    hide Stores;
    var all := own + rest;
    forall m {:trigger all[m]} | 0 <= m < |all| ensures From(image, modules, d, all[m], j) {
      if m < |own| {
        assert Stores(image, modules, d, all[m], j, m);
      } else {
        assert From(image, modules, d, rest[m - |own|], j + 1);
      }
    }
  }

  lemma OwnApart(image: seq<byte>, modules: seq<Module>, d: nat, own: seq<Slot>, rest: seq<Slot>, j: nat)
    requires TablesApart(image, d)
    requires forall i {:trigger own[i]} :: 0 <= i < |own| ==> Stores(image, modules, d, own[i], j, i)
    requires AllFrom(image, modules, d, rest, j + 1) && SlotsApart(rest)
    ensures SlotsApart(own + rest)
  {
    hide LiveSlot, Imports;
    var all := own + rest;
    forall m, n {:trigger all[m], all[n]} | 0 <= m < n < |all| ensures Beyond(all[m], all[n].at, all[n].at + 8) {
      if m < |own| <= n {
        assert Stores(image, modules, d, all[m], j, m);
        var i: nat, k: nat :| j + 1 <= i && Stores(image, modules, d, rest[n - |own|], i, k);
        assert LiveSlot(image, d, j, m) && LiveSlot(image, d, i, k);
      } else if n < |own| {
        assert Stores(image, modules, d, own[m], j, m) && Stores(image, modules, d, own[n], j, n);
      } else {
        assert all[m] == rest[m - |own|] && all[n] == rest[n - |own|];
      }
    }
  }

  /** The plan of a directory consists of its slots, each with what its entry imports, and they are apart. */
  lemma {:induction false} DirectoryPlanned(image: seq<byte>, modules: seq<Module>, d: nat, j: nat)
    requires TablesApart(image, d) && Reached(image, d, j)
    ensures AllFrom(image, modules, d, ImportPlan(image, modules, d + 20 * j).slots, j)
    ensures SlotsApart(ImportPlan(image, modules, d + 20 * j).slots)
    decreases |image| - (d + 20 * j)
  {
    hide Get32, ThunkPlan, EntryReached, TablesApart, Reached, ExporterAt, Imports, LiveSlot, SlotsApart;
    var at := d + 20 * j;
    NothingApart(image, modules, d, j);
    if Listed(image, at) {
      assert DescriptorListed(image, d, j);
      ReachedMore(image, d, j);
      var e := ExporterAt(image, modules, DescriptorAt(image, at));
      if e.Ok? {
        NoneReached(image, at);
        ThunksPlanned(image, modules, d, j, 0);
        var p := ThunkPlan(image, e.value, WordsOf(image, at), Get32(image, at + 16), 0);
        assert forall i {:trigger p.slots[i]} :: 0 <= i < |p.slots| ==> Stores(image, modules, d, p.slots[i], j, i);
        NothingApart(image, modules, d, j + 1);
        if p.error.None? {
          assert d + 20 * (j + 1) == at + 20;
          DirectoryPlanned(image, modules, d, j + 1);
        }
        var rest := if p.error.None? then ImportPlan(image, modules, at + 20).slots else [];
        assert ImportPlan(image, modules, at).slots == p.slots + rest;
        OwnFrom(image, modules, d, p.slots, rest, j);
        OwnApart(image, modules, d, p.slots, rest, j);
      }
    }
  }

  lemma NothingApart(image: seq<byte>, modules: seq<Module>, d: nat, j: nat)
    ensures AllFrom(image, modules, d, [], j) && SlotsApart([])
  {
  }

  ghost predicate Stored(image: seq<byte>, modules: seq<Module>, d: nat, slots: seq<Slot>, j: nat, k: nat) {
    exists m :: 0 <= m < |slots| && Stores(image, modules, d, slots[m], j, k)
  }

  /** A plan without an error has an exporter for every descriptor and a slot for every entry. */
  lemma {:induction false} PlanComplete(image: seq<byte>, modules: seq<Module>, d: nat, j: nat, i: nat)
    requires Reached(image, d, j) && j <= i && Reached(image, d, i + 1)
    requires ImportPlan(image, modules, d + 20 * j).error.None?
    ensures d + 20 * i + 20 <= |image| && ExporterAt(image, modules, DescriptorAt(image, d + 20 * i)).Ok?
    ensures forall k: nat {:trigger LiveSlot(image, d, i, k)} ::
      LiveSlot(image, d, i, k) ==> Stored(image, modules, d, ImportPlan(image, modules, d + 20 * j).slots, i, k)
    decreases |image| - (d + 20 * j)
  {
    hide Get32, ThunkPlan, EntryReached, ExporterAt, Imports, IsSlot;
    var at := d + 20 * j;
    assert DescriptorListed(image, d, j);
    ReachedMore(image, d, j);
    NoneReached(image, at);
    ThunksPlanned(image, modules, d, j, 0);
    hide Reached;
    var e := ExporterAt(image, modules, DescriptorAt(image, at)).value;
    var p := ThunkPlan(image, e, WordsOf(image, at), Get32(image, at + 16), 0);
    var slots, rest := ImportPlan(image, modules, at).slots, ImportPlan(image, modules, at + 20).slots;
    assert slots == p.slots + rest;
    if i == j {
      forall k: nat {:trigger LiveSlot(image, d, i, k)} | LiveSlot(image, d, i, k)
        ensures Stored(image, modules, d, slots, i, k)
      {
        EntriesReached(image, at, |p.slots|, k);
        assert Stores(image, modules, d, slots[k], i, k);
      }
    } else {
      assert d + 20 * (j + 1) == at + 20;
      PlanComplete(image, modules, d, j + 1, i);
      forall k: nat {:trigger LiveSlot(image, d, i, k)} | LiveSlot(image, d, i, k)
        ensures Stored(image, modules, d, slots, i, k)
      {
        var m :| 0 <= m < |rest| && Stores(image, modules, d, rest[m], i, k);
        assert slots[|p.slots| + m] == rest[m];
      }
    }
  }

  lemma EntriesReached(image: seq<byte>, at: nat, n: nat, k: nat)
    requires !EntryListed(image, at, n) && EntryReached(image, at, k + 1)
    ensures k < n
  {
  }

  // ------------------------------------------------------------------ when linking succeeds

  ghost predicate HasExporter(image: seq<byte>, modules: seq<Module>, at: nat, dll: seq<byte>, i: nat) {
    at + 20 <= |image| && StringAt(image, Get32(image, at + 12), dll) && Meant(modules, dll, i) && Exports(modules[i])
  }

  ghost predicate ExporterNamed(image: seq<byte>, modules: seq<Module>, at: nat) {
    exists dll, i: nat :: HasExporter(image, modules, at, dll, i)
  }

  ghost predicate EntryResolves(image: seq<byte>, modules: seq<Module>, at: nat, k: nat) {
    exists va :: Imports(image, modules, at, k, va)
  }

  /** The descriptor names a module with exports, and each of its entries imports something. */
  ghost predicate DescriptorResolves(image: seq<byte>, modules: seq<Module>, d: nat, j: nat) {
    && ExporterNamed(image, modules, d + 20 * j)
    && forall k: nat {:trigger LiveSlot(image, d, j, k)} ::
         LiveSlot(image, d, j, k) ==> EntryResolves(image, modules, d + 20 * j, k)
  }

  ghost predicate Resolvable(image: seq<byte>, modules: seq<Module>, d: nat) {
    forall j: nat {:trigger DescriptorResolves(image, modules, d, j)} ::
      Reached(image, d, j + 1) ==> DescriptorResolves(image, modules, d, j)
  }

  lemma ExporterThere(image: seq<byte>, modules: seq<Module>, at: nat)
    requires at + 20 <= |image|
    ensures ExporterAt(image, modules, DescriptorAt(image, at)).Ok? <==> ExporterNamed(image, modules, at)
  {
    hide CString, Exporter, StringAt, Meant, Get32;
    if ExporterAt(image, modules, DescriptorAt(image, at)).Ok? {
      var dll := CString(image, Get32(image, at + 12)).value;
      CStringIff(image, Get32(image, at + 12), dll);
      ExporterIff(modules, dll, 0);
      var i: nat :| Meant(modules, dll, i);
      MeantWithin(modules, dll, i);
      ExporterIff(modules, dll, i);
      assert HasExporter(image, modules, at, dll, i);
    }
    if dll, i: nat :| HasExporter(image, modules, at, dll, i) {
      CStringIff(image, Get32(image, at + 12), dll);
      ExporterIff(modules, dll, i);
    }
  }

  lemma {:induction false} ThunksSucceed(image: seq<byte>, modules: seq<Module>, e: (Module, Directory),
                                         d: nat, j: nat, k: nat)
    requires AllAscend(modules) && DescriptorResolves(image, modules, d, j)
    requires Reached(image, d, j + 1) && d + 20 * j + 20 <= |image| && EntryReached(image, d + 20 * j, k)
    requires ExporterAt(image, modules, DescriptorAt(image, d + 20 * j)) == Ok(e)
    ensures ThunkPlan(image, e, WordsOf(image, d + 20 * j), Get32(image, d + 20 * j + 16), k).error.None?
    decreases |image| - (Get32(image, d + 20 * j + 16) + 8 * k)
  {
    hide Get64, Get32, Target, Reached, EntryReached, ExporterAt, Imports, AllAscend;
    var at := d + 20 * j;
    if EntryListed(image, at, k) {
      EntryReachedMore(image, at, k);
      assert LiveSlot(image, d, j, k);
      assert EntryResolves(image, modules, at, k);
      var va :| Imports(image, modules, at, k, va);
      ImportsTarget(image, modules, at, k, va);
      ThunksSucceed(image, modules, e, d, j, k + 1);
    }
  }

  lemma {:induction false} PlanSucceeds(image: seq<byte>, modules: seq<Module>, d: nat, j: nat)
    requires AllAscend(modules) && Resolvable(image, modules, d) && Reached(image, d, j)
    ensures ImportPlan(image, modules, d + 20 * j).error.None?
    decreases |image| - (d + 20 * j)
  {
    hide Get32, ThunkPlan, EntryReached, Reached, ExporterAt, AllAscend, LiveSlot, HasExporter, EntryResolves;
    var at := d + 20 * j;
    if Listed(image, at) {
      assert DescriptorListed(image, d, j);
      ReachedMore(image, d, j);
      assert DescriptorResolves(image, modules, d, j);
      ExporterThere(image, modules, at);
      NoneReached(image, at);
      ThunksSucceed(image, modules, ExporterAt(image, modules, DescriptorAt(image, at)).value, d, j, 0);
      assert d + 20 * (j + 1) == at + 20;
      PlanSucceeds(image, modules, d, j + 1);
    }
  }

  /** With ascending export names, the plan has no error exactly if every descriptor and entry resolves. */
  lemma PlanSucceedsIff(image: seq<byte>, modules: seq<Module>, d: nat)
    requires AllAscend(modules)
    ensures ImportPlan(image, modules, d).error.None? <==> Resolvable(image, modules, d)
  {
    hide Get32, ImportPlan, EntryReached, Reached, ExporterAt, AllAscend, LiveSlot, HasExporter, Imports, IsSlot;
    NoneReached(image, d);
    assert d + 20 * 0 == d;
    if ImportPlan(image, modules, d).error.None? {
      forall j: nat {:trigger DescriptorResolves(image, modules, d, j)} | Reached(image, d, j + 1)
        ensures DescriptorResolves(image, modules, d, j)
      {
        PlanComplete(image, modules, d, 0, j);
        ExporterThere(image, modules, d + 20 * j);
        forall k: nat {:trigger LiveSlot(image, d, j, k)} | LiveSlot(image, d, j, k)
          ensures EntryResolves(image, modules, d + 20 * j, k)
        {
          var m :| 0 <= m < |ImportPlan(image, modules, d).slots|
            && Stores(image, modules, d, ImportPlan(image, modules, d).slots[m], j, k);
        }
      }
    }
    if Resolvable(image, modules, d) {
      PlanSucceeds(image, modules, d, 0);
    }
  }

  /** The slot of a live entry, once linked, holds what the entry imports. */
  ghost predicate SlotLinked(image: seq<byte>, linked: seq<byte>, modules: seq<Module>, d: nat, j: nat, k: nat) {
    && d + 20 * j + 20 <= |image| && SlotPlace(image, d + 20 * j, k) + 8 <= |linked|
    && Imports(image, modules, d + 20 * j, k, Get64(linked, SlotPlace(image, d + 20 * j, k)))
  }

  /**
   Linking a whole directory whose layout lets it be read in time: if it succeeds, every slot holds the
   address of what its entry imports; no byte outside the slots changes; and if the names that the
   exporters list ascend, it succeeds exactly if every descriptor and entry resolves.
   */
  lemma DirectoryMeaning(image: seq<byte>, modules: seq<Module>, d: nat)
    requires WellLaid(image, d)
    ensures var r := LinkDescriptors(image, modules, d);
            && (r.error.None? ==> forall j: nat, k: nat {:trigger LiveSlot(image, d, j, k)} ::
                  LiveSlot(image, d, j, k) ==> SlotLinked(image, r.image, modules, d, j, k))
            && (forall a {:trigger r.image[a]} ::
                  0 <= a < |image| && Untouched(image, d, a, a + 1) ==> r.image[a] == image[a])
            && (AllAscend(modules) ==> (r.error.None? <==> Resolvable(image, modules, d)))
  {
    hide Get64, Get32, ImportsSteady, ImportPlan, LinkDescriptors, Clear, SlotsApart, TablesApart, EntryReached,
         Reached,
         Imports, AllAscend, Resolvable, Untouched;
    var p, r := ImportPlan(image, modules, d), LinkDescriptors(image, modules, d);
    NoneReached(image, d);
    assert d + 20 * 0 == d;
    DirectoryInTime(image, modules, d, 0, []);
    DirectoryPlanned(image, modules, d, 0);
    LinkingMeaning(image, modules, d);
    if r.error.None? {
      forall j: nat, k: nat {:trigger LiveSlot(image, d, j, k)} | LiveSlot(image, d, j, k)
        ensures SlotLinked(image, r.image, modules, d, j, k)
      {
        PlanComplete(image, modules, d, 0, j);
        var m :| 0 <= m < |p.slots| && Stores(image, modules, d, p.slots[m], j, k);
        assert Get64(r.image, p.slots[m].at) == p.slots[m].va;
      }
    }
    forall a {:trigger r.image[a]} | 0 <= a < |image| && Untouched(image, d, a, a + 1)
      ensures r.image[a] == image[a]
    {
      FromClear(image, modules, d, p.slots, a);
    }
    if AllAscend(modules) {
      PlanSucceedsIff(image, modules, d);
    }
  }

  lemma FromClear(image: seq<byte>, modules: seq<Module>, d: nat, slots: seq<Slot>, a: nat)
    requires AllFrom(image, modules, d, slots, 0) && Untouched(image, d, a, a + 1)
    ensures Clear(slots, a, a + 1)
  {
    hide LiveSlot, Imports;
    forall m {:trigger slots[m]} | 0 <= m < |slots| ensures Beyond(slots[m], a, a + 1) {
      assert From(image, modules, d, slots[m], 0);
      var i: nat, k: nat :| 0 <= i && Stores(image, modules, d, slots[m], i, k);
      assert LiveSlot(image, d, i, k);
    }
  }

  // ------------------------------------------------------------------ why linking fails

  /** What is wrong with the name of a descriptor. */
  ghost predicate NameFails(image: seq<byte>, modules: seq<Module>, at: nat, error: ImportError) {
    && at + 20 <= |image|
    && var name := Get32(image, at + 12);
    match error
    case InvalidImportDirectory => forall dll :: !StringAt(image, name, dll)
    case ModuleNotFound(dll) => StringAt(image, name, dll) && forall i: nat :: !Meant(modules, dll, i)
    case InvalidExportDirectory =>
      exists dll, i: nat :: StringAt(image, name, dll) && Meant(modules, dll, i) && !Exports(modules[i])
    case SymbolNotFound(_) => false
  }

  /** What is wrong with entry `k` of a descriptor whose exporter is module `i`. */
  ghost predicate EntryFails(image: seq<byte>, modules: seq<Module>, at: nat, k: nat, i: nat, error: ImportError) {
    && EntryListed(image, at, k) && i < |modules| && Exports(modules[i])
    && var word := Get64(image, WordsOf(image, at) + 8 * k);
    match error
    case InvalidImportDirectory => forall symbol :: !NamesSymbol(image, word, symbol)
    case SymbolNotFound(symbol) =>
      && NamesSymbol(image, word, symbol)
      && (NamesAscend(modules[i].image, modules[i].exports.value.0) ==> forall r :: !HasSymbol(modules[i], symbol, r))
    case _ => false
  }

  ghost predicate EntryFailsAt(image: seq<byte>, modules: seq<Module>, at: nat, k: nat, error: ImportError) {
    exists dll, i: nat :: HasExporter(image, modules, at, dll, i) && EntryFails(image, modules, at, k, i, error)
  }

  /** Linking stopped at descriptor `j`, at its name or at the first of its entries that fails. */
  ghost predicate FailsAt(image: seq<byte>, modules: seq<Module>, d: nat, j: nat, error: ImportError) {
    && Reached(image, d, j + 1)
    && (NameFails(image, modules, d + 20 * j, error)
        || exists k: nat :: LiveSlot(image, d, j, k) && EntryFailsAt(image, modules, d + 20 * j, k, error))
  }

  lemma NameFailsWhen(image: seq<byte>, modules: seq<Module>, at: nat)
    requires at + 20 <= |image|
    ensures ExporterAt(image, modules, DescriptorAt(image, at)).Err? ==>
      NameFails(image, modules, at, ExporterAt(image, modules, DescriptorAt(image, at)).error)
  {
    hide CString, StringAt, Meant, Get32, FindByName, BaseName, ExportIndex;
    var name := Get32(image, at + 12);
    if CString(image, name).None? {
      forall dll ensures !StringAt(image, name, dll) {
        CStringIff(image, name, dll);
      }
    } else {
      var dll := CString(image, name).value;
      CStringIff(image, name, dll);
      ExporterErrors(modules, dll);
    }
  }

  lemma ExporterErrors(modules: seq<Module>, dll: seq<byte>)
    ensures Exporter(modules, dll).Err? ==>
      (Exporter(modules, dll).error == ModuleNotFound(dll) && forall i: nat :: !Meant(modules, dll, i))
      || (Exporter(modules, dll).error == InvalidExportDirectory
          && exists i: nat :: Meant(modules, dll, i) && !Exports(modules[i]))
  {
    hide SameLetters, Get32, FindByName, BaseName;
    var base, stem := BaseName(dll), Stem(dll);
    FindIff(modules, base);
    FindIff(modules, dll);
    forall m ensures SameLetters(m, base) <==> SameLetters(m, stem) {
      BaseNameIff(dll, m);
      UpperIff(m, base);
    }
    assert NoneNamed(modules, base) <==> NoneNamed(modules, stem);
    forall j: nat {:trigger FirstNamed(modules, stem, j)}
      ensures FirstNamed(modules, base, j) <==> FirstNamed(modules, stem, j)
    {
    }
    if FindByName(modules, base).Some? {
      var j: nat :| FirstNamed(modules, base, j) && FindByName(modules, base) == Some(modules[j]);
      assert Meant(modules, dll, j);
    } else if FindByName(modules, dll).Some? {
      var j: nat :| FirstNamed(modules, dll, j) && FindByName(modules, dll) == Some(modules[j]);
      assert Meant(modules, dll, j);
    } else {
      NoneMeant(modules, dll);
    }
  }

  lemma NoneMeant(modules: seq<Module>, dll: seq<byte>)
    requires NoneNamed(modules, Stem(dll)) && NoneNamed(modules, dll)
    ensures forall i: nat :: !Meant(modules, dll, i)
  {
    hide SameLetters;
  }

  lemma EntryFailsWhen(image: seq<byte>, modules: seq<Module>, at: nat, k: nat)
    requires EntryListed(image, at, k) && ExporterAt(image, modules, DescriptorAt(image, at)).Ok?
    ensures var va := Target(image, ExporterAt(image, modules, DescriptorAt(image, at)).value,
                             Get64(image, WordsOf(image, at) + 8 * k));
            va.Err? ==> EntryFailsAt(image, modules, at, k, va.error)
  {
    hide CString, StringAt, Meant, Get32, Get64, Exporter, SymbolAt, Resolve, NamesSymbol, HasSymbol, NamesAscend,
         ExportIndex;
    ExporterThere(image, modules, at);
    var dll, i: nat :| HasExporter(image, modules, at, dll, i);
    CStringIff(image, Get32(image, at + 12), dll);
    ExporterIff(modules, dll, i);
    MeantWithin(modules, dll, i);
    var e := ExporterAt(image, modules, DescriptorAt(image, at)).value;
    var word := Get64(image, WordsOf(image, at) + 8 * k);
    var va := Target(image, e, word);
    if va.Err? {
      if SymbolAt(image, word).Err? {
        SymbolErrors(image, word);
        forall symbol ensures !NamesSymbol(image, word, symbol) {
          SymbolIff(image, word, symbol);
        }
      } else {
        var symbol := SymbolAt(image, word).value;
        SymbolIff(image, word, symbol);
        ResolveErrors(e, symbol);
        if NamesAscend(modules[i].image, modules[i].exports.value.0) {
          forall r ensures !HasSymbol(modules[i], symbol, r) {
            ResolveIff(modules[i], symbol, r);
          }
        }
      }
      assert EntryFails(image, modules, at, k, i, va.error);
    }
  }

  lemma SymbolErrors(image: seq<byte>, word: u64)
    ensures SymbolAt(image, word).Err? ==> SymbolAt(image, word).error == InvalidImportDirectory
  {
  }

  lemma ResolveErrors(e: (Module, Directory), symbol: Symbol)
    ensures Resolve(e, symbol).Err? ==> Resolve(e, symbol).error == SymbolNotFound(symbol)
  {
  }

  lemma {:induction false} ThunksFail(image: seq<byte>, modules: seq<Module>, e: (Module, Directory),
                                      d: nat, j: nat, k: nat)
    requires Reached(image, d, j + 1) && d + 20 * j + 20 <= |image| && EntryReached(image, d + 20 * j, k)
    requires ExporterAt(image, modules, DescriptorAt(image, d + 20 * j)) == Ok(e)
    ensures var p := ThunkPlan(image, e, WordsOf(image, d + 20 * j), Get32(image, d + 20 * j + 16), k);
            p.error.Some? ==> FailsAt(image, modules, d, j, p.error.value)
    decreases |image| - (Get32(image, d + 20 * j + 16) + 8 * k)
  {
    hide Get64, Get32, Target, Reached, EntryReached, ExporterAt, EntryFailsAt, NameFails;
    var at := d + 20 * j;
    if EntryListed(image, at, k) {
      EntryReachedMore(image, at, k);
      EntryFailsWhen(image, modules, at, k);
      assert LiveSlot(image, d, j, k);
      ThunksFail(image, modules, e, d, j, k + 1);
    }
  }

  /** An error says what is wrong with a descriptor or with one of its entries. */
  lemma {:induction false} PlanFails(image: seq<byte>, modules: seq<Module>, d: nat, j: nat)
    requires Reached(image, d, j)
    ensures var p := ImportPlan(image, modules, d + 20 * j);
            p.error.Some? ==> exists i: nat :: FailsAt(image, modules, d, i, p.error.value)
    decreases |image| - (d + 20 * j)
  {
    hide Get32, ThunkPlan, EntryReached, Reached, ExporterAt, LiveSlot, EntryFailsAt, NameFails;
    var at := d + 20 * j;
    if Listed(image, at) {
      assert DescriptorListed(image, d, j);
      ReachedMore(image, d, j);
      NameFailsWhen(image, modules, at);
      if ExporterAt(image, modules, DescriptorAt(image, at)).Err? {
        assert FailsAt(image, modules, d, j, ExporterAt(image, modules, DescriptorAt(image, at)).error);
      } else {
        NoneReached(image, at);
        ThunksFail(image, modules, ExporterAt(image, modules, DescriptorAt(image, at)).value, d, j, 0);
        assert d + 20 * (j + 1) == at + 20;
        PlanFails(image, modules, d, j + 1);
      }
    }
  }

  /** When linking fails, the error says what is wrong with a descriptor or with one of its entries. */
  lemma LinkingFails(image: seq<byte>, modules: seq<Module>, d: nat)
    requires WellLaid(image, d)
    ensures var r := LinkDescriptors(image, modules, d);
            r.error.Some? ==> exists j: nat :: FailsAt(image, modules, d, j, r.error.value)
  {
    hide ImportPlan, LinkDescriptors, FailsAt, Reached, ImportsSteady, EntryReached;
    NoneReached(image, d);
    assert d + 20 * 0 == d;
    DirectoryInTime(image, modules, d, 0, []);
    LinkingMeaning(image, modules, d);
    PlanFails(image, modules, d, 0);
  }
}
