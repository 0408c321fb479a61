# Verified model of the registry hives and the boot loader

A Dafny model of the parts of the system that decide whether it boots: the writer and the reader of
registry hive files, the tool that compiles a key tree into a hive, and the boot loader's page tables,
PE loading, relocation, export lookup and import linking, with the multi-string codec, the circular
lists and the framebuffer copy beside them. `dafny verify dfyconfig.toml` checks all of it.

Code that changes state in place is a class or a method here, proved against a pure function or
predicate; what the code promises is then proved about that function, mostly as lemmas over every
input, every reachable state or every run.

## Files

| files | subject |
|---|---|
| `Bytes`, `Strings`, `Wrappers` | machine integers, little-endian fields, UTF-8 and UTF-16, result types |
| `HiveHeap`, `HiveOrder`, `HiveRecords`, `HiveBuilding` | the hive writer: bins and cells, the hash order of subkey lists, records and links, the builder class |
| `HiveReading`, `HiveIterators`, `HiveBigData`, `HiveParsing`, `HiveStrings`, `HiveLookup` | the hive reader, written from the parser alone |
| `HiveRoundTrip`, `HiveShape`, `Mkhive`, `HiveTreeLookup` | what the reader sees of a written hive; the tree compiler; lookups on a compiled tree |
| `MultiSz`, `KeyTrees`, `HiveOfTree` | multi-string values, the AddReg operations of INF files, and their way into a hive and back |
| `PageMaps`, `BootImages`, `Paging` | page tables, the processor's walk, image placement, the whole mapping sequence of a boot |
| `Relocations`, `PeLayout`, `PeExports`, `PeImports` | PE images: relocation, the file view and the loaded view, export search, import linking |
| `Rings`, `Framebuffer`, `Xnls` | circular lists, rectangle copies, the NLS container |

## Main results

- **Hive round trip.** `Mkhive.BuildHive`: the bytes built for any tree are accepted by the parser, and
  walking them from the root key decodes exactly that tree, names, types and data, if and only if no value
  is longer than 16344 bytes and every name is ASCII with fewer than 65536 bytes; one value name that is
  not ASCII comes back too. The call returns exactly for the trees that `Buildable` describes.
- **From operations to lookups.** Every AddReg operation is idempotent and touches only its own value. A
  lookup in the hive of the resulting tree finds something exactly if the tree holds a value under that
  path and name, up to case and empty path components, and then yields that value
  (`HiveOfTree.HiveFindsIff`, `HiveOfTree.HiveHoldsValue`); so a value that was set by its INF path is
  found behind the hive's root (`HiveOfTree.OperationSeen`).
- **Allocation.** Free cells of a hive the builder made never exceed 4064 bytes, so an allocation returns
  if and only if `FitsBin` holds of the size; otherwise extending the hive and retrying never helps. No
  key can ever get a 508th subkey or a 1016th value.
- **Heap shape over every run.** Bin headers and cells cover every byte exactly once; records own
  disjoint cells and no cell in use is lost; one path leads from the root to every key; handles never
  become invalid although list cells are freed and reused.
- **Page tables over a whole boot.** `Paging.Boot`: for every 64-bit address the processor's four-level
  walk finds exactly what is meant, writable; every byte of every image is reachable at its own address if and only
  if no image crosses a gigabyte boundary, because `map_module` looks its directory up only once.
- **Both PE views agree.** A name or an ordinal resolves on the loaded, relocated image to `va_base + r`
  exactly when the file's own table says `r`; for ordinals also where there are no names
  (`PeExports.NamesAgree`, `PeExports.OrdinalsAgree`).
- **Relocation.** Reading a written relocation directory gives back what was written, and applying it moves
  each listed field by delta once and nothing else (`Relocations.WrittenApplied`). Relocating by d1 and then
  by d2 is relocating by d1 + d2; relocating back restores the image, modulo 2^64.
- **Import linking.** `PeImports.DirectoryMeaning`: over a whole import directory whose address tables are
  disjoint, and whose descriptors, names and lookup tables lie outside them or are the address tables
  themselves, every slot ends up with the address that the exporter's own tables list for the name or
  ordinal its word stood for on entry, and nothing else changes, although the loops patch the image they
  read. If the exporters' names ascend, linking succeeds exactly if everything named resolves so, and an
  error says what does not (`PeImports.LinkingFails`).

## Where the code differs from what one would expect

- `extend_hive` rounds the requested cell size to whole bins without its own 32-byte header, so some sizes
  are never served (`HiveHeap.FitsBinIff`, `HiveHeap.RetryNeverHelps`); the model answers `NeverReturns`.
  On a new hive 4068 bytes are such a size (`HiveHeap.NeverServed`).
- Data over 16344 bytes goes into one cell, though the parser expects a `db` record there. It is read back
  exactly up to that size, and above it rejected unless it happens to begin with `db`
  (`HiveRoundTrip.ValueIsSeen`); a tree with a value of 16345 bytes is built and does not decode
  (`Mkhive.LongDataLost`, `Mkhive.BuildLost`).
- Names are stored as UTF-8 under a length cut to 16 bits. The names of keys are marked as Latin-1 whatever
  they are, so one comes back exactly if it is ASCII and has fewer than 65536 bytes
  (`HiveRoundTrip.KeyIsSeen`). The names of values that are not ASCII are read as UTF-16LE, and only the
  name of the single character U+BFEB is read back as itself (`Strings.OwnPairs`, `HiveRoundTrip.ValueIsSeen`).
  Trees with a key of 65536 letters or with one called `é` are built and do not decode
  (`Mkhive.LongNameLost`, `Mkhive.AccentLost`, `Mkhive.BuildLost`).
- Setting a value twice stores it twice and lookups find the first (`HiveTreeLookup.ValueByNameDecodes`).
- The nested maps tell names apart by case and lookups do not: of two sibling names that differ only by
  case, one hides the other (`HiveOfTree.CaseClash`).
- Non-empty `REG_NONE` and unknown types become `REG_BINARY`, empty ones disappear (`Mkhive.ConversionIff`).
- A module that crosses a gigabyte boundary is mapped with its tail wrapped to the start of its first
  gigabyte; the tail's own addresses stay unmapped (`BootImages.MappedFaithful`, `BootImages.TailLost`).
- Past the raw data of a section the loaded image is zero while `rva_to_offset` leads on into the file
  (`PeLayout.PlacedZeroPastRaw`).
- An AddReg operation that fails with an APPEND error has already created its key (`KeyTrees.KeysAfter`).

## Model

| member | source | states |
|---|---|---|
| Bytes.ReadsLittle | libs/pe/src/parser.rs:20-59 | fields of two, four and eight bytes are read as numbers whose first byte counts least |
| Bytes.WritesLittle | libs/hive/src/builder.rs:916-926 | and written so |
| Bytes.UpperIff | tools/mkhive/src/main.rs:836-839 | two strings have the same upper-case form exactly if they differ by the case of ASCII letters only |
| HiveHeap.FitsBinIff | libs/hive/src/builder.rs:838-862 | a size is served by its own new bin exactly when it fits beside the bin header; the bin is the least whole number of 4096-byte units |
| HiveHeap.CellSizeHolds | libs/hive/src/cell.rs:215-222 | the rounded cell size is the least multiple of 8 that holds header and data |
| HiveHeap.TakeHeap | libs/hive/src/builder.rs:788-815 | allocating from a free cell, split or whole, leaves bins and cells tiling the buffer and the bytes showing them |
| HiveHeap.ExtendHeap | libs/hive/src/builder.rs:838-862 | appending a bin with one free cell keeps the heap well formed |
| HiveHeap.ReleaseHeap | libs/hive/src/builder.rs:825-835 | negating a used cell's size frees that cell and nothing else |
| HiveHeap.WriteCellHeap | libs/hive/src/builder.rs:912-930 | writing inside a cell changes that cell's payload only |
| HiveHeap.OnlyNewCellFits | libs/hive/src/builder.rs:817-821 | after extending for a size, the new bin's cell is the one cell that fits it, so one retry is enough |
| HiveHeap.ServedIff | libs/hive/src/builder.rs:768-822 | while free cells are small, a request is served, by a free cell or by a new bin, if and only if a new bin can serve it |
| HiveHeap.RetryNeverHelps | libs/hive/src/builder.rs:768-862 | a size that neither a free cell nor a new bin can hold is not served after any number of extensions |
| HiveHeap.NeverServed | libs/hive/src/builder.rs:768-862 | a cell of 4068 data bytes is not served on a new hive, after however many extensions |
| HiveHeap.AllocationGrown | libs/hive/src/builder.rs:768-822 | an allocation turns free space into one used cell of exactly the rounded size and keeps all other used cells |
| HiveOrder.OrderIsStableSort | libs/hive/src/builder.rs:527-528 | the computed order is that of a stable sort by hash |
| HiveOrder.SortByHashPermutes | libs/hive/src/builder.rs:527-528 | sorting keeps the items as a multiset |
| HiveOrder.SortIncrementally | libs/hive/src/builder.rs:502-537 | sorting after every addition gives the same list as sorting once at the end |
| HiveOrder.SortOfSorted | libs/hive/src/builder.rs:527-528 | a sorted list is left as it is |
| HiveOrder.HashIsSum | libs/hive/src/builder.rs:934-942 | the hash is the sum of the upper-cased characters times powers of 37, modulo 2^32 |
| HiveBuilding.ComputeNameHash | libs/hive/src/builder.rs:934-942 | the loop over the characters computes the hash of the upper-cased name |
| HiveBuilding.HiveBuilder.New | libs/hive/src/builder.rs:231-250 | a new hive is valid and has exactly the root key; it is made exactly when the root's name fits |
| HiveBuilding.HiveBuilder.InitBaseBlock | libs/hive/src/builder.rs:290-327 | the base block's fields after initialisation, and the first 31 UTF-16 units of the file name from offset 48 on |
| HiveBuilding.HiveBuilder.InitFirstBin | libs/hive/src/builder.rs:330-350 | one bin with one free cell fills the first 4096 bytes |
| HiveBuilding.HiveBuilder.CreateRootKey | libs/hive/src/builder.rs:353-361 | the root key is stored and the base block points to it |
| HiveBuilding.HiveBuilder.AllocateCell | libs/hive/src/builder.rs:768-822 | first fit with splitting, at most one extension; when it succeeds, never returns or runs out of range |
| HiveBuilding.HiveBuilder.ExtendHive | libs/hive/src/builder.rs:838-862 | a bin of the rounded size with one free cell is appended, everything before it is unchanged |
| HiveBuilding.HiveBuilder.FreeCell | libs/hive/src/builder.rs:825-835 | the cell becomes free and nothing else changes |
| HiveBuilding.HiveBuilder.Allocate | libs/hive/src/builder.rs:768-822 | on any hive the builder made, an allocation returns only if the size fits a bin, and every free cell stays small |
| HiveBuilding.AllocationServes | libs/hive/src/builder.rs:768-862 | an allocation that was made asked for a size that fits a bin; one cell is in use more, the heap stays well formed, and the file grew by at most that bin |
| HiveBuilding.HiveBuilder.AllocateKeyNode | libs/hive/src/builder.rs:383-427 | a new cell holds a key record with the given name, flags and parent, no subkeys and no values |
| HiveBuilding.HiveBuilder.CreateSubkeysList | libs/hive/src/builder.rs:476-499 | a new cell lists exactly the given items |
| HiveBuilding.HiveBuilder.ExtendSubkeysList | libs/hive/src/builder.rs:502-537 | the list is freed and rewritten, sorted, with the new item; all other records stay |
| HiveBuilding.HiveBuilder.AddSubkeyToParent | libs/hive/src/builder.rs:430-473 | the parent has one more subkey, at most 507 in all; every other record is unchanged and no cell is lost |
| HiveBuilding.HiveBuilder.CreateSubkey | libs/hive/src/builder.rs:369-377 | on the abstract tree: one empty child is added to the parent; it succeeds only if name and count fit, and never returns only if they do not |
| HiveBuilding.HiveBuilder.AllocateKeyValue | libs/hive/src/builder.rs:629-687 | a value record with its data inline up to four bytes and in a cell of its own above |
| HiveBuilding.HiveBuilder.CreateValuesList | libs/hive/src/builder.rs:721-734 | a new cell lists exactly the given values |
| HiveBuilding.HiveBuilder.ExtendValuesList | libs/hive/src/builder.rs:737-763 | the list is freed and rewritten with the new value at its end |
| HiveBuilding.HiveBuilder.AddValueToKey | libs/hive/src/builder.rs:692-718 | the key has one more value, at most 1015 in all; every other record is unchanged |
| HiveBuilding.HiveBuilder.SetValueInternal | libs/hive/src/builder.rs:611-626 | on the abstract tree: one value is appended to the key, existing ones stay |
| HiveBuilding.HiveBuilder.SetDword | libs/hive/src/builder.rs:540-543 | appends a four-byte value of type 4 |
| HiveBuilding.HiveBuilder.SetQword | libs/hive/src/builder.rs:546-549 | appends an eight-byte value of type 11 |
| HiveBuilding.HiveBuilder.Build | libs/hive/src/builder.rs:865-876 | the bytes handed out carry the stored checksum of their own first 508 bytes, and the tree is unchanged |
| HiveBuilding.HiveBuilder.ComputeChecksum | libs/hive/src/builder.rs:879-894 | the loop computes the exclusive or of the first 127 words with its two special cases |
| HiveRecords.ListSizes | libs/hive/src/builder.rs:476-537 | the exact list lengths whose cells can be allocated and freed again |
| HiveRecords.SubkeysRelinked | libs/hive/src/builder.rs:430-537 | relinking a parent to a reallocated list keeps every record in its own cell and no cell lost |
| HiveRecords.ValuesRelinked | libs/hive/src/builder.rs:692-763 | the same for value lists |
| HiveRecords.GraphGrows | libs/hive/src/builder.rs:369-473 | adding a child keeps the links a tree with sorted, matching subkey lists |
| HiveRecords.GraphGainsValue | libs/hive/src/builder.rs:611-718 | adding a value keeps every value owned by one key |
| HiveRecords.LittleEndianBytes | libs/hive/src/builder.rs:638-652 | data of up to four bytes survives being stored in the offset field |
| HiveShape.EveryByteCovered | libs/hive/src/builder.rs:330-350 | no byte behind the base block is outside all bin headers and cells |
| HiveShape.NoByteCoveredTwice | libs/hive/src/builder.rs:768-862 | headers and cells never overlap |
| HiveShape.RecordsOwnTheirCells | libs/hive/src/builder.rs:383-765 | two records never share a cell, and every used cell belongs to a record |
| HiveShape.EveryKeyReachedOnce | libs/hive/src/builder.rs:430-537 | exactly one path of child positions leads from the root to every key |
| HiveShape.EveryValueListedOnce | libs/hive/src/builder.rs:692-763 | every value hangs at one place of one key |
| HiveShape.BaseOnDisk | libs/hive/src/builder.rs:290-327 | the base block as bytes: its mark, version 1.5, file and format types and clustering factor |
| HiveShape.BinOnDisk | libs/hive/src/builder.rs:838-862 | the bytes of a bin header: its mark, its offset and its size |
| HiveShape.CellOnDisk | libs/hive/src/builder.rs:788-815 | a cell's payload stands behind its size, which is negative in use and positive when free |
| HiveShape.KeyOnDisk | libs/hive/src/builder.rs:383-427 | every field of a key record by its place, also the parent and the longest name, which the parser does not read |
| HiveShape.SubkeyOnDisk | libs/hive/src/builder.rs:476-537 | each list entry leads to a child of that key and carries the weighted sum of the child's name |
| HiveReading.ValidateChecksum | libs/hive/src/hive.rs:330-358 | the loop accepts exactly the stored checksum |
| HiveReading.ChecksumCancels | libs/hive/src/hive.rs:330-358 | with its checksum the exclusive or of the first 128 words is zero, but for the two special words |
| HiveReading.FirstWords | libs/hive/src/hive.rs:330-358 | the exclusive or begins with the first two words as they are |
| HiveReading.AcceptedIff | libs/hive/src/hive.rs:318-462 | a base block is accepted exactly if every one of the nine checks is met, whatever their order |
| HiveReading.CellRangeIff | libs/hive/src/key_node.rs:421-475 | a cell is readable exactly if it is in use, its size is a multiple of 8 and it ends within the data |
| HiveReading.SignedIs | libs/hive/src/key_node.rs:421-475 | a size field read as signed is the stored word or that less 2^32, whichever is in range |
| HiveReading.KeyNodeAtIff | libs/hive/src/key_node.rs:178-230 | a key node is accepted exactly in a readable cell that holds its header and begins with `nk` |
| HiveReading.SubkeyListIff | libs/hive/src/subkeys.rs:173-212 | a list is accepted exactly if its letters are `li`, `lf`, `lh` or `ri` and its cell holds all the items it announces, of four bytes for `li` and `ri` and of eight for the others |
| HiveReading.LeafAtIff | libs/hive/src/subkeys.rs:349-408 | below an index root a list is accepted exactly if it is a list there is, and no index root |
| HiveReading.NestedRootRejected | libs/hive/src/subkeys.rs:349-408 | an index root below an index root is reported as a wrong signature, even if its count is wrong too |
| HiveReading.KeyValueAtIff | libs/hive/src/key_value.rs:210-233 | a value is accepted exactly in a readable cell that holds its header and begins with `vk` |
| HiveReading.BigDataAtIff | libs/hive/src/big_data.rs:114-172 | big data is accepted exactly if it is marked, counts enough segments, and its list holds them all |
| HiveReading.DwordIff | libs/hive/src/key_value.rs:363-393 | exactly four bytes of type 4 or 5 are a number, little-endian or big-endian |
| HiveReading.QwordIff | libs/hive/src/key_value.rs:398-421 | exactly eight bytes of type 11 are a little-endian number |
| HiveParsing.CellErrors | libs/hive/src/key_node.rs:421-475 | which error a cell gives, by the word at its offset |
| HiveParsing.KeyNodeErrors | libs/hive/src/key_node.rs:178-230 | which error a key node gives: that of its cell, a short header, or a wrong mark |
| HiveParsing.KeyValueErrors | libs/hive/src/key_value.rs:210-233 | the same for a value |
| HiveParsing.ListErrors | libs/hive/src/subkeys.rs:173-212 | a list is refused for a short header, for letters that are no list's, or for announcing more items than its cell holds |
| HiveParsing.FirstFailure | libs/hive/src/hive.rs:318-462 | a base block is refused with the error of the first of its ten checks that fails |
| HiveParsing.KeyNameIff | libs/hive/src/key_node.rs:252-271 | a key's name stands behind its record, one byte for each character exactly if bit 5 of the flags is set |
| HiveParsing.ValueNameIff | libs/hive/src/key_value.rs:257-281 | the same for a value by bit 0; length 0 is the empty name whatever the bit |
| HiveParsing.DataIff | libs/hive/src/key_value.rs:303-359 | the three ways of storing data, by the size field: in the record, in a cell, as big data |
| HiveParsing.DataErrors | libs/hive/src/key_value.rs:303-359 | which error reading data gives |
| HiveParsing.BigDataErrors | libs/hive/src/big_data.rs:114-172 | which error big data gives |
| HiveParsing.IndexRootIs | libs/hive/src/subkeys.rs:349-430 | the items of an index root are those of the leaves of all its words, with one error for each leaf that is refused |
| HiveParsing.LeavesPlaced | libs/hive/src/subkeys.rs:349-430 | the leaf of every word has its place behind those of the words before it |
| HiveRoundTrip.KeyPayloadReads | libs/hive/src/key_node.rs:178-272 | the reader finds the name and the list positions of a written key record |
| HiveRoundTrip.SubkeyListReads | libs/hive/src/subkeys.rs:173-298 | a written hash leaf reads back as its items in their order |
| HiveRoundTrip.ValueListReads | libs/hive/src/key_node.rs:386-409 | a written value list reads back as its values in their order |
| HiveRoundTrip.KeyIsSeen | libs/hive/src/key_node.rs:317-409 | every key of a valid builder state is read with its subkeys and values, and its name comes back if and only if it is ASCII and has fewer than 65536 bytes |
| HiveRoundTrip.DataOutcome | libs/hive/src/key_value.rs:303-359 | what reading a value's data yields: itself up to 16344 bytes, a big-data check above |
| HiveRoundTrip.ValueIsSeen | libs/hive/src/key_value.rs:257-359 | every value is read with its type; its name comes back if and only if it is ASCII and has fewer than 65536 bytes, or is U+BFEB; its data if and only if it has at most 16344 bytes |
| HiveRoundTrip.NumbersComeBack | libs/hive/src/key_value.rs:363-425 | what is set as a number of four or eight bytes is read back as that number |
| HiveRoundTrip.BuiltHiveAccepted | libs/hive/src/hive.rs:195-445 | the parser accepts what is built, and finds the root key where it was put |
| Strings.Utf8Iff | boot/winload/src/loader.rs:688-702 | bytes are well formed exactly if they encode some list of characters |
| Strings.CharsOfEncoded | libs/hive/src/builder.rs:934-942 | the characters read from an encoded list are that list |
| Strings.EncodedUnits | libs/hive/src/string.rs:275-282 | a character is one code unit or the two surrogates that stand for it |
| Strings.UnitsOfBytes | libs/hive/src/string.rs:275-282 | a string has at most as many code units as bytes and at least a third, and as many only if it is ASCII |
| Strings.UnitsJoin | libs/hive/src/string.rs:275-282 | the code units of two strings put together are those of the first, then those of the second |
| Strings.Latin1Back | libs/hive/src/key_node.rs:252-271 | the bytes of a string, cut to the stored length and taken as Latin-1, are the string if and only if it is ASCII and shorter than 65536 bytes |
| Strings.OwnPairs | libs/hive/src/string.rs:242-249 | the UTF-8 bytes of a string that is not ASCII, taken as UTF-16LE, are that string for one string only |
| Strings.PairsBack | libs/hive/src/key_value.rs:257-281 | the same with the stored length cut to 16 bits |
| HiveIterators.LeafKeyNodes.Next | libs/hive/src/subkeys.rs:280-302 | each call yields the first item left, and drops it |
| HiveIterators.IndexRootKeyNodes.LoadNextLeaf | libs/hive/src/subkeys.rs:349-408 | opening a leaf loses no item and consumes root bytes; an unusable leaf is one error item |
| HiveIterators.IndexRootKeyNodes.Next | libs/hive/src/subkeys.rs:414-430 | repeated calls yield the concatenation of all leaves with their errors, skipping empty leaves, and end |
| HiveIterators.SubKeyNodes.Next | libs/hive/src/subkeys.rs:216-221 | both kinds of lists yield their items one after the other |
| HiveIterators.KeyValues.Next | libs/hive/src/key_node.rs:526-546 | the values are yielded in list order |
| HiveBigData.BigDataSlices.Next | libs/hive/src/big_data.rs:178-213 | each call yields the next slice and moves on |
| HiveBigData.AcceptedIsEnough | libs/hive/src/big_data.rs:142-171 | accepted big data lists enough segments for its size |
| HiveBigData.SliceSizes | libs/hive/src/big_data.rs:178-213 | exactly ceil(size / 16344) slices; all but the last that are no error have 16344 bytes |
| HiveBigData.IntoVec | libs/hive/src/key_value.rs:180-192 | the loop joins the slices in order, or stops at the first error |
| HiveBigData.JoinedLength | libs/hive/src/key_value.rs:180-192 | if no segment fails, exactly the announced number of bytes comes out |
| HiveBigData.SegmentsJoin | libs/hive/src/big_data.rs:178-213 | data that lies cut into segments of 16344 bytes is put together again |
| HiveStrings.ToUppercase | libs/hive/src/string.rs:153-158 | the binary search in the table of letters finds the upper-case form wherever there is one |
| HiveStrings.UpcaseAscii | libs/hive/src/string.rs:153-158 | an upper-case form has no other one, and for ASCII it is the one that hashes and operation paths use |
| HiveStrings.CmpIter | libs/hive/src/string.rs:252-273 | walking both names compares their upper-cased units; equal exactly if these match |
| HiveStrings.CompareEqualIff | libs/hive/src/string.rs:252-273 | the order says equal only for equal unit sequences |
| HiveStrings.CompareLess | libs/hive/src/string.rs:252-273 | a name is less by its first different unit, or as a part the other one goes on from |
| HiveStrings.CompareFlips | libs/hive/src/string.rs:252-282 | swapping the names flips the answer |
| HiveStrings.CompareChains | libs/hive/src/string.rs:252-282 | the comparison is transitive |
| HiveLookup.SplitJoins | libs/hive/src/key_node.rs:356-367 | joining the components with backslashes gives the path again, and no component holds one |
| HiveLookup.SplitPath | libs/hive/src/key_node.rs:356-367 | the loop over the characters splits the path at its backslashes |
| HiveLookup.Subkey | libs/hive/src/key_node.rs:317-329 | the search yields the first subkey with the name, or the first error before it |
| HiveLookup.Subpath | libs/hive/src/key_node.rs:356-367 | the loop descends by the components of the path string one after the other, skipping empty ones |
| HiveLookup.Value | libs/hive/src/key_node.rs:370-383 | the search yields the first value with the name |
| HiveTreeLookup.FindKidIff | libs/hive/src/key_node.rs:317-329 | with distinct names, a child is found exactly if it has the name |
| HiveTreeLookup.SubkeyDecodes | libs/hive/src/key_node.rs:317-329 | on a compiled tree, `subkey` finds what the tree's own case-insensitive lookup finds |
| HiveTreeLookup.SubpathDecodes | libs/hive/src/key_node.rs:356-367 | on a compiled tree, `subpath` is the fold of that lookup over the components |
| HiveTreeLookup.ValueByNameDecodes | libs/hive/src/key_node.rs:370-383 | on a compiled tree, `value` finds the first stored value with the name |
| Mkhive.AddValue | tools/mkhive/src/main.rs:90-140 | the value is stored as its type and length ask for, or dropped; when it fits and when the call never returns |
| Mkhive.ConversionIff | tools/mkhive/src/main.rs:107-138 | which type and data are stored, in numbers: types 1, 2, 3 and 7 as they are, 4 and 11 cut to four and eight bytes or dropped when shorter, anything else as type 3 or dropped when empty |
| Mkhive.KeptAre | tools/mkhive/src/main.rs:70-79 | the stored values are those that can be stored, each once and in order |
| Mkhive.BuildValues | tools/mkhive/src/main.rs:70-79 | the values of a key arrive in order, and the call returns exactly for value lists that fit |
| Mkhive.BuildKeyRecursive | tools/mkhive/src/main.rs:70-88 | the whole subtree is in the builder below its key, everything older is untouched; returns only for buildable trees |
| Mkhive.TreeStays | tools/mkhive/src/main.rs:70-88 | a finished subtree stays finished while later ones are built |
| Mkhive.HiveIsSeen | libs/hive/src/builder.rs:865-876 | in a valid builder state every record is read as it was written |
| Mkhive.ReadableIff | tools/mkhive/src/main.rs:59-140 | a tree is readable exactly if all its names are plain and all its data is small |
| Mkhive.TreeDecodes | tools/mkhive/src/main.rs:59-140 | a tree in the builder decodes to the tree it was built from, names and data, if and only if it is readable |
| Mkhive.DecodedReadsBack | tools/mkhive/src/main.rs:59-140 | a tree that decodes reads back: names, and exactly the storable values with type and data in those numbers, and exactly its subkeys |
| Mkhive.BuildHive | tools/mkhive/src/main.rs:59-68 | the round trip: accepted by the parser, decodes and reads back exactly the tree if and only if its data is small and its names are plain, returns exactly for buildable trees |
| Mkhive.LongNameLost | libs/hive/src/builder.rs:383-427 | a tree with a key of 65536 letters is buildable with small data, but its names are not plain |
| Mkhive.AccentLost | libs/hive/src/builder.rs:383-427 | a tree with a key called `é` is buildable with small data, but its names are not plain |
| Mkhive.LongDataLost | libs/hive/src/builder.rs:629-687 | a tree with a value of 16345 bytes is buildable with plain names, but not with small data |
| Mkhive.BuildLost | tools/mkhive/src/main.rs:59-68 | building these three trees succeeds, the parser accepts the files, and none decodes |
| MultiSz.ParseMultiSz | tools/mkhive/src/main.rs:951-976 | the loop splits at NULs and stops at an empty string |
| MultiSz.EncodeMultiSz | tools/mkhive/src/main.rs:978-988 | the loop writes each string with a NUL and one NUL at the end |
| MultiSz.BootParseMultiSz | boot/winload/src/boot_drivers.rs:287-308 | the loader's loop computes its own decoding |
| MultiSz.RoundTrip | tools/mkhive/src/main.rs:951-988 | decoding an encoded list of non-empty NUL-free strings returns it |
| MultiSz.EncodedEnds | tools/mkhive/src/main.rs:978-988 | the length of the encoding, and that it ends in two NULs unless the list is empty |
| MultiSz.TailIgnored | tools/mkhive/src/main.rs:951-976 | nothing behind the final NUL is read |
| MultiSz.UnfinishedDropped | tools/mkhive/src/main.rs:951-976 | a string without its NUL is not read |
| MultiSz.OddBytes | tools/mkhive/src/main.rs:952-954 | an odd number of bytes is no list for `mkhive`, while the loader ignores the last byte |
| MultiSz.LossyAt | tools/mkhive/src/main.rs:968 | exactly the surrogates without a partner beside them read as U+FFFD |
| MultiSz.DropKeeps | boot/winload/src/boot_drivers.rs:287-332 | the loader drops surrogates and keeps every other unit |
| MultiSz.DecodersAgree | boot/winload/src/boot_drivers.rs:287-332 | both decoders agree when no code unit is a surrogate |
| MultiSz.MergeAdds | tools/mkhive/src/main.rs:889-894 | the old strings stay in front and in order, exactly the missing ones are added, each once |
| MultiSz.AppendDecodes | tools/mkhive/src/main.rs:877-905 | the stored bytes after APPEND decode to the merged list, whatever was stored before |
| MultiSz.AppendIdempotent | tools/mkhive/src/main.rs:877-905 | appending the same strings again changes nothing, over arbitrary stored bytes |
| KeyTrees.Spelling | tools/mkhive/src/main.rs:830-834 | every path is some components without backslashes, joined by backslashes |
| KeyTrees.TargetIs | tools/mkhive/src/main.rs:830-842 | for a path of such components an operation is about the non-empty ones, without the first of them if it is the hive's root name up to ASCII case |
| KeyTrees.KeyTree.Apply | tools/mkhive/src/main.rs:827-921 | one operation, with its flags in their order of precedence, on the tree of nested maps |
| KeyTrees.KeyTree.SplitPath | tools/mkhive/src/main.rs:830-842 | the loop yields the non-empty parts without the hive's own root |
| KeyTrees.OwnValue | tools/mkhive/src/main.rs:844-920 | for every combination of the flag bits 2, 4, 8, 16 and 32, what the value at that place is afterwards and which error is reported |
| KeyTrees.OthersKept | tools/mkhive/src/main.rs:827-921 | no operation but the deletion of a key changes a value other than its own |
| KeyTrees.KeysAfter | tools/mkhive/src/main.rs:923-948 | keys appear exactly on the way to the operation's place and go exactly by the deletion of a key, by the flag bits |
| KeyTrees.WithValuesFind | tools/mkhive/src/main.rs:932-938 | creating keys on the way to a key and changing its values leaves every other key as it was |
| KeyTrees.DeletedFind | tools/mkhive/src/main.rs:940-948 | deleting a key takes exactly what lies at or below it |
| KeyTrees.ApplyTwice | tools/mkhive/src/main.rs:827-921 | every operation is idempotent, also one that fails |
| HiveOfTree.PathFound | libs/hive/src/key_node.rs:356-367 | every path that differs from that of a key by case and empty components finds this key among the lists the tree is compiled from |
| HiveOfTree.PathFrom | libs/hive/src/key_node.rs:356-367 | a path that finds anything leads to a key of the tree under a path that differs only so |
| HiveOfTree.PartsFollowed | tools/mkhive/src/main.rs:830-842 | the path of an operation, looked up as it is written, leads to the keys the operation made |
| HiveOfTree.ValueFound | libs/hive/src/key_node.rs:370-383 | a kept value is found under every name that differs by case, as converted |
| HiveOfTree.ValueComesFrom | libs/hive/src/key_node.rs:370-383 | what a name finds is a value of the key under a name that differs by case, as converted |
| HiveOfTree.HiveHoldsValue | tools/mkhive/src/main.rs:59-140 | whatever value a tree of operations holds, its hive yields under every path and name alike, with type and data in the numbers of `ConversionIff` |
| HiveOfTree.HiveAddsNothing | tools/mkhive/src/main.rs:59-140 | whatever a lookup in the hive yields, the tree holds under a path and a name alike |
| HiveOfTree.HiveFindsIff | libs/hive/src/key_node.rs:356-383 | a lookup in the hive ends without a value if and only if the tree holds none under a path and a name alike |
| HiveOfTree.OperationSeen | tools/mkhive/src/main.rs:827-921 | after an operation without flags, looking up the path behind the hive's root, in whatever spelling, and the value's name in the hive of the tree yields the value that was set |
| HiveOfTree.CaseClash | libs/hive/src/key_node.rs:370-383 | of two values named `A` and `a`, asking for `a` finds the one named `A` |
| PageMaps.LinkParts | boot/winload/src/paging.rs:27-29 | an entry made of an aligned address and its flags is present, small, and yields its address |
| PageMaps.PageSet | boot/winload/src/paging.rs:256-261 | writing one entry maps one page and keeps all tables well formed |
| PageMaps.LeafAdded | boot/winload/src/paging.rs:244-248 | entering a page table changes no mapping but its own |
| PageMaps.DirectoryLinked | boot/winload/src/paging.rs:226-230 | linking a directory keeps all tables well formed |
| PageMaps.TablesBounded | boot/winload/src/paging.rs:149-266 | never more than 5 + 512 + 262144 tables exist, whatever is mapped |
| PageMaps.WalkKernel | boot/winload/src/paging.rs:149-266 | the four-level walk finds a kernel address exactly if its page is mapped, at its frame |
| PageMaps.WalkTranslates | boot/winload/src/paging.rs:95-139 | for every 64-bit address the walk finds what is meant: identity, direct map, mapped pages, nothing else |
| PageMaps.WalkWritable | boot/winload/src/paging.rs:95-139 | every entry that the walk passes for a translated address allows writing |
| BootImages.CrossesIff | boot/winload/src/paging.rs:219-233 | an image crosses exactly when its first and last byte lie in different gigabytes |
| BootImages.WrittenInside | boot/winload/src/paging.rs:236-265 | inside one gigabyte exactly the image's own pages are set |
| BootImages.WrittenStays | boot/winload/src/paging.rs:219-265 | no page outside the first gigabyte is ever touched |
| BootImages.MappedFaithful | boot/winload/src/paging.rs:214-266 | one image is reachable in full exactly if it does not cross |
| BootImages.TailLost | boot/winload/src/paging.rs:219-265 | an image of two megabytes that begins one megabyte below the end of a gigabyte is not reachable in full |
| BootImages.Undisturbed | boot/winload/src/paging.rs:214-266 | mapping a later image changes nothing about an earlier one, even in a shared page table |
| BootImages.AllFaithfulIff | boot/winload/src/main.rs:1026-1045 | over all images of a boot: all are reachable in full exactly if none crosses |
| BootImages.PlacedApart | boot/winload/src/main.rs:345-350 | placed images are 64 KiB aligned and lie one above the other |
| BootImages.ImagesLaid | boot/winload/src/main.rs:411-415 | kernel and modules together lie one above the other within the kernel's half terabyte |
| BootImages.FilledIsWritten | boot/winload/src/paging.rs:236-265 | filling table after table writes the same pages as going page by page |
| Paging.PageTables.Setup | boot/winload/src/paging.rs:95-139 | the loops leave identity map, direct map and empty kernel and HAL roots |
| Paging.PageTables.MapKernel | boot/winload/src/paging.rs:149-199 | exactly the kernel's pages are added, at consecutive frames from its base |
| Paging.PageTables.MapModule | boot/winload/src/paging.rs:214-266 | exactly which entries are written, for every address and size, also across gigabytes |
| Paging.PlaceModules | boot/winload/src/main.rs:610-614 | the loading loops pick the next 64 KiB boundary each time |
| Paging.Boot | boot/winload/src/main.rs:1016-1045 | the whole sequence: every address translates as meant and can be written; all images are reachable exactly if none crosses |
| Relocations.ApplyRelocations | boot/winload/src/loader.rs:351-418 | the loops, reading blocks from the image they patch, compute the specified image |
| Relocations.RelocatesListed | boot/winload/src/loader.rs:351-418 | with equal or disjoint targets outside the blocks, relocating is one addition per listed entry, and the list survives |
| Relocations.RelocateMeaning | boot/winload/src/loader.rs:390-404 | each 64-bit target moves by delta once per listed entry modulo 2^64, and no other byte changes |
| Relocations.DirectoryDecodes | boot/winload/src/loader.rs:367-391 | the relocations read from a written directory are those written: page, size, and type times 0x1000 plus place |
| Relocations.WrittenApplied | boot/winload/src/loader.rs:351-418 | on an image with a written directory every listed field moves by delta once, eight bytes for type 10 and four for type 3 where it is known, and no other byte changes |
| Relocations.RelocateTwice | boot/winload/src/loader.rs:351-418 | relocating by d1 and then d2 is relocating by d1 + d2 |
| Relocations.RelocateBack | boot/winload/src/loader.rs:351-418 | relocating by delta and then by -delta restores the image |
| Relocations.RelocateByNothing | boot/winload/src/loader.rs:326-331 | relocating by zero changes nothing on any image, so skipping it is no loss |
| Relocations.LoadersAgree | libs/pe/src/parser.rs:525-598 | both implementations give the same image when there are no 32-bit relocations, also where targets overlap |
| PeLayout.RvaToOffset | libs/pe/src/parser.rs:288-314 | the search yields the first section that holds the address, or the headers |
| PeLayout.OffsetIff | libs/pe/src/parser.rs:288-314 | an address in the headers is its own offset; any other belongs to the first section whose larger size covers it, modulo 2^32 |
| PeLayout.LoadImage | boot/winload/src/loader.rs:264-333 | headers and sections are laid out in fresh memory, with the loader's two skip rules, and relocated |
| PeLayout.PlaceHere | boot/winload/src/loader.rs:297-321 | with separate sections, each covered byte is its own section's raw byte, or zero past the raw data |
| PeLayout.PlaceSkipped | boot/winload/src/loader.rs:305-310 | a section whose raw data ends behind the file or the image is left out |
| PeLayout.PlacedMatchesFile | boot/winload/src/loader.rs:289-321 | bytes backed by the file are found at the offset the file view computes |
| PeLayout.LoadedMatchesFile | boot/winload/src/loader.rs:289-331 | also after relocation, outside the relocated fields |
| PeLayout.LoadedMoved | boot/winload/src/loader.rs:323-418 | of a file with a written relocation directory every listed 64-bit field holds what the file had there plus delta, every other byte is as placed, 32-bit fields too |
| PeLayout.PlacedZeroPastRaw | libs/pe/src/parser.rs:302-311 | past the raw data the image is zero while the file view leads into the file |
| PeExports.ReadCString | libs/pe/src/parser.rs:70-81 | the loop yields the bytes up to the first NUL or the end, if they are UTF-8 |
| PeExports.CStringIff | boot/winload/src/loader.rs:908-920 | a string is read exactly if it stands there, is UTF-8, and ends at a NUL or the end |
| PeExports.LessIff | boot/winload/src/loader.rs:624 | one name is before another by its first different byte, or as a part the other one goes on from |
| PeExports.SearchFinds | boot/winload/src/loader.rs:605-655 | on a table that ascends byte by byte a listed name is found at its index |
| PeExports.SearchIff | boot/winload/src/loader.rs:605-655 | on a table that ascends byte by byte exactly the listed names are found |
| PeExports.Search | boot/winload/src/loader.rs:611-652 | on any table a hit is a true match, and an abandoned search met an unreadable name |
| PeExports.ResolveByName | boot/winload/src/loader.rs:605-655 | the binary search loop computes the specified lookup |
| PeExports.ResolveByOrdinal | boot/winload/src/loader.rs:660-685 | lookup by ordinal, with its range checks and without forwarders |
| PeExports.ByNameIff | boot/winload/src/loader.rs:605-655 | a name resolves to r exactly if it is listed and its slot holds r and no forwarder |
| PeExports.NameIff | boot/winload/src/loader.rs:605-655 | in terms of the bytes of the directory: what a name resolves to is listed for it, and with ascending names whatever is listed is found |
| PeExports.OrdinalIff | boot/winload/src/loader.rs:660-685 | an ordinal resolves to r exactly if its slot by the directory's base and count holds r and no forwarder |
| PeExports.NameIsOrdinal | boot/winload/src/loader.rs:627-685 | a hit resolves to what its ordinal resolves to, as long as the ordinal has a function |
| PeExports.ResolveExportByName | libs/pe/src/parser.rs:612-677 | the same search over the file, with its errors |
| PeExports.FileListed | libs/pe/src/parser.rs:612-677 | what a name resolves to in the file is listed there for it |
| PeExports.FileErrors | libs/pe/src/parser.rs:612-632 | which error a missing or truncated directory gives |
| PeExports.FileOrdinalIff | libs/pe/src/parser.rs:687-724 | an ordinal resolves to r exactly if its slot in the file holds r and no forwarder; which error a missing directory gives |
| PeExports.SameByName | libs/pe/src/parser.rs:612-677 | where the name table and what it leads to show the same, every name resolves alike in both views |
| PeExports.SameByOrdinal | libs/pe/src/parser.rs:682-724 | where the address table shows the same, every ordinal resolves alike, whatever the name tables |
| PeExports.NamesAgree | boot/winload/src/loader.rs:605-655 | on a loaded and relocated image a name resolves to `va_base + r` exactly when the file's table says r, also without any names |
| PeExports.OrdinalsAgree | boot/winload/src/loader.rs:660-685 | the same for ordinals, from the directory and the address table alone |
| PeImports.ResolveImports | boot/winload/src/loader.rs:782-905 | both loops, patching the image they read, compute the specified image and error |
| PeImports.ImportsFollowPlan | boot/winload/src/loader.rs:813-902 | if nothing is read after it was patched, linking carries out exactly what the tables ask for on entry |
| PeImports.LinkingMeaning | boot/winload/src/loader.rs:782-905 | if nothing is read after it was patched: success exactly if all named symbols resolve; each slot then holds its symbol's address and no other byte changed |
| PeImports.FindIff | boot/winload/src/loader.rs:449-454 | the search finds the first module with the name up to case, or none has it |
| PeImports.BaseNameIff | boot/winload/src/loader.rs:828-834 | the extensions .DLL, .EXE and .SYS are cut off in whatever case |
| PeImports.ExporterIff | boot/winload/src/loader.rs:836-846 | a DLL name leads to the module named without the extension, else to the one named in full |
| PeImports.SymbolIff | boot/winload/src/loader.rs:870-891 | a word from 2^63 on is the ordinal in its low 16 bits, any other one leads to a hint and the name |
| PeImports.ResolveIff | boot/winload/src/loader.rs:872-896 | with ascending names the stored address is `va_base` plus what the exporter lists, modulo 2^64 |
| PeImports.DirectoryInTime | boot/winload/src/loader.rs:813-902 | in a directory laid out well nothing is read after it was patched, by whichever descriptor |
| PeImports.DirectoryPlanned | boot/winload/src/loader.rs:813-902 | the planned slots are slots of listed entries, each with what its entry imports, and apart |
| PeImports.PlanComplete | boot/winload/src/loader.rs:813-902 | a plan without an error has a slot for every listed entry |
| PeImports.PlanSucceedsIff | boot/winload/src/loader.rs:813-902 | with ascending names there is no error exactly if every descriptor has an exporter and every entry resolves |
| PeImports.LinkingFails | boot/winload/src/loader.rs:822-894 | an error says what is wrong with a descriptor's name or with one of its entries |
| PeImports.DirectoryMeaning | boot/winload/src/loader.rs:782-905 | for a whole directory laid out well: on success every slot holds `(va_base + r) % 2^64` where r is listed for the name or ordinal its word stands for, by the module its DLL name means; no other byte changes; and with ascending export names it succeeds exactly if every entry resolves so |
| Rings.ListInsertTail | boot/winload/src/loader.rs:985-993 | the ring gains the entry at its end |
| Rings.InsertAll | boot/winload/src/main.rs:886-933 | inserting all entries makes the ring of exactly these, in order |
| Rings.LinkToHead | boot/winload/src/ntcompat.rs:613-643 | linking the vector makes the ring of exactly its descriptors, in order |
| Rings.WalksAreOrdered | boot/winload/src/ntcompat.rs:613-643 | walking forward visits the entries in order, backward in reverse, and both return to the head |
| Rings.OneRing | boot/winload/src/ntcompat.rs:613-643 | a ring of given entries has only one set of links, so both constructions agree |
| Framebuffer.Screen.CopyRect | boot/drivers/bootvid/src/framebuffer.rs:228-276 | for every overlap each destination pixel shows the source as it was, and every other pixel stays; requests that leave the screen change nothing |
| Framebuffer.Screen.RowCopied | boot/drivers/bootvid/src/framebuffer.rs:255-275 | in the chosen direction no source row is overwritten before it is copied |
| Framebuffer.Screen.CopiedPixels | boot/drivers/bootvid/src/framebuffer.rs:165-276 | the same in screen coordinates, as reading pixels shows it |
| Framebuffer.Screen.FillRect | boot/drivers/bootvid/src/framebuffer.rs:191-223 | exactly the on-screen part of the rectangle takes the color |
| Xnls.Plan | tools/nslgen/src/main.rs:345-359 | the offsets of all chunks, unless the file would not fit 64 bits |
| Xnls.OffsetsGrow | tools/nslgen/src/main.rs:352-357 | chunks do not overlap |
| Xnls.Build | tools/nslgen/src/main.rs:317-403 | the overlap and size checks never fire; the file has the planned size, every entry leads to its chunk, and all other bytes are zero |
| Xnls.ReadsBack | tools/nslgen/src/main.rs:366-393 | slicing the file by the table of contents returns every chunk |
| Xnls.HeaderReads | tools/nslgen/src/main.rs:405-438 | every field of the header by its place; the size field is the length of the file |

## Left out

- Mkhive.BuildHive: requires names to be UTF-8, as every string is; the tree's children and values come as lists in the order in which the maps are iterated, so any order is covered. That a call which outgrows 32-bit offsets fails is only stated through `RoomFor`.
- HiveBuilding.HiveBuilder.AllocateCell: the retry that never ends is the answer `NeverReturns`, and sizes or offsets past their fields are the answer `TooLarge`, where the program would wrap or loop.
- Paging.PageTables.MapKernel: requires a kernel of at most 1 GiB on a directory not mapped before; a larger one indexes past the directory and panics.
- Paging.PageTables.MapModule: requires a page-aligned physical base within 52 bits and no wrap of 64-bit addresses.
- Paging.Boot: requires the placed images to stay within the kernel's 512 GiB. Physical addresses of tables are picked freely among unused pages; freeing does not occur.
- Relocations.RelocateTwice: requires targets that are equal or disjoint and lie outside the relocation blocks; overlapping 64-bit additions do not commute.
- Relocations.ApplyRelocations: the sum of block address and offset wraps at 32 bits, as in a release build.
- PeLayout.LoadImage: section table and directories are given, so header parsing and its errors are not part of the model.
- PeExports.NamesAgree: requires the tables and names of an image that has names in raw-backed, unrelocated bytes, and ordinals below the number of functions.
- PeImports.LinkingMeaning: exporters' images are fixed values, so a module that imports from itself is not covered; upper-casing is that of ASCII.
- HiveOfTree.HiveFindsIff: requires sibling names that differ by more than case (`Tidy`); of names that do not, lookups find whichever comes first.
- Framebuffer.Screen.CopyRect: the null check of the frame buffer address is not modelled.
- Corrupted hives beyond what the reader's own checks reject, `string_data`, class names, security descriptors, volatile keys and clearing them.
- `CellAllocator` in `libs/hive/src/cell.rs`, which the builder does not use.
- INF parsing, string expansion and type decoding in `tools/mkhive`; the Unicode table parsing of `tools/nslgen`.
- UEFI services, file reading, console output, the switch to the new tables, and the choice of which modules to load.
- Error payloads and messages; the model keeps which error it is.
