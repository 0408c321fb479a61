/** The page-table builder: boxes of 512 entries, patched in place. */
module Paging {
  import opened Bytes
  import opened Wrappers
  import opened PageMaps
  import opened BootImages

  class PageTables {
    /** Physical memory as far as it holds page tables: from a table's address to its entries. */
    var memory: Memory
    var roots: Roots

    ghost var owner: map<nat, Role>
    ghost var pds: map<nat, nat>
    ghost var pts: map<nat, nat>
    /** The kernel's half terabyte: frame of each mapped page. */
    ghost var pages: map<nat, nat>

    /** The tables are set up and say what `pages` says. */
    ghost predicate Valid()
      reads this
    {
      Tree(memory, owner, pds, roots, pds, pts, pages) && SetUp(memory, roots)
    }

    /** A zeroed table on a page nothing else uses. */
    method NewTable(ghost role: Role) returns (a: nat)
      requires |memory| <= 5 + 512 + KERNEL_REGIONS
      modifies `memory, `owner
      ensures a !in old(memory) && Frame(a)
      ensures memory == old(memory)[a := EmptyTable()] && owner == old(owner)[a := role]
      ensures |memory| == old(|memory|) + 1
    {
      ghost var free := FrameFree(memory.Keys, PHYS_LIMIT / PAGE_SIZE);
      a :| 0 <= a < PHYS_LIMIT && Frame(a) && a !in memory;
      memory := memory[a := EmptyTable()];
      owner := owner[a := role];
    }

    /** Writes entry `i` of the table at `a`. */
    method WriteEntry(a: nat, i: nat, e: u64)
      requires a in memory && i < |memory[a]|
      modifies `memory
      ensures memory == Patched(old(memory), a, i, e)
    {
      memory := Patched(memory, a, i, e);
    }

    method NewRoot(ghost role: Role) returns (a: nat)
      requires |memory| < 5 && memory.Keys == owner.Keys
      modifies `memory, `owner
      ensures |memory| == old(|memory|) + 1 && memory.Keys == owner.Keys
      ensures Untouched(memory, owner, a, role)
      ensures forall b, other {:trigger Untouched(memory, owner, b, other)} ::
                old(Untouched(memory, owner, b, other)) ==> Untouched(memory, owner, b, other)
    {
      a := NewTable(role);
    }

    constructor ()
      ensures BlankRoots(memory, owner, roots)
      ensures pds == map[] && pts == map[] && pages == map[]
    {
      hide Untouched, EmptyTable, Frame, Owned, Rooted, Distinct;
      memory, owner := map[], map[];
      pds, pts, pages := map[], map[], map[];
      new;
      var pml4 := NewRoot(Pml4);
      var low := NewRoot(Low);
      var hhdm := NewRoot(Hhdm);
      var kernel := NewRoot(Kernel);
      var hal := NewRoot(Hal);
      roots := Roots(pml4, low, hhdm, kernel, hal);
      RootsUntouched(memory, owner, roots);
    }

    /** Points the 512 entries of `table` at the first 512 gigabytes. */
    method MapGigabytes(table: nat)
      requires table in memory && |memory[table]| == 512
      modifies `memory
      ensures memory == old(memory)[table := HugeTable()]
    {
      ghost var row: seq<u64> := memory[table];
      assert memory == memory[table := row];
      for i := 0 to 512
        invariant |row| == 512 && memory == old(memory)[table := row]
        invariant forall k: nat {:trigger row[k]} :: k < i ==> row[k] == Huge(k)
      {
        PatchedTwice(old(memory), table, row, i, Huge(i));
        WriteEntry(table, i, Huge(i));
        row := row[i := Huge(i)];
      }
      assert row == HugeTable();
    }

    /** Identity map, direct map, and the roots for the kernel and the HAL. */
    method Setup()
      requires BlankRoots(memory, owner, roots) && pds == map[] && pts == map[] && pages == map[]
      modifies `memory
      ensures Valid()
    {
      hide Tree, SetUp, Link, Patched, HugeTable, BlankRoots, Frame, EmptyTable;
      FirstTree(memory, owner, roots);
      WriteEntry(roots.pml4, 0, Link(roots.low));
      MapGigabytes(roots.low);
      WriteEntry(roots.pml4, 256, Link(roots.hhdm));
      MapGigabytes(roots.hhdm);
      WriteEntry(roots.pml4, 496, Link(roots.kernel));
      WriteEntry(roots.pml4, 511, Link(roots.hal));
    }

    /** Writes one entry of the page table `pt` of region `r`. */
    method WritePage(pt: nat, k: nat, frame: nat, ghost linked: map<nat, nat>, ghost r: nat)
      requires Tree(memory, owner, linked, roots, pds, pts, pages) && SetUp(memory, roots)
      requires r in pts && pts[r] == pt && k < 512 && Frame(frame)
      modifies `memory, `pages
      ensures Tree(memory, owner, linked, roots, pds, pts, pages) && SetUp(memory, roots)
      ensures pages == old(pages)[512 * r + k := frame]
    {
      hide Tree, SetUp, Frame;
      PageSet(memory, owner, linked, roots, pds, pts, pages, r, k, frame);
      LeafWriteKeeps(memory, owner, linked, roots, pds, pts, pages, r, k, frame);
      WriteEntry(pt, k, Link(frame));
      pages := pages[512 * r + k := frame];
    }

    /** The page table that entry `pdIdx` of directory `g` leads to, made on first use. */
    method PageTableAt(pd: nat, pdIdx: nat, ghost g: nat) returns (pt: nat)
      requires Valid() && g in pds && pds[g] == pd && pdIdx < 512
      modifies `memory, `owner, `pts
      ensures Valid() && 512 * g + pdIdx in pts && pts[512 * g + pdIdx] == pt
    {
      ghost var r := 512 * g + pdIdx;
      hide Core, SetUp, Frame, Row, EmptyTable;
      DirectoryEntry(memory, owner, pds, roots, pds, pts, pages, g, pdIdx);
      if memory[pd][pdIdx] == 0 {
        hide Tree, AddsTo;
        ghost var mem0, owner0 := memory, owner;
        TablesBounded(memory, owner, pds, roots, pds, pts, pages);
        pt := NewTable(Leaf(r));
        NoPagesYet(mem0, owner0, pds, roots, pds, pts, pages, r);
        LeafAddKeeps(mem0, owner0, pds, roots, pds, pts, pages, r, pt, EmptyTable());
        LeafAdded(mem0, owner0, pds, roots, pds, pts, pages, r, pt, EmptyTable(), pages);
        WriteEntry(pd, pdIdx, Link(pt));
        pts := pts[r := pt];
      }
      DirectoryEntry(memory, owner, pds, roots, pds, pts, pages, g, pdIdx);
      pt := Pointer(memory[pd][pdIdx]);
    }

    /** Fills an empty page table, meant for region `r`, with `n` pages. */
    method FillNewTable(pt: nat, n: nat, currentPhys: nat, ghost r: nat) returns (ghost row: seq<u64>)
      requires pt in memory && memory[pt] == EmptyTable() && n <= 512
      requires Row(EmptyTable(), 512 * r, pages) && forall p {:trigger p in pages} :: p in pages ==> p / 512 != r
      requires currentPhys % PAGE_SIZE == 0 && currentPhys + PAGE_SIZE * n <= PHYS_LIMIT
      modifies `memory
      ensures memory == old(memory)[pt := row]
      ensures Row(row, 512 * r, Filled(pages, 512 * r, currentPhys, n))
      ensures AddsTo(pages, Filled(pages, 512 * r, currentPhys, n), r)
    {
      hide Row, EmptyTable, AddsTo, Filled, Patched;
      FilledNone(pages, r, currentPhys);
      row := EmptyTable();
      assert memory == memory[pt := row];
      for i := 0 to n
        invariant memory == old(memory)[pt := row]
        invariant Row(row, 512 * r, Filled(pages, 512 * r, currentPhys, i))
        invariant AddsTo(pages, Filled(pages, 512 * r, currentPhys, i), r)
      {
        var e := Link(currentPhys + PAGE_SIZE * i);
        RowLength(row, 512 * r, Filled(pages, 512 * r, currentPhys, i));
        RowWith(row, 512 * r, Filled(pages, 512 * r, currentPhys, i), i, currentPhys + PAGE_SIZE * i);
        FilledNext(pages, r, currentPhys, i);
        PatchedTwice(old(memory), pt, row, i, e);
        WriteEntry(pt, i, e);
        row := row[i := e];
      }
    }

    /** A new page table for region `r`: filled with `n` pages, then entered in the directory `pd`. */
    method NewFilledTable(pd: nat, r: nat, n: nat, currentPhys: nat, ghost linked: map<nat, nat>)
      requires Tree(memory, owner, linked, roots, pds, pts, pages) && SetUp(memory, roots)
      requires r !in pts && r < 512 && 0 in pds && pds[0] == pd && n <= 512
      requires currentPhys % PAGE_SIZE == 0 && currentPhys + PAGE_SIZE * n <= PHYS_LIMIT
      modifies `memory, `owner, `pts, `pages
      ensures Tree(memory, owner, linked, roots, pds, pts, pages) && SetUp(memory, roots)
      ensures pages == Filled(old(pages), 512 * r, currentPhys, n)
      ensures pts.Keys == old(pts.Keys) + {r}
    {
      hide Tree, SetUp, Row, EmptyTable, AddsTo, Filled, Patched, Frame, Link, Untouched, Pointer, Base;
      TablesBounded(memory, owner, linked, roots, pds, pts, pages);
      NoPagesYet(memory, owner, linked, roots, pds, pts, pages, r);
      var pt := NewTable(Leaf(r));
      ghost var row := FillNewTable(pt, n, currentPhys, r);
      ghost var pages' := Filled(pages, 512 * r, currentPhys, n);
      NewLeaf(old(memory), old(owner), linked, roots, pds, pts, pages, r, pt, row, pages', pd);
      WriteEntry(pd, r, Link(pt));
      pts := pts[r := pt];
      pages := pages';
    }

    /** The kernel's directory, not linked yet. */
    method NewKernelDirectory() returns (pd: nat)
      requires Valid() && 0 !in pds
      modifies `memory, `owner, `pds
      ensures Tree(memory, owner, old(pds), roots, pds, pts, pages) && SetUp(memory, roots)
      ensures pds == old(pds)[0 := pd] && forall r {:trigger r in pts} :: r in pts ==> r >= 512
    {
      hide Core, SetUp, Frame, EmptyTable;
      TablesBounded(memory, owner, pds, roots, pds, pts, pages);
      NoLeavesYet(memory, owner, pds, roots, pds, pts, pages, 0);
      pd := NewTable(Directory(0));
      DirectoryAdded(old(memory), old(owner), pds, roots, pds, pts, pages, 0, pd);
      SetUpWith(old(memory), old(owner), roots, pd);
      pds := pds[0 := pd];
    }

    /** Links the kernel's directory. */
    method LinkKernelDirectory(pd: nat, ghost linked: map<nat, nat>)
      requires Tree(memory, owner, linked, roots, pds, pts, pages) && SetUp(memory, roots)
      requires pds == linked[0 := pd]
      modifies `memory
      ensures Valid()
    {
      hide Tree, SetUp;
      DirectoryLinkedKeeps(memory, owner, linked, roots, pds, pts, pages, 0);
      DirectoryLinked(memory, owner, linked, roots, pds, pts, pages, 0);
      WriteEntry(roots.kernel, 0, Link(pd));
    }

    /** Maps the kernel at the start of its half terabyte; the directory is linked last. */
    method MapKernel(phys: nat, size: u64) returns (va: u64)
      requires Valid() && 0 !in pds && PageCount(size) <= GIG_PAGES
      requires phys % PAGE_SIZE == 0 && phys + PAGE_SIZE * PageCount(size) <= PHYS_LIMIT
      modifies `memory, `owner, `pds, `pts, `pages
      ensures Valid() && va == KERNEL_VA_BASE
      ensures pages == Written(old(pages), 0, 0, phys, PageCount(size))
    {
      hide Tree, SetUp, Written, Filled;
      ghost var linked := pds;
      var pageCount := PageCount(size);
      WrittenNone(pages, 0, 0, phys);
      var pd := NewKernelDirectory();
      var ptCount := (pageCount + 511) / 512;
      ptCount := if ptCount == 0 then 1 else ptCount;
      var remaining, currentPhys := pageCount, phys;
      ghost var done := 0;
      for ptIdx := 0 to ptCount
        invariant Tree(memory, owner, linked, roots, pds, pts, pages) && SetUp(memory, roots) && pds == linked[0 := pd]
        invariant forall r {:trigger r in pts} :: r in pts ==> r < ptIdx || r >= 512
        invariant 0 <= done && 0 <= remaining && done + remaining == pageCount
        invariant currentPhys == phys + PAGE_SIZE * done
        invariant done == if 512 * ptIdx <= pageCount then 512 * ptIdx else pageCount
        invariant pages == Written(old(pages), 0, 0, phys, done)
      {
        var n := if remaining <= 512 then remaining else 512;
        if n > 0 {
          FilledIsWritten(old(pages), 0, 0, phys, done, n);
        } else {
          FilledZero(pages, ptIdx, currentPhys);
        }
        NewFilledTable(pd, ptIdx, n, currentPhys, linked);
        currentPhys := currentPhys + PAGE_SIZE * n;
        remaining := remaining - n;
        done := done + n;
      }
      LinkKernelDirectory(pd, linked);
      va := KERNEL_VA_BASE;
    }

    /** The directory that entry `g` of the kernel's root leads to, made on first use. */
    method DirectoryAt(g: nat) returns (pd: nat)
      requires Valid() && g < 512
      modifies `memory, `owner, `pds
      ensures Valid() && g in pds && pds[g] == pd
    {
      hide Core, SetUp, Frame, Row, EmptyTable;
      RootEntry(memory, owner, pds, roots, pds, pts, pages, g);
      if memory[roots.kernel][g] == 0 {
        ghost var mem0, owner0, pds0 := memory, owner, pds;
        TablesBounded(memory, owner, pds, roots, pds, pts, pages);
        pd := NewTable(Directory(g));
        pds := pds[g := pd];
        DirectoryAdded(mem0, owner0, pds0, roots, pds0, pts, pages, g, pd);
        DirectoryLinkKeeps(mem0, owner0, pds0, roots, pds0, pts, pages, g, pd);
        DirectoryLinked(memory, owner, pds0, roots, pds, pts, pages, g);
        WriteEntry(roots.kernel, g, Link(pd));
      }
      RootEntry(memory, owner, pds, roots, pds, pts, pages, g);
      pd := Pointer(memory[roots.kernel][g]);
    }

    /** Enters `n` consecutive pages in the page table `pt`, from entry `ptIdx` on. */
    method FillTable(pt: nat, ptIdx: nat, n: nat, currentPhys: nat, ghost r: nat)
      requires Valid() && r in pts && pts[r] == pt && ptIdx + n <= 512
      requires currentPhys % PAGE_SIZE == 0 && currentPhys + PAGE_SIZE * n <= PHYS_LIMIT
      modifies `memory, `pages
      ensures Valid() && pages == Filled(old(pages), 512 * r + ptIdx, currentPhys, n)
    {
      hide Tree, SetUp;
      for i := 0 to n
        invariant Valid() && pages == Filled(old(pages), 512 * r + ptIdx, currentPhys, i)
      {
        WritePage(pt, ptIdx + i, currentPhys + PAGE_SIZE * i, pds, r);
      }
    }

    /**
     Maps an image: the directory is looked up once, from the first address, and every page is
     entered in it by the lower 18 bits of its number.
     */
    method MapModule(phys: nat, va: u64, size: u64)
      requires Valid()
      requires phys % PAGE_SIZE == 0 && phys + PAGE_SIZE * PageCount(size) <= PHYS_LIMIT
      requires va + PAGE_SIZE * PageCount(size) <= 0x1_0000_0000_0000_0000
      modifies `memory, `owner, `pds, `pts, `pages
      ensures Valid()
      ensures pages == Written(old(pages), va / SIZE_1GB % 512, va / PAGE_SIZE, phys, PageCount(size))
    {
      hide Valid, Written, Filled, Slot;
      var pageCount := PageCount(size);
      var g := va / SIZE_1GB % 512;
      var pd := DirectoryAt(g);
      var remaining, currentPhys, currentVa := pageCount, phys, va;
      ghost var first, done := va / PAGE_SIZE, 0;
      WrittenNone(pages, g, first, phys);
      while remaining > 0
        invariant Valid() && g in pds && pds[g] == pd
        invariant 0 <= remaining && 0 <= done && remaining + done == pageCount
        invariant currentPhys == phys + PAGE_SIZE * done && currentVa == va + PAGE_SIZE * done
        invariant pages == Written(old(pages), g, first, phys, done)
      {
        var pdIdx, ptIdx := currentVa / 0x20_0000 % 512, currentVa / 0x1000 % 512;
        IndicesAt(va, done);
        var pt := PageTableAt(pd, pdIdx, g);
        var n := if 512 - ptIdx <= remaining then 512 - ptIdx else remaining;
        FilledIsWritten(old(pages), g, first, phys, done, n);
        FillTable(pt, ptIdx, n, currentPhys, 512 * g + pdIdx);
        currentPhys := currentPhys + PAGE_SIZE * n;
        currentVa := currentVa + PAGE_SIZE * n;
        remaining := remaining - n;
        done := done + n;
      }
    }
  }

  ghost predicate WalksTo(mem: Memory, cr3: nat, m: Image, i: nat)
    requires InSpace(m) && i < m.size
  {
    Walk(mem, cr3, m.va + i) == Some(m.phys + i)
  }

  /** Every byte of the image is where the walk from `cr3` finds it. */
  ghost predicate Reachable(mem: Memory, cr3: nat, m: Image)
    requires InSpace(m)
  {
    forall i: nat {:trigger WalksTo(mem, cr3, m, i)} :: i < m.size ==> WalksTo(mem, cr3, m, i)
  }

  lemma ReachableIff(mem: Memory, cr3: nat, pages: map<nat, nat>, m: Image)
    requires InSpace(m)
    requires forall va: u64 {:trigger Walk(mem, cr3, va)} :: Walk(mem, cr3, va) == Translate(pages, va)
    ensures Reachable(mem, cr3, m) <==> Faithful(pages, m)
  {
    hide Walk, Translate;
    forall i: nat {:trigger Reaches(pages, m, i)} {:trigger WalksTo(mem, cr3, m, i)} | i < m.size
      ensures WalksTo(mem, cr3, m, i) <==> Reaches(pages, m, i)
    {
    }
  }

  /** Picks the address of every module: the next 64 KiB boundary each time. */
  method PlaceModules(kernel: Loaded, modules: seq<Loaded>) returns (images: seq<Image>)
    ensures images == Images(kernel, modules)
  {
    images := [Image(kernel.phys, KERNEL_VA_BASE, kernel.size)];
    var next := NextVa(KERNEL_VA_BASE + kernel.size);
    ghost var end: nat := KERNEL_VA_BASE + kernel.size;
    for i := 0 to |modules|
      invariant next == NextVa(end)
      invariant images + Placement(end, modules[i..]) == Images(kernel, modules)
    {
      assert modules[i..][1..] == modules[i + 1..];
      images := images + [Image(modules[i].phys, next, modules[i].size)];
      end := next + modules[i].size;
      next := NextVa(next + modules[i].size);
    }
  }

  /** New tables with the kernel and then every module mapped. */
  method MapImages(images: seq<Image>) returns (tables: PageTables)
    requires Laid(images) && |images| > 0 && images[0].va == KERNEL_VA_BASE && images[0].size <= SIZE_1GB
    ensures fresh(tables) && tables.Valid() && tables.pages == MapAll(images)
  {
    hide Mapped, Written, MapAll, Tree, SetUp, BlankRoots;
    LaidPrefixes(images);
    tables := new PageTables();
    tables.Setup();
    var va := tables.MapKernel(images[0].phys, images[0].size);
    KernelMapped(images);
    for j := 1 to |images|
      invariant tables.Valid() && fresh(tables) && tables.pages == MapAll(images[..j])
    {
      MapAllNext(images, j);
      var m := images[j];
      tables.MapModule(m.phys, m.va, m.size);
      MappedByAddress(MapAll(images[..j]), m);
    }
    assert images[..|images|] == images;
  }

  /** For tables that translate as they should, reaching an image by the walk is having it mapped faithfully. */
  lemma AllReachableIff(mem: Memory, cr3: nat, images: seq<Image>)
    requires Laid(images)
    requires forall va: u64 {:trigger Walk(mem, cr3, va)} :: Walk(mem, cr3, va) == Translate(MapAll(images), va)
    ensures (forall j {:trigger images[j]} :: 0 <= j < |images| ==> Reachable(mem, cr3, images[j]))
            <==> (forall j {:trigger images[j]} :: 0 <= j < |images| ==> !Crosses(images[j]))
  {
    hide Walk, Translate, MapAll, Reachable, Faithful;
    AllFaithfulIff(images);
    forall j {:trigger images[j]} | 0 <= j < |images|
      ensures Reachable(mem, cr3, images[j]) <==> Faithful(MapAll(images), images[j])
    {
      ReachableIff(mem, cr3, MapAll(images), images[j]);
    }
  }

  /**
   A whole boot. Every address of the machine translates as meant, and every image can be reached
   at its own addresses exactly when none crosses a gigabyte boundary.
   */
  method Boot(kernel: Loaded, modules: seq<Loaded>) returns (tables: PageTables, images: seq<Image>)
    requires Fits(kernel, modules) && kernel.size <= SIZE_1GB
    ensures fresh(tables) && images == Images(kernel, modules) && Laid(images)
    ensures tables.pages == MapAll(images)
    ensures forall va: u64 {:trigger Walk(tables.memory, tables.roots.pml4, va)} ::
              Walk(tables.memory, tables.roots.pml4, va) == Translate(tables.pages, va)
    ensures forall va: u64 {:trigger Writable(tables.memory, tables.roots.pml4, va)} ::
              Translate(tables.pages, va).Some? ==> Writable(tables.memory, tables.roots.pml4, va)
    ensures (forall j {:trigger images[j]} ::
      0 <= j < |images| ==> Reachable(tables.memory, tables.roots.pml4, images[j]))
            <==> (forall j {:trigger images[j]} :: 0 <= j < |images| ==> !Crosses(images[j]))
  {
    hide Walk, Translate, Writable, MapAll, Reachable, Tree, SetUp;
    images := PlaceModules(kernel, modules);
    ImagesLaid(kernel, modules);
    tables := MapImages(images);
    forall va: u64 {:trigger Walk(tables.memory, tables.roots.pml4, va)}
      ensures Walk(tables.memory, tables.roots.pml4, va) == Translate(tables.pages, va)
    {
      WalkTranslates(tables.memory, tables.owner, tables.roots, tables.pds, tables.pts, tables.pages, va);
    }
    forall va: u64 {:trigger Writable(tables.memory, tables.roots.pml4, va)} | Translate(tables.pages, va).Some?
      ensures Writable(tables.memory, tables.roots.pml4, va)
    {
      WalkTranslates(tables.memory, tables.owner, tables.roots, tables.pds, tables.pts, tables.pages, va);
      WalkWritable(tables.memory, tables.owner, tables.roots, tables.pds, tables.pts, tables.pages, va);
    }
    AllReachableIff(tables.memory, tables.roots.pml4, images);
  }
}
