/** Four-level x86-64 page tables in memory, the walk the processor makes, and what a well-formed set translates. */
module PageMaps {
  import opened Bytes
  import opened Wrappers

  const HHDM_OFFSET: u64 := 0xFFFF_8000_0000_0000
  const KERNEL_VA_BASE: u64 := 0xFFFF_F800_0000_0000
  const PAGE_SIZE: nat := 0x1000
  const SIZE_1GB: nat := 0x4000_0000
  const SIZE_512GB: nat := 0x80_0000_0000
  const PHYS_LIMIT: nat := 0x10_0000_0000_0000

  /** Pages under one page directory, and under one page-directory-pointer table. */
  const GIG_PAGES: nat := 0x4_0000
  const KERNEL_PAGES: nat := 0x800_0000
  const KERNEL_REGIONS: nat := 0x4_0000

  type Memory = map<nat, seq<u64>>

  // ------------------------------------------------------------------ entries

  /** The address of a page table or page: aligned, and within the 52 bits an entry can hold. */
  predicate Frame(a: nat) {
    a % PAGE_SIZE == 0 && a < PHYS_LIMIT
  }

  /** `address | PRESENT | WRITABLE`. */
  function Link(a: nat): u64
    requires Frame(a)
  {
    a + 3
  }

  /** `address | PRESENT | WRITABLE | PAGE_SIZE` for the i-th gigabyte. */
  function Huge(i: nat): u64
    requires i < 512
  {
    i * SIZE_1GB + 0x83
  }

  predicate Present(e: u64) {
    e % 2 == 1
  }

  predicate PageSize(e: u64) {
    e / 0x80 % 2 == 1
  }

  /** `entry & !0xFFF`, as the loader follows an entry. */
  function Pointer(e: u64): nat {
    e / PAGE_SIZE * PAGE_SIZE
  }

  /** The address in an entry as the processor takes it: 52 bits. */
  function Base(e: u64): nat {
    Pointer(e) % PHYS_LIMIT
  }

  lemma LinkParts(a: nat)
    requires Frame(a)
    ensures Present(Link(a)) && !PageSize(Link(a)) && Base(Link(a)) == Pointer(Link(a)) == a
  {
    LinkBits(a / PAGE_SIZE);
  }

  lemma LinkBits(k: nat)
    ensures var e := PAGE_SIZE * k + 3;
            e % 2 == 1 && e / 0x80 % 2 == 0 && e / PAGE_SIZE == k
  {
    var e := PAGE_SIZE * k + 3;
    assert e == 2 * (2048 * k + 1) + 1;
    assert e == 0x80 * (32 * k) + 3;
    assert e / 0x80 == 32 * k == 2 * (16 * k);
  }

  lemma HugeParts(i: nat)
    requires i < 512
    ensures Present(Huge(i)) && PageSize(Huge(i)) && Huge(i) / SIZE_1GB * SIZE_1GB % PHYS_LIMIT == i * SIZE_1GB
  {
  }

  /** Memory after writing entry `i` of the table at `a`. */
  function Patched(mem: Memory, a: nat, i: nat, e: u64): (m: Memory)
    requires a in mem && i < |mem[a]|
    ensures m.Keys == mem.Keys
  {
    var row: seq<u64> := mem[a][i := e];
    mem[a := row]
  }

  // ------------------------------------------------------------------ the processor's walk

  predicate Canonical(va: u64) {
    va < 0x8000_0000_0000 || va >= HHDM_OFFSET
  }

  /** Entry `i` of the table at `a`; memory that holds no table translates nothing. */
  function Entry(mem: Memory, a: nat, i: nat): u64 {
    if a in mem && i < |mem[a]| then mem[a][i] else 0
  }

  /** The translation of `va` by the tables that CR3 points to, as section 4.5 of the Intel SDM, volume 3A, has it. */
  function Walk(mem: Memory, cr3: nat, va: u64): Option<nat> {
    if !Canonical(va) then None
    else
      var e := Entry(mem, cr3, va / 0x80_0000_0000 % 512);
      if !Present(e) || PageSize(e) then None else WalkPdpt(mem, Base(e), va)
  }

  function WalkPdpt(mem: Memory, pdpt: nat, va: u64): Option<nat> {
    var e := Entry(mem, pdpt, va / 0x4000_0000 % 512);
    if !Present(e) then None
    else if PageSize(e) then Some(e / SIZE_1GB * SIZE_1GB % PHYS_LIMIT + va % SIZE_1GB)
    else WalkPd(mem, Base(e), va)
  }

  function WalkPd(mem: Memory, pd: nat, va: u64): Option<nat> {
    var e := Entry(mem, pd, va / 0x20_0000 % 512);
    if !Present(e) then None
    else if PageSize(e) then Some(e / 0x20_0000 * 0x20_0000 % PHYS_LIMIT + va % 0x20_0000)
    else WalkPt(mem, Base(e), va)
  }

  function WalkPt(mem: Memory, pt: nat, va: u64): Option<nat> {
    var e := Entry(mem, pt, va / 0x1000 % 512);
    if !Present(e) then None else Some(Base(e) + va % PAGE_SIZE)
  }

  /** Bit 1 of an entry: writing is allowed. */
  predicate MayWrite(e: u64) {
    e / 2 % 2 == 1
  }

  /** Every entry the walk passes for `va` allows writing, as section 4.6 of the Intel SDM, volume 3A, asks for it. */
  predicate Writable(mem: Memory, cr3: nat, va: u64) {
    var e := Entry(mem, cr3, va / 0x80_0000_0000 % 512);
    MayWrite(e) && WritablePdpt(mem, Base(e), va)
  }

  predicate WritablePdpt(mem: Memory, pdpt: nat, va: u64) {
    var e := Entry(mem, pdpt, va / 0x4000_0000 % 512);
    MayWrite(e) && (PageSize(e) || WritablePd(mem, Base(e), va))
  }

  predicate WritablePd(mem: Memory, pd: nat, va: u64) {
    var e := Entry(mem, pd, va / 0x20_0000 % 512);
    MayWrite(e) && (PageSize(e) || WritablePt(mem, Base(e), va))
  }

  predicate WritablePt(mem: Memory, pt: nat, va: u64) {
    MayWrite(Entry(mem, pt, va / 0x1000 % 512))
  }

  // ------------------------------------------------------------------ the address space meant

  /**
   What the loader means an address to translate to: the lower 512 GiB and the direct map to
   themselves, and the kernel's half terabyte through `pages`, from page number to frame.
   */
  function Translate(pages: map<nat, nat>, va: u64): Option<nat> {
    if va < SIZE_512GB then Some(va)
    else if HHDM_OFFSET <= va < HHDM_OFFSET + SIZE_512GB then Some(va - HHDM_OFFSET)
    else if KERNEL_VA_BASE <= va < KERNEL_VA_BASE + SIZE_512GB then
      var page := (va - KERNEL_VA_BASE) / PAGE_SIZE;
      if page in pages then Some(pages[page] + va % PAGE_SIZE) else None
    else None
  }

  // ------------------------------------------------------------------ well-formed tables

  datatype Roots = Roots(pml4: nat, low: nat, hhdm: nat, kernel: nat, hal: nat)

  /** What a table is for; no two tables are for the same thing. */
  datatype Role = Pml4 | Low | Hhdm | Kernel | Hal | Directory(g: nat) | Leaf(r: nat)

  function EmptyTable(): (t: seq<u64>)
    ensures |t| == 512 && forall k :: 0 <= k < 512 ==> t[k] == 0
  {
    seq(512, _ => 0)
  }

  ghost predicate At(row: seq<u64>, base: nat, k: nat, to: map<nat, nat>) {
    k < |row| && row[k] as int == if base + k in to then to[base + k] + 3 else 0
  }

  /** Entry `k` of the row leads where `to` sends `base + k`, or nowhere. */
  ghost predicate Row(row: seq<u64>, base: nat, to: map<nat, nat>) {
    && |row| == 512
    && forall k: nat {:trigger At(row, base, k, to)} :: k < 512 ==> At(row, base, k, to)
  }

  ghost predicate HugeRow(row: seq<u64>) {
    |row| == 512 && forall i: nat {:trigger row[i]} :: i < 512 ==> row[i] == Huge(i)
  }

  ghost predicate TopRow(row: seq<u64>, rt: Roots) {
    && |row| == 512
    && Frame(rt.low) && Frame(rt.hhdm) && Frame(rt.kernel) && Frame(rt.hal)
    && row[0] == Link(rt.low) && row[256] == Link(rt.hhdm) && row[496] == Link(rt.kernel) && row[511] == Link(rt.hal)
    && forall i: nat {:trigger row[i]} :: i < 512 && i != 0 && i != 256 && i != 496 && i != 511 ==> row[i] == 0
  }

  ghost predicate Owned(mem: Memory, owner: map<nat, Role>, a: nat, role: Role) {
    a in mem && a in owner && owner[a] == role && Frame(a)
  }

  ghost predicate Rooted(mem: Memory, owner: map<nat, Role>, rt: Roots) {
    && Owned(mem, owner, rt.pml4, Pml4) && Owned(mem, owner, rt.low, Low) && Owned(mem, owner, rt.hhdm, Hhdm)
    && Owned(mem, owner, rt.kernel, Kernel) && Owned(mem, owner, rt.hal, Hal)
  }

  /** The rows `setup` writes. */
  ghost predicate SetUp(mem: Memory, rt: Roots) {
    && rt.pml4 in mem && TopRow(mem[rt.pml4], rt)
    && rt.low in mem && HugeRow(mem[rt.low]) && rt.hhdm in mem && HugeRow(mem[rt.hhdm])
    && rt.hal in mem && mem[rt.hal] == EmptyTable()
  }

  /** Directory `g` of `pds` leads to the page tables `pts` has for its gigabyte. */
  ghost predicate DirectoryOk(mem: Memory, owner: map<nat, Role>, g: nat, pds: map<nat, nat>, pts: map<nat, nat>) {
    g < 512 && g in pds && Owned(mem, owner, pds[g], Directory(g)) && Row(mem[pds[g]], 512 * g, pts)
  }

  /** Page table `r` of `pts` leads to the frames `pages` has for its two megabytes. */
  ghost predicate LeafOk(mem: Memory, owner: map<nat, Role>, r: nat, pds: map<nat, nat>, pts: map<nat, nat>,
                         pages: map<nat, nat>) {
    r < KERNEL_REGIONS && r in pts && r / 512 in pds && Owned(mem, owner, pts[r], Leaf(r))
      && Row(mem[pts[r]], 512 * r, pages)
  }

  ghost predicate PageOk(p: nat, pts: map<nat, nat>, pages: map<nat, nat>) {
    p < KERNEL_PAGES && p / 512 in pts && p in pages && Frame(pages[p])
  }

  ghost predicate Counted(mem: Memory, owner: map<nat, Role>, pds: map<nat, nat>, pts: map<nat, nat>) {
    mem.Keys == owner.Keys && |mem| == 5 + |pds| + |pts|
  }

  /**
   The tables below the kernel's root: `pds` and `pts` say which directories and page tables there
   are, `pages` which frames they map. `linked` are the directories the root already leads to.
   */
  ghost predicate Tree(mem: Memory, owner: map<nat, Role>, linked: map<nat, nat>, rt: Roots,
                       pds: map<nat, nat>, pts: map<nat, nat>, pages: map<nat, nat>) {
    Counted(mem, owner, pds, pts) && Core(mem, owner, linked, rt, pds, pts, pages)
  }

  ghost predicate Core(mem: Memory, owner: map<nat, Role>, linked: map<nat, nat>, rt: Roots,
                       pds: map<nat, nat>, pts: map<nat, nat>, pages: map<nat, nat>) {
    && Rooted(mem, owner, rt)
    && Row(mem[rt.kernel], 0, linked)
    && (forall g {:trigger DirectoryOk(mem, owner, g, pds, pts)} :: g in pds ==> DirectoryOk(mem, owner, g, pds, pts))
    && (forall r {:trigger LeafOk(mem, owner, r, pds, pts, pages)} ::
      r in pts ==> LeafOk(mem, owner, r, pds, pts, pages))
    && (forall p {:trigger PageOk(p, pts, pages)} :: p in pages ==> PageOk(p, pts, pages))
  }

  // ------------------------------------------------------------------ the first tables

  predicate Distinct(rt: Roots) {
    && rt.pml4 != rt.low && rt.pml4 != rt.hhdm && rt.pml4 != rt.kernel && rt.pml4 != rt.hal
    && rt.low != rt.hhdm && rt.low != rt.kernel && rt.low != rt.hal
    && rt.hhdm != rt.kernel && rt.hhdm != rt.hal && rt.kernel != rt.hal
  }

  /** An untouched table for `role`. */
  ghost predicate Untouched(mem: Memory, owner: map<nat, Role>, a: nat, role: Role) {
    Owned(mem, owner, a, role) && mem[a] == EmptyTable()
  }

  lemma RootsUntouched(mem: Memory, owner: map<nat, Role>, rt: Roots)
    requires Untouched(mem, owner, rt.pml4, Pml4) && Untouched(mem, owner, rt.low, Low)
      && Untouched(mem, owner, rt.hhdm, Hhdm)
    requires Untouched(mem, owner, rt.kernel, Kernel) && Untouched(mem, owner, rt.hal, Hal)
    ensures Distinct(rt) && Rooted(mem, owner, rt)
    ensures mem[rt.pml4] == mem[rt.low] == mem[rt.hhdm] == mem[rt.kernel] == mem[rt.hal] == EmptyTable()
  {
  }

  function HugeTable(): (t: seq<u64>)
    ensures HugeRow(t)
  {
    seq(512, i requires 0 <= i < 512 => Huge(i))
  }

  /** Five empty roots and nothing else. */
  ghost predicate BlankRoots(mem: Memory, owner: map<nat, Role>, rt: Roots) {
    && Distinct(rt) && Rooted(mem, owner, rt) && |mem| == 5 && mem.Keys == owner.Keys
    && mem[rt.pml4] == mem[rt.low] == mem[rt.hhdm] == mem[rt.kernel] == mem[rt.hal] == EmptyTable()
  }

  /** What the writes of `setup` make of empty roots. */
  lemma FirstTree(mem: Memory, owner: map<nat, Role>, rt: Roots)
    requires BlankRoots(mem, owner, rt)
    ensures Frame(rt.low) && Frame(rt.hhdm) && Frame(rt.kernel) && Frame(rt.hal)
    ensures rt.pml4 in mem && |mem[rt.pml4]| == 512
    ensures var m0 := Patched(mem, rt.pml4, 0, Link(rt.low));
            && rt.low in m0 && |m0[rt.low]| == 512
            && var m1 := m0[rt.low := HugeTable()];
            && rt.pml4 in m1 && |m1[rt.pml4]| == 512
            && var m1' := Patched(m1, rt.pml4, 256, Link(rt.hhdm));
            && rt.hhdm in m1' && |m1'[rt.hhdm]| == 512
            && var m2 := m1'[rt.hhdm := HugeTable()];
            && rt.pml4 in m2 && |m2[rt.pml4]| == 512
            && var m3 := Patched(m2, rt.pml4, 496, Link(rt.kernel));
            && rt.pml4 in m3 && |m3[rt.pml4]| == 512
            && var m4 := Patched(m3, rt.pml4, 511, Link(rt.hal));
            Tree(m4, owner, map[], rt, map[], map[], map[]) && SetUp(m4, rt)
  {
    assert Frame(rt.low) && Frame(rt.hhdm) && Frame(rt.kernel) && Frame(rt.hal);
    hide Frame, HugeRow, EmptyTable, HugeTable, Link;
    var m1 := Patched(mem, rt.pml4, 0, Link(rt.low))[rt.low := HugeTable()];
    var m2 := Patched(m1, rt.pml4, 256, Link(rt.hhdm))[rt.hhdm := HugeTable()];
    var m4 := Patched(Patched(m2, rt.pml4, 496, Link(rt.kernel)), rt.pml4, 511, Link(rt.hal));
    assert m4.Keys == mem.Keys;
    assert |m4| == |m4.Keys| == |mem.Keys|;
    EmptyRow(0, map[]);
  }

  // ------------------------------------------------------------------ steps

  ghost predicate Agree(to: map<nat, nat>, to': map<nat, nat>, key: nat) {
    (key in to <==> key in to') && (key in to ==> to[key] == to'[key])
  }

  lemma RowSame(row: seq<u64>, base: nat, to: map<nat, nat>, to': map<nat, nat>)
    requires Row(row, base, to)
    requires forall key: nat {:trigger Agree(to, to', key)} :: base <= key < base + 512 ==> Agree(to, to', key)
    ensures Row(row, base, to')
  {
    forall k: nat {:trigger At(row, base, k, to')} | k < 512 ensures At(row, base, k, to') {
      assert At(row, base, k, to);
      assert Agree(to, to', base + k);
    }
  }

  lemma RowWith(row: seq<u64>, base: nat, to: map<nat, nat>, k: nat, a: nat)
    requires Row(row, base, to) && k < 512 && Frame(a)
    ensures Row(row[k := Link(a)], base, to[base + k := a])
  {
    var row', to' := row[k := Link(a)], to[base + k := a];
    forall j: nat {:trigger At(row', base, j, to')} | j < 512 ensures At(row', base, j, to') {
      assert At(row, base, j, to);
    }
  }

  lemma EmptyRow(base: nat, to: map<nat, nat>)
    requires forall key: nat {:trigger key in to} :: base <= key < base + 512 ==> key !in to
    ensures Row(EmptyTable(), base, to)
  {
    forall k: nat {:trigger At(EmptyTable(), base, k, to)} | k < 512 ensures At(EmptyTable(), base, k, to) {
    }
  }

  lemma Grown<V>(m: map<nat, V>, k: nat, v: V)
    requires k !in m
    ensures m[k := v].Keys == m.Keys + {k} && |m[k := v]| == |m| + 1
  {
    assert m[k := v].Keys == m.Keys + {k};
    assert |m[k := v]| == |m[k := v].Keys| && |m| == |m.Keys|;
  }

  lemma NoPages(r: nat, pts: map<nat, nat>, pages: map<nat, nat>)
    requires r !in pts
    requires forall p {:trigger PageOk(p, pts, pages)} :: p in pages ==> PageOk(p, pts, pages)
    ensures Row(EmptyTable(), 512 * r, pages)
  {
    forall p | p in pages ensures p / 512 != r {
      assert PageOk(p, pts, pages);
    }
    EmptyRow(512 * r, pages);
  }

  lemma NoLeaves(mem: Memory, owner: map<nat, Role>, g: nat, pds: map<nat, nat>, pts: map<nat, nat>,
                 pages: map<nat, nat>)
    requires g !in pds
    requires forall r {:trigger LeafOk(mem, owner, r, pds, pts, pages)} ::
      r in pts ==> LeafOk(mem, owner, r, pds, pts, pages)
    ensures Row(EmptyTable(), 512 * g, pts)
  {
    forall r | r in pts ensures r / 512 != g {
      assert LeafOk(mem, owner, r, pds, pts, pages);
    }
    EmptyRow(512 * g, pts);
  }

  /** Sets the entry of page `512 * r + k` in the page table for `r`. */
  lemma PageSet(mem: Memory, owner: map<nat, Role>, linked: map<nat, nat>, rt: Roots,
                pds: map<nat, nat>, pts: map<nat, nat>, pages: map<nat, nat>, r: nat, k: nat, frame: nat)
    requires Tree(mem, owner, linked, rt, pds, pts, pages)
    requires r in pts && k < 512 && Frame(frame)
    ensures r < KERNEL_REGIONS && pts[r] in mem && |mem[pts[r]]| == 512
    ensures Tree(Patched(mem, pts[r], k, Link(frame)), owner, linked, rt, pds, pts, pages[512 * r + k := frame])
  {
    assert LeafOk(mem, owner, r, pds, pts, pages);
    var a := pts[r];
    var mem', pages' := Patched(mem, a, k, Link(frame)), pages[512 * r + k := frame];
    assert mem'.Keys == mem.Keys;
    assert |mem'| == |mem'.Keys| == |mem.Keys|;
    assert Row(mem'[a], 512 * r, pages') by {
      RowWith(mem[a], 512 * r, pages, k, frame);
    }
    forall g {:trigger DirectoryOk(mem', owner, g, pds, pts)} | g in pds ensures DirectoryOk(mem', owner, g, pds, pts) {
      assert DirectoryOk(mem, owner, g, pds, pts);
    }
    forall q {:trigger LeafOk(mem', owner, q, pds, pts, pages')} | q in pts
      ensures LeafOk(mem', owner, q, pds, pts, pages')
    {
      assert LeafOk(mem, owner, q, pds, pts, pages);
      if q != r {
        RowSame(mem[pts[q]], 512 * q, pages, pages');
      }
    }
    forall p {:trigger PageOk(p, pts, pages')} | p in pages' ensures PageOk(p, pts, pages') {
      if p != 512 * r + k {
        assert PageOk(p, pts, pages);
      }
    }
  }

  /** A table nothing leads to yet disturbs nothing. */
  lemma Placed(mem: Memory, owner: map<nat, Role>, linked: map<nat, nat>, rt: Roots,
               pds: map<nat, nat>, pts: map<nat, nat>, pages: map<nat, nat>, a: nat, role: Role, row: seq<u64>)
    requires Core(mem, owner, linked, rt, pds, pts, pages)
    requires a !in mem
    ensures Core(mem[a := row], owner[a := role], linked, rt, pds, pts, pages)
  {
    hide Row, Frame;
    var mem', owner' := mem[a := row], owner[a := role];
    forall h {:trigger DirectoryOk(mem', owner', h, pds, pts)} | h in pds
      ensures DirectoryOk(mem', owner', h, pds, pts)
    {
      assert DirectoryOk(mem, owner, h, pds, pts);
    }
    forall q {:trigger LeafOk(mem', owner', q, pds, pts, pages)} | q in pts
      ensures LeafOk(mem', owner', q, pds, pts, pages)
    {
      assert LeafOk(mem, owner, q, pds, pts, pages);
    }
  }

  /** `pages'` adds frames for region `r` to `pages` and is otherwise the same. */
  ghost predicate AddsTo(pages: map<nat, nat>, pages': map<nat, nat>, r: nat) {
    && (forall p {:trigger p in pages'} {:trigger p in pages} :: p in pages ==> p in pages' && pages'[p] == pages[p])
    && (forall p {:trigger p in pages'} :: p in pages' ==> p in pages || (p / 512 == r && Frame(pages'[p])))
  }

  /** Enters the page table at `a`, which maps what `pages'` adds for region `r`. */
  lemma LeafLinked(mem: Memory, owner: map<nat, Role>, linked: map<nat, nat>, rt: Roots,
                   pds: map<nat, nat>, pts: map<nat, nat>, pages: map<nat, nat>, r: nat, a: nat, pages': map<nat, nat>)
    requires Core(mem, owner, linked, rt, pds, pts, pages)
    requires r !in pts && r < KERNEL_REGIONS && r / 512 in pds
    requires Owned(mem, owner, a, Leaf(r)) && AddsTo(pages, pages', r) && Row(mem[a], 512 * r, pages')
    ensures pds[r / 512] in mem && |mem[pds[r / 512]]| == 512
    ensures Core(Patched(mem, pds[r / 512], r % 512, Link(a)), owner, linked, rt, pds, pts[r := a], pages')
  {
    hide Row, Frame;
    var g, d := r / 512, r % 512;
    assert r == 512 * g + d;
    assert DirectoryOk(mem, owner, g, pds, pts);
    var pd := pds[g];
    RowLength(mem[pd], 512 * g, pts);
    var mem', pts' := Patched(mem, pd, d, Link(a)), pts[r := a];
    RowWith(mem[pd], 512 * g, pts, d, a);
    forall h {:trigger DirectoryOk(mem', owner, h, pds, pts')} | h in pds
      ensures DirectoryOk(mem', owner, h, pds, pts')
    {
      assert DirectoryOk(mem, owner, h, pds, pts);
      if h != g {
        RowSame(mem[pds[h]], 512 * h, pts, pts');
      }
    }
    forall q {:trigger LeafOk(mem', owner, q, pds, pts', pages')} | q in pts'
      ensures LeafOk(mem', owner, q, pds, pts', pages')
    {
      if q != r {
        assert LeafOk(mem, owner, q, pds, pts, pages);
        RowSame(mem[pts[q]], 512 * q, pages, pages');
      }
    }
    forall p {:trigger PageOk(p, pts', pages')} | p in pages' ensures PageOk(p, pts', pages') {
      if p in pages {
        assert PageOk(p, pts, pages);
      }
    }
  }

  lemma LeafAdded(mem: Memory, owner: map<nat, Role>, linked: map<nat, nat>, rt: Roots,
                  pds: map<nat, nat>, pts: map<nat, nat>, pages: map<nat, nat>, r: nat, a: nat, row: seq<u64>,
                  pages': map<nat, nat>)
    requires Tree(mem, owner, linked, rt, pds, pts, pages)
    requires r !in pts && r < KERNEL_REGIONS && r / 512 in pds && Frame(a) && a !in mem
    requires AddsTo(pages, pages', r) && Row(row, 512 * r, pages')
    ensures pds[r / 512] in mem && |mem[pds[r / 512]]| == 512 && pds[r / 512] != a
    ensures Tree(Patched(mem[a := row], pds[r / 512], r % 512, Link(a)), owner[a := Leaf(r)], linked, rt, pds,
                 pts[r := a], pages')
  {
    hide Row, Frame, Core, AddsTo;
    var mem1, owner' := mem[a := row], owner[a := Leaf(r)];
    Placed(mem, owner, linked, rt, pds, pts, pages, a, Leaf(r), row);
    LeafLinked(mem1, owner', linked, rt, pds, pts, pages, r, a, pages');
    var mem' := Patched(mem1, pds[r / 512], r % 512, Link(a));
    OwnedDirectory(mem, owner, linked, rt, pds, pts, pages, r / 512);
    Grown(mem, a, row);
    Grown(pts, r, a);
    assert owner'.Keys == owner.Keys + {a};
    assert |mem'| == |mem'.Keys| == |mem1.Keys| == |mem1|;
  }

  /** Counts the empty directory at `a` in, for gigabyte `g`. */
  lemma DirectoryEntered(mem: Memory, owner: map<nat, Role>, linked: map<nat, nat>, rt: Roots,
                         pds: map<nat, nat>, pts: map<nat, nat>, pages: map<nat, nat>, g: nat, a: nat)
    requires Core(mem, owner, linked, rt, pds, pts, pages)
    requires g !in pds && g < 512
    requires Owned(mem, owner, a, Directory(g)) && mem[a] == EmptyTable()
    ensures Core(mem, owner, linked, rt, pds[g := a], pts, pages)
  {
    hide Row, Frame, EmptyTable;
    var pds' := pds[g := a];
    forall h {:trigger DirectoryOk(mem, owner, h, pds', pts)} | h in pds'
      ensures DirectoryOk(mem, owner, h, pds', pts)
    {
      if h == g {
        NoLeaves(mem, owner, g, pds, pts, pages);
      } else {
        assert DirectoryOk(mem, owner, h, pds, pts);
      }
    }
    forall q {:trigger LeafOk(mem, owner, q, pds', pts, pages)} | q in pts
      ensures LeafOk(mem, owner, q, pds', pts, pages)
    {
      assert LeafOk(mem, owner, q, pds, pts, pages);
    }
  }

  /** Sets an empty directory at `a` apart for gigabyte `g`, not yet linked from the root. */
  lemma DirectoryAdded(mem: Memory, owner: map<nat, Role>, linked: map<nat, nat>, rt: Roots,
                       pds: map<nat, nat>, pts: map<nat, nat>, pages: map<nat, nat>, g: nat, a: nat)
    requires Tree(mem, owner, linked, rt, pds, pts, pages)
    requires g !in pds && g < 512 && Frame(a) && a !in mem
    ensures Tree(mem[a := EmptyTable()], owner[a := Directory(g)], linked, rt, pds[g := a], pts, pages)
  {
    hide Row, Frame, EmptyTable, Core;
    var mem1, owner' := mem[a := EmptyTable()], owner[a := Directory(g)];
    Placed(mem, owner, linked, rt, pds, pts, pages, a, Directory(g), EmptyTable());
    DirectoryEntered(mem1, owner', linked, rt, pds, pts, pages, g, a);
    Grown(mem, a, EmptyTable());
    Grown(pds, g, a);
    assert owner'.Keys == owner.Keys + {a};
  }

  lemma OwnedDirectory(mem: Memory, owner: map<nat, Role>, linked: map<nat, nat>, rt: Roots,
                       pds: map<nat, nat>, pts: map<nat, nat>, pages: map<nat, nat>, g: nat)
    requires Core(mem, owner, linked, rt, pds, pts, pages) && g in pds
    ensures g < 512 && Owned(mem, owner, pds[g], Directory(g)) && |mem[pds[g]]| == 512
  {
    assert DirectoryOk(mem, owner, g, pds, pts);
  }

  lemma OwnedLeaf(mem: Memory, owner: map<nat, Role>, linked: map<nat, nat>, rt: Roots,
                  pds: map<nat, nat>, pts: map<nat, nat>, pages: map<nat, nat>, r: nat)
    requires Core(mem, owner, linked, rt, pds, pts, pages) && r in pts
    ensures r < KERNEL_REGIONS && Owned(mem, owner, pts[r], Leaf(r)) && |mem[pts[r]]| == 512
  {
    assert LeafOk(mem, owner, r, pds, pts, pages);
  }

  /** Links directory `g` from the kernel's root. */
  lemma DirectoryLinked(mem: Memory, owner: map<nat, Role>, linked: map<nat, nat>, rt: Roots,
                        pds: map<nat, nat>, pts: map<nat, nat>, pages: map<nat, nat>, g: nat)
    requires Tree(mem, owner, linked, rt, pds, pts, pages)
    requires g in pds
    ensures g < 512 && Frame(pds[g]) && rt.kernel in mem && |mem[rt.kernel]| == 512
    ensures Tree(Patched(mem, rt.kernel, g, Link(pds[g])), owner, linked[g := pds[g]], rt, pds, pts, pages)
  {
    assert DirectoryOk(mem, owner, g, pds, pts);
    var mem' := Patched(mem, rt.kernel, g, Link(pds[g]));
    assert mem'.Keys == mem.Keys;
    assert |mem'| == |mem'.Keys| == |mem.Keys|;
    RowWith(mem[rt.kernel], 0, linked, g, pds[g]);
    forall h {:trigger DirectoryOk(mem', owner, h, pds, pts)} | h in pds ensures DirectoryOk(mem', owner, h, pds, pts) {
      assert DirectoryOk(mem, owner, h, pds, pts);
    }
    forall q {:trigger LeafOk(mem', owner, q, pds, pts, pages)} | q in pts
      ensures LeafOk(mem', owner, q, pds, pts, pages)
    {
      assert LeafOk(mem, owner, q, pds, pts, pages);
    }
    forall p {:trigger PageOk(p, pts, pages)} | p in pages ensures PageOk(p, pts, pages) {
    }
  }

  /** Writes below the kernel's root leave the rows of `setup` alone. */
  lemma SetUpKept(mem: Memory, mem': Memory, owner: map<nat, Role>, rt: Roots)
    requires SetUp(mem, rt) && Rooted(mem, owner, rt) && mem.Keys <= mem'.Keys
    requires forall a {:trigger mem[a]} ::
      a in mem && (a !in owner || owner[a] == Pml4 || owner[a] == Low || owner[a] == Hhdm || owner[a] == Hal) ==>
        mem'[a] == mem[a]
    ensures SetUp(mem', rt)
  {
  }

  /** A region without a page table has no pages. */
  lemma NoPagesYet(mem: Memory, owner: map<nat, Role>, linked: map<nat, nat>, rt: Roots,
                   pds: map<nat, nat>, pts: map<nat, nat>, pages: map<nat, nat>, r: nat)
    requires Tree(mem, owner, linked, rt, pds, pts, pages) && r !in pts
    ensures Row(EmptyTable(), 512 * r, pages) && AddsTo(pages, pages, r)
    ensures forall p {:trigger p in pages} :: p in pages ==> p / 512 != r
  {
    NoPages(r, pts, pages);
    forall p | p in pages ensures p / 512 != r {
      assert PageOk(p, pts, pages);
    }
  }

  lemma LeafWriteKeeps(mem: Memory, owner: map<nat, Role>, linked: map<nat, nat>, rt: Roots,
                       pds: map<nat, nat>, pts: map<nat, nat>, pages: map<nat, nat>, r: nat, k: nat, frame: nat)
    requires Tree(mem, owner, linked, rt, pds, pts, pages) && SetUp(mem, rt)
    requires r in pts && k < 512 && Frame(frame)
    ensures pts[r] in mem && |mem[pts[r]]| == 512
    ensures SetUp(Patched(mem, pts[r], k, Link(frame)), rt)
  {
    hide SetUp;
    OwnedLeaf(mem, owner, linked, rt, pds, pts, pages, r);
    SetUpKept(mem, Patched(mem, pts[r], k, Link(frame)), owner, rt);
  }

  lemma LeafAddKeeps(mem: Memory, owner: map<nat, Role>, linked: map<nat, nat>, rt: Roots,
                     pds: map<nat, nat>, pts: map<nat, nat>, pages: map<nat, nat>, r: nat, a: nat, row: seq<u64>)
    requires Tree(mem, owner, linked, rt, pds, pts, pages) && SetUp(mem, rt)
    requires r / 512 in pds && Frame(a) && a !in mem
    ensures pds[r / 512] in mem && |mem[pds[r / 512]]| == 512 && pds[r / 512] != a
    ensures SetUp(Patched(mem[a := row], pds[r / 512], r % 512, Link(a)), rt)
  {
    hide SetUp;
    OwnedDirectory(mem, owner, linked, rt, pds, pts, pages, r / 512);
    SetUpKept(mem, Patched(mem[a := row], pds[r / 512], r % 512, Link(a)), owner, rt);
  }

  /** Both at once, in the first directory, for a table made empty and then filled in. */
  lemma NewLeaf(mem: Memory, owner: map<nat, Role>, linked: map<nat, nat>, rt: Roots, pds: map<nat, nat>,
                pts: map<nat, nat>, pages: map<nat, nat>, r: nat, a: nat, row: seq<u64>, pages': map<nat, nat>, pd: nat)
    requires Tree(mem, owner, linked, rt, pds, pts, pages) && SetUp(mem, rt)
    requires r !in pts && r < 512 && 0 in pds && pds[0] == pd && Frame(a) && a !in mem
    requires AddsTo(pages, pages', r) && Row(row, 512 * r, pages')
    ensures var mem1 := mem[a := EmptyTable()][a := row];
            && pd in mem1 && |mem1[pd]| == 512
            && Tree(Patched(mem1, pd, r, Link(a)), owner[a := Leaf(r)], linked, rt, pds, pts[r := a], pages')
            && SetUp(Patched(mem1, pd, r, Link(a)), rt)
  {
    hide Tree, SetUp, AddsTo, Row, Frame;
    assert r / 512 == 0 && r % 512 == r;
    assert mem[a := EmptyTable()][a := row] == mem[a := row];
    LeafAddKeeps(mem, owner, linked, rt, pds, pts, pages, r, a, row);
    LeafAdded(mem, owner, linked, rt, pds, pts, pages, r, a, row, pages');
  }

  /** Two writes into one table. */
  lemma PatchedTwice(mem: Memory, a: nat, row: seq<u64>, i: nat, e: u64)
    requires i < |row|
    ensures Patched(mem[a := row], a, i, e) == mem[a := row[i := e]]
  {
  }

  lemma DirectoryLinkKeeps(mem: Memory, owner: map<nat, Role>, linked: map<nat, nat>, rt: Roots,
                           pds: map<nat, nat>, pts: map<nat, nat>, pages: map<nat, nat>, g: nat, a: nat)
    requires Tree(mem, owner, linked, rt, pds, pts, pages) && SetUp(mem, rt)
    requires g < 512 && Frame(a) && a !in mem
    ensures rt.kernel in mem && |mem[rt.kernel]| == 512 && rt.kernel != a
    ensures SetUp(Patched(mem[a := EmptyTable()], rt.kernel, g, Link(a)), rt)
  {
    hide SetUp;
    SetUpKept(mem, Patched(mem[a := EmptyTable()], rt.kernel, g, Link(a)), owner, rt);
  }

  lemma DirectoryLinkedKeeps(mem: Memory, owner: map<nat, Role>, linked: map<nat, nat>, rt: Roots,
                             pds: map<nat, nat>, pts: map<nat, nat>, pages: map<nat, nat>, g: nat)
    requires Tree(mem, owner, linked, rt, pds, pts, pages) && SetUp(mem, rt) && g in pds
    ensures g < 512 && Frame(pds[g]) && rt.kernel in mem && |mem[rt.kernel]| == 512
    ensures SetUp(Patched(mem, rt.kernel, g, Link(pds[g])), rt)
  {
    hide SetUp;
    OwnedDirectory(mem, owner, linked, rt, pds, pts, pages, g);
    SetUpKept(mem, Patched(mem, rt.kernel, g, Link(pds[g])), owner, rt);
  }

  lemma SetUpWith(mem: Memory, owner: map<nat, Role>, rt: Roots, a: nat)
    requires SetUp(mem, rt) && Rooted(mem, owner, rt) && a !in mem
    ensures SetUp(mem[a := EmptyTable()], rt)
  {
    hide SetUp;
    SetUpKept(mem, mem[a := EmptyTable()], owner, rt);
  }

  /** A gigabyte without a directory has no page tables. */
  lemma NoLeavesYet(mem: Memory, owner: map<nat, Role>, linked: map<nat, nat>, rt: Roots,
                    pds: map<nat, nat>, pts: map<nat, nat>, pages: map<nat, nat>, g: nat)
    requires Tree(mem, owner, linked, rt, pds, pts, pages) && g !in pds
    ensures Rooted(mem, owner, rt)
    ensures forall r {:trigger r in pts} :: r in pts ==> r / 512 != g
  {
    forall r | r in pts ensures r / 512 != g {
      assert LeafOk(mem, owner, r, pds, pts, pages);
    }
  }

  /** An entry of a directory is zero exactly when there is no page table for it yet. */
  lemma DirectoryEntry(mem: Memory, owner: map<nat, Role>, linked: map<nat, nat>, rt: Roots,
                       pds: map<nat, nat>, pts: map<nat, nat>, pages: map<nat, nat>, g: nat, d: nat)
    requires Tree(mem, owner, linked, rt, pds, pts, pages) && g in pds && d < 512
    ensures pds[g] in mem && |mem[pds[g]]| == 512 && g < 512
    ensures mem[pds[g]][d] == 0 <==> 512 * g + d !in pts
    ensures 512 * g + d in pts ==> Pointer(mem[pds[g]][d]) == pts[512 * g + d]
  {
    assert DirectoryOk(mem, owner, g, pds, pts);
    assert At(mem[pds[g]], 512 * g, d, pts);
    if 512 * g + d in pts {
      OwnedLeaf(mem, owner, linked, rt, pds, pts, pages, 512 * g + d);
      LinkParts(pts[512 * g + d]);
    }
  }

  /** An entry of the kernel's root is zero exactly when its directory is not linked yet. */
  lemma RootEntry(mem: Memory, owner: map<nat, Role>, linked: map<nat, nat>, rt: Roots,
                  pds: map<nat, nat>, pts: map<nat, nat>, pages: map<nat, nat>, g: nat)
    requires Tree(mem, owner, linked, rt, pds, pts, pages) && g < 512
    requires g in linked ==> g in pds && pds[g] == linked[g]
    ensures rt.kernel in mem && |mem[rt.kernel]| == 512
    ensures mem[rt.kernel][g] == 0 <==> g !in linked
    ensures g in linked ==> Pointer(mem[rt.kernel][g]) == linked[g]
  {
    assert At(mem[rt.kernel], 0, g, linked);
    if g in linked {
      OwnedDirectory(mem, owner, linked, rt, pds, pts, pages, g);
      LinkParts(linked[g]);
    }
  }

  // ------------------------------------------------------------------ room

  lemma {:induction false} CardinalityBound(s: set<nat>, n: nat)
    requires forall x :: x in s ==> x < n
    ensures |s| <= n
    decreases n
  {
    if n > 0 {
      CardinalityBound(s - {n - 1}, n - 1);
    } else {
      assert s == {};
    }
  }

  /** However much is mapped, no more tables exist than the kernel's half terabyte has places for. */
  lemma {:induction false} TablesBounded(mem: Memory, owner: map<nat, Role>, linked: map<nat, nat>, rt: Roots,
                                         pds: map<nat, nat>, pts: map<nat, nat>, pages: map<nat, nat>)
    requires Tree(mem, owner, linked, rt, pds, pts, pages)
    ensures |mem| <= 5 + 512 + KERNEL_REGIONS
  {
    forall g | g in pds.Keys ensures g < 512 {
      assert DirectoryOk(mem, owner, g, pds, pts);
    }
    forall r | r in pts.Keys ensures r < KERNEL_REGIONS {
      assert LeafOk(mem, owner, r, pds, pts, pages);
    }
    CardinalityBound(pds.Keys, 512);
    CardinalityBound(pts.Keys, KERNEL_REGIONS);
    assert |pds| == |pds.Keys| && |pts| == |pts.Keys|;
  }

  /** A page is free among the first `n` whenever fewer than `n` are taken. */
  lemma {:induction false} FrameFree(taken: set<nat>, n: nat) returns (a: nat)
    requires |taken| < n <= PHYS_LIMIT / PAGE_SIZE
    ensures a !in taken && Frame(a) && a < n * PAGE_SIZE
    decreases n
  {
    a := (n - 1) * PAGE_SIZE;
    if a in taken {
      a := FrameFree(taken - {a}, n - 1);
    }
  }

  // ------------------------------------------------------------------ what the walk finds

  lemma Index4(o: nat)
    requires o < SIZE_512GB
    ensures (KERNEL_VA_BASE + o) / 0x80_0000_0000 % 512 == 496
  {
    assert (KERNEL_VA_BASE + o) / 0x80_0000_0000 == 0x1FF_FFF0;
  }

  lemma Index3(o: nat)
    requires o < SIZE_512GB
    ensures (KERNEL_VA_BASE + o) / 0x4000_0000 % 512 == o / 0x4000_0000
  {
    assert (KERNEL_VA_BASE + o) / 0x4000_0000 == 512 * 0x1FF_FFF0 + o / 0x4000_0000;
  }

  lemma Index2(o: nat)
    ensures (KERNEL_VA_BASE + o) / 0x20_0000 % 512 == o / 0x20_0000 % 512
  {
    assert (KERNEL_VA_BASE + o) / 0x20_0000 == 512 * 0x3_FFFF_E000 + o / 0x20_0000;
  }

  lemma Index1(o: nat)
    ensures (KERNEL_VA_BASE + o) / 0x1000 % 512 == o / 0x1000 % 512
    ensures (KERNEL_VA_BASE + o) % PAGE_SIZE == o % PAGE_SIZE
  {
    assert (KERNEL_VA_BASE + o) / 0x1000 == 512 * 0x7FF_FFC0_0000 + o / 0x1000;
  }

  /** The four indices of an address in the kernel's half terabyte. */
  lemma KernelIndices(o: nat)
    requires o < SIZE_512GB
    ensures var va: u64 := KERNEL_VA_BASE + o;
            && Canonical(va) && va / 0x80_0000_0000 % 512 == 496 && va % PAGE_SIZE == o % PAGE_SIZE
            && va / 0x4000_0000 % 512 == o / PAGE_SIZE / 512 / 512
            && va / 0x20_0000 % 512 == o / PAGE_SIZE / 512 % 512
            && va / 0x1000 % 512 == o / PAGE_SIZE % 512
  {
    Index4(o);
    Index3(o);
    Index2(o);
    Index1(o);
    assert o / 0x20_0000 == o / 0x1000 / 512 && o / 0x4000_0000 == o / 0x1000 / 512 / 512;
  }

  lemma RowEntry(row: seq<u64>, base: nat, to: map<nat, nat>, k: nat)
    requires Row(row, base, to) && k < 512
    requires base + k in to ==> Frame(to[base + k])
    ensures base + k in to ==> Present(row[k]) && !PageSize(row[k]) && Base(row[k]) == to[base + k]
    ensures base + k !in to ==> !Present(row[k])
  {
    hide Base;
    assert At(row, base, k, to);
    if base + k in to {
      LinkParts(to[base + k]);
    }
  }

  lemma WalkLeaf(mem: Memory, owner: map<nat, Role>, linked: map<nat, nat>, rt: Roots,
                 pds: map<nat, nat>, pts: map<nat, nat>, pages: map<nat, nat>, va: u64, p: nat)
    requires Core(mem, owner, linked, rt, pds, pts, pages)
    requires p / 512 in pts && va / 0x1000 % 512 == p % 512
    ensures WalkPt(mem, pts[p / 512], va) == if p in pages then Some(pages[p] + va % PAGE_SIZE) else None
  {
    hide Base, Present, PageSize, Link, Row;
    var r := p / 512;
    assert p == 512 * r + p % 512;
    OwnedLeaf(mem, owner, linked, rt, pds, pts, pages, r);
    assert LeafOk(mem, owner, r, pds, pts, pages);
    if p in pages {
      assert PageOk(p, pts, pages);
    }
    RowEntry(mem[pts[r]], 512 * r, pages, p % 512);
  }

  lemma WalkDirectory(mem: Memory, owner: map<nat, Role>, linked: map<nat, nat>, rt: Roots,
                      pds: map<nat, nat>, pts: map<nat, nat>, pages: map<nat, nat>, va: u64, p: nat)
    requires Core(mem, owner, linked, rt, pds, pts, pages)
    requires p / 512 / 512 in pds && va / 0x20_0000 % 512 == p / 512 % 512 && va / 0x1000 % 512 == p % 512
    ensures WalkPd(mem, pds[p / 512 / 512], va) == if p in pages then Some(pages[p] + va % PAGE_SIZE) else None
  {
    hide Base, Present, PageSize, Link, Row, WalkPt;
    var r := p / 512;
    var g := r / 512;
    assert r == 512 * g + r % 512;
    OwnedDirectory(mem, owner, linked, rt, pds, pts, pages, g);
    assert DirectoryOk(mem, owner, g, pds, pts);
    if p in pages {
      assert PageOk(p, pts, pages);
    }
    if r in pts {
      OwnedLeaf(mem, owner, linked, rt, pds, pts, pages, r);
      WalkLeaf(mem, owner, linked, rt, pds, pts, pages, va, p);
    }
    RowEntry(mem[pds[g]], 512 * g, pts, r % 512);
  }

  lemma WalkKernel(mem: Memory, owner: map<nat, Role>, rt: Roots,
                   pds: map<nat, nat>, pts: map<nat, nat>, pages: map<nat, nat>, o: nat)
    requires Tree(mem, owner, pds, rt, pds, pts, pages) && SetUp(mem, rt)
    requires o < SIZE_512GB
    ensures Walk(mem, rt.pml4, KERNEL_VA_BASE + o)
            == if o / PAGE_SIZE in pages then Some(pages[o / PAGE_SIZE] + o % PAGE_SIZE) else None
  {
    hide Base, Present, PageSize, Link, Row, WalkPd;
    var va: u64 := KERNEL_VA_BASE + o;
    KernelIndices(o);
    var p := o / PAGE_SIZE;
    var g := p / 512 / 512;
    LinkParts(rt.kernel);
    assert Walk(mem, rt.pml4, va) == WalkPdpt(mem, rt.kernel, va);
    if p in pages {
      assert PageOk(p, pts, pages);
      OwnedLeaf(mem, owner, pds, rt, pds, pts, pages, p / 512);
      assert LeafOk(mem, owner, p / 512, pds, pts, pages);
    }
    if g in pds {
      OwnedDirectory(mem, owner, pds, rt, pds, pts, pages, g);
      WalkDirectory(mem, owner, pds, rt, pds, pts, pages, va, p);
    }
    RowLength(mem[rt.kernel], 0, pds);
    RowEntry(mem[rt.kernel], 0, pds, g);
  }

  lemma RowLength(row: seq<u64>, base: nat, to: map<nat, nat>)
    requires Row(row, base, to)
    ensures |row| == 512
  {
  }

  lemma GigabyteIndex(va: nat)
    ensures va / 0x4000_0000 % 512 == va % SIZE_512GB / SIZE_1GB && va % SIZE_1GB == va % SIZE_512GB % SIZE_1GB
  {
    var h := va / SIZE_512GB;
    assert va == SIZE_512GB * h + va % SIZE_512GB;
    assert va / 0x4000_0000 == 512 * h + va % SIZE_512GB / SIZE_1GB;
  }

  lemma WalkHuge(mem: Memory, table: nat, va: u64, o: nat)
    requires table in mem && HugeRow(mem[table]) && o < SIZE_512GB && va % SIZE_512GB == o
    ensures WalkPdpt(mem, table, va) == Some(o)
  {
    hide Present, PageSize, Huge;
    var i := o / SIZE_1GB;
    GigabyteIndex(va);
    assert mem[table][i] == Huge(i);
    HugeParts(i);
  }

  /** The root's entry for an address outside the kernel's half terabyte. */
  lemma TopIndex(va: u64)
    requires Canonical(va) && !(KERNEL_VA_BASE <= va < KERNEL_VA_BASE + SIZE_512GB)
    ensures var i := va / 0x80_0000_0000 % 512;
            && i != 496 && (i == 0 <==> va < SIZE_512GB) && (i == 256 <==> HHDM_OFFSET <= va < HHDM_OFFSET + SIZE_512GB)
  {
    var q := va / 0x80_0000_0000;
    if va < 0x8000_0000_0000 {
      assert q < 256;
    } else {
      assert 0x1FF_FF00 <= q < 0x200_0000 && q % 512 == q - 0x1FF_FE00;
    }
  }

  lemma WalkOutside(mem: Memory, rt: Roots, va: u64)
    requires SetUp(mem, rt)
    requires !(KERNEL_VA_BASE <= va < KERNEL_VA_BASE + SIZE_512GB)
    ensures Walk(mem, rt.pml4, va) == if va < SIZE_512GB then Some(va)
                                      else if HHDM_OFFSET <= va < HHDM_OFFSET + SIZE_512GB then Some(va - HHDM_OFFSET)
                                      else None
  {
    hide Base, Link, HugeRow;
    var i := va / 0x80_0000_0000 % 512;
    if Canonical(va) {
      LinkParts(rt.low);
      LinkParts(rt.hhdm);
      LinkParts(rt.hal);
      TopIndex(va);
      if i == 0 {
        WalkHuge(mem, rt.low, va, va);
      } else if i == 256 {
        WalkHuge(mem, rt.hhdm, va, va - HHDM_OFFSET);
      } else if i == 511 {
        assert Walk(mem, rt.pml4, va) == WalkPdpt(mem, rt.hal, va);
      }
    }
  }

  /** Whatever the address, the processor's walk finds what the loader means it to. */
  lemma WalkTranslates(mem: Memory, owner: map<nat, Role>, rt: Roots,
                       pds: map<nat, nat>, pts: map<nat, nat>, pages: map<nat, nat>, va: u64)
    requires Tree(mem, owner, pds, rt, pds, pts, pages) && SetUp(mem, rt)
    ensures Walk(mem, rt.pml4, va) == Translate(pages, va)
  {
    hide Walk, SetUp, Tree;
    if KERNEL_VA_BASE <= va < KERNEL_VA_BASE + SIZE_512GB {
      WalkKernel(mem, owner, rt, pds, pts, pages, va - KERNEL_VA_BASE);
      KernelIndices(va - KERNEL_VA_BASE);
    } else {
      WalkOutside(mem, rt, va);
    }
  }

  // ------------------------------------------------------------------ everything mapped can be written

  lemma LinkWritable(a: nat)
    requires Frame(a)
    ensures MayWrite(a + 3)
  {
    var k := a / PAGE_SIZE;
    assert a + 3 == 2 * (2048 * k + 1) + 1;
    assert (a + 3) / 2 == 2048 * k + 1 == 2 * (1024 * k) + 1;
  }

  lemma HugeWritable(i: nat)
    requires i < 512
    ensures MayWrite(Huge(i)) && PageSize(Huge(i))
  {
    hide PageSize;
    HugeParts(i);
    var e: int := Huge(i);
    assert e == 2 * (2 * (0x1000_0000 * i + 0x20) + 1) + 1;
    assert e / 2 == 2 * (0x1000_0000 * i + 0x20) + 1;
  }

  lemma RowWritable(row: seq<u64>, base: nat, to: map<nat, nat>, k: nat)
    requires Row(row, base, to) && k < 512 && base + k in to && Frame(to[base + k])
    ensures MayWrite(row[k])
  {
    assert At(row, base, k, to);
    LinkWritable(to[base + k]);
  }

  lemma WritableKernel(mem: Memory, owner: map<nat, Role>, rt: Roots,
                       pds: map<nat, nat>, pts: map<nat, nat>, pages: map<nat, nat>, o: nat)
    requires Tree(mem, owner, pds, rt, pds, pts, pages) && SetUp(mem, rt)
    requires o < SIZE_512GB && o / PAGE_SIZE in pages
    ensures Writable(mem, rt.pml4, KERNEL_VA_BASE + o)
  {
    hide Base, MayWrite, PageSize, Present, Row;
    KernelIndices(o);
    var p := o / PAGE_SIZE;
    var r := p / 512;
    var g := r / 512;
    assert PageOk(p, pts, pages);
    OwnedLeaf(mem, owner, pds, rt, pds, pts, pages, r);
    assert LeafOk(mem, owner, r, pds, pts, pages);
    OwnedDirectory(mem, owner, pds, rt, pds, pts, pages, g);
    assert DirectoryOk(mem, owner, g, pds, pts);
    LinkParts(rt.kernel);
    LinkWritable(rt.kernel);
    RowLength(mem[rt.kernel], 0, pds);
    RowLength(mem[pds[g]], 512 * g, pts);
    RowLength(mem[pts[r]], 512 * r, pages);
    RowEntry(mem[rt.kernel], 0, pds, g);
    RowWritable(mem[rt.kernel], 0, pds, g);
    RowEntry(mem[pds[g]], 512 * g, pts, r % 512);
    RowWritable(mem[pds[g]], 512 * g, pts, r % 512);
    RowWritable(mem[pts[r]], 512 * r, pages, p % 512);
  }

  lemma WritableHuge(mem: Memory, table: nat, va: u64)
    requires table in mem && HugeRow(mem[table])
    ensures WritablePdpt(mem, table, va)
  {
    hide MayWrite, PageSize, Huge;
    var i := va / 0x4000_0000 % 512;
    assert mem[table][i] == Huge(i);
    HugeWritable(i);
  }

  /** Whatever is translated at all can be written. */
  lemma WalkWritable(mem: Memory, owner: map<nat, Role>, rt: Roots,
                     pds: map<nat, nat>, pts: map<nat, nat>, pages: map<nat, nat>, va: u64)
    requires Tree(mem, owner, pds, rt, pds, pts, pages) && SetUp(mem, rt)
    ensures Walk(mem, rt.pml4, va).Some? ==> Writable(mem, rt.pml4, va)
  {
    hide Walk, Base, MayWrite, HugeRow, Tree;
    WalkTranslates(mem, owner, rt, pds, pts, pages, va);
    if Walk(mem, rt.pml4, va).Some? {
      if KERNEL_VA_BASE <= va < KERNEL_VA_BASE + SIZE_512GB {
        WritableKernel(mem, owner, rt, pds, pts, pages, va - KERNEL_VA_BASE);
      } else {
        LinkParts(rt.low);
        LinkParts(rt.hhdm);
        LinkWritable(rt.low);
        LinkWritable(rt.hhdm);
        TranslatedTop(mem, rt, va);
        WritableHuge(mem, if va < SIZE_512GB then rt.low else rt.hhdm, va);
      }
    }
  }

  lemma TranslatedTop(mem: Memory, rt: Roots, va: u64)
    requires SetUp(mem, rt)
    requires va < SIZE_512GB || HHDM_OFFSET <= va < HHDM_OFFSET + SIZE_512GB
    ensures Entry(mem, rt.pml4, va / 0x80_0000_0000 % 512) == Link(if va < SIZE_512GB then rt.low else rt.hhdm)
  {
    hide HugeRow;
    TopIndex(va);
  }
}
