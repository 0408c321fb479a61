/** Where the loader puts images, which pages mapping them writes, and when every byte of every image is reachable. */
module BootImages {
  import opened Wrappers
  import opened PageMaps

  /** A loaded image: physical base, virtual base and SizeOfImage. */
  datatype Image = Image(phys: nat, va: nat, size: nat)

  /** The next image goes to the next 64 KiB boundary: `(end + 0xFFFF) & !0xFFFF`. */
  function NextVa(end: nat): (va: nat)
    ensures end <= va < end + 0x1_0000 && va % 0x1_0000 == 0
  {
    (end + 0xFFFF) / 0x1_0000 * 0x1_0000
  }

  /** `(size + PAGE_SIZE - 1) & !(PAGE_SIZE - 1)` in pages. */
  function PageCount(size: nat): nat {
    (size + PAGE_SIZE - 1) / PAGE_SIZE
  }

  /** The place of a page whose directory is looked up once, in gigabyte `g`: only 18 bits of its number count. */
  function Slot(g: nat, page: nat): nat {
    g * GIG_PAGES + page % GIG_PAGES
  }

  /** The mapping after `n` pages from page number `first` on have been entered in gigabyte `g`. */
  function Written(pages: map<nat, nat>, g: nat, first: nat, phys: nat, n: nat): map<nat, nat>
    decreases n
  {
    if n == 0 then pages
    else Written(pages, g, first, phys, n - 1)[Slot(g, first + n - 1) := phys + PAGE_SIZE * (n - 1)]
  }

  /** `n` consecutive pages from page number `at` on. */
  function Filled(pages: map<nat, nat>, at: nat, phys: nat, n: nat): map<nat, nat>
    decreases n
  {
    if n == 0 then pages else Filled(pages, at, phys, n - 1)[at + (n - 1) := phys + PAGE_SIZE * (n - 1)]
  }

  lemma FilledZero(pages: map<nat, nat>, r: nat, phys: nat)
    ensures Filled(pages, 512 * r, phys, 0) == pages
  {
  }

  lemma FilledNone(pages: map<nat, nat>, r: nat, phys: nat)
    requires forall p {:trigger p in pages} :: p in pages ==> p / 512 != r
    ensures Filled(pages, 512 * r, phys, 0) == pages && AddsTo(pages, pages, r)
  {
  }

  lemma FilledNext(pages: map<nat, nat>, r: nat, phys: nat, n: nat)
    requires forall p {:trigger p in pages} :: p in pages ==> p / 512 != r
    requires n < 512 && Frame(phys + PAGE_SIZE * n)
    requires AddsTo(pages, Filled(pages, 512 * r, phys, n), r)
    ensures Filled(pages, 512 * r, phys, n + 1) == Filled(pages, 512 * r, phys, n)[512 * r + n := phys + PAGE_SIZE * n]
    ensures AddsTo(pages, Filled(pages, 512 * r, phys, n + 1), r)
  {
    assert (512 * r + n) / 512 == r;
  }

  lemma WrittenNone(pages: map<nat, nat>, g: nat, first: nat, phys: nat)
    ensures Written(pages, g, first, phys, 0) == pages
  {
  }

  /** Going on in the page table that holds the next page. */
  lemma {:induction false} FilledIsWritten(pages: map<nat, nat>, g: nat, first: nat, phys: nat, done: nat, n: nat)
    requires (first + done) % 512 + n <= 512
    ensures Filled(Written(pages, g, first, phys, done),
                   512 * (512 * g + (first + done) / 512 % 512) + (first + done) % 512, phys + PAGE_SIZE * done, n)
            == Written(pages, g, first, phys, done + n)
    decreases n
  {
    if n == 0 {
    } else {
      FilledIsWritten(pages, g, first, phys, done, n - 1);
      SlotIs(g, first + done, n - 1);
    }
  }

  /** The two indices of the page `done` pages after `va`. */
  lemma IndicesAt(va: nat, done: nat)
    ensures (va + PAGE_SIZE * done) / 0x1000 % 512 == (va / PAGE_SIZE + done) % 512
    ensures (va + PAGE_SIZE * done) / 0x20_0000 % 512 == (va / PAGE_SIZE + done) / 512 % 512
  {
    assert (va + PAGE_SIZE * done) / 0x1000 == va / PAGE_SIZE + done;
    assert (va + PAGE_SIZE * done) / 0x20_0000 == (va / PAGE_SIZE + done) / 512;
  }

  /** Pages in one page table have consecutive entries. */
  lemma SlotIs(g: nat, page: nat, i: nat)
    requires page % 512 + i < 512
    ensures Slot(g, page + i) == 512 * (512 * g + page / 512 % 512) + page % 512 + i
  {
    assert page == 512 * (page / 512) + page % 512;
    assert (page + i) / 512 == page / 512;
    SlotParts(g, page + i);
  }

  lemma SlotParts(g: nat, page: nat)
    ensures Slot(g, page) == 512 * (512 * g + page / 512 % 512) + page % 512
  {
  }

  /** Page number of `va` in the kernel's half terabyte. */
  function FirstPage(va: nat): nat
    requires va >= KERNEL_VA_BASE
  {
    (va - KERNEL_VA_BASE) / PAGE_SIZE
  }

  /** An image where the tables can hold it. */
  predicate InSpace(m: Image) {
    && m.phys % PAGE_SIZE == 0 && m.phys + PAGE_SIZE * PageCount(m.size) <= PHYS_LIMIT
    && m.va % 0x1_0000 == 0 && KERNEL_VA_BASE <= m.va && m.va + m.size <= KERNEL_VA_BASE + SIZE_512GB
  }

  predicate Crosses(m: Image)
    requires InSpace(m)
  {
    FirstPage(m.va) % GIG_PAGES + PageCount(m.size) > GIG_PAGES
  }

  lemma GigabyteOf(o: nat)
    ensures (KERNEL_VA_BASE + o) / SIZE_1GB == KERNEL_VA_BASE / SIZE_1GB + o / PAGE_SIZE / GIG_PAGES
  {
    assert o / SIZE_1GB == o / PAGE_SIZE / GIG_PAGES;
  }

  /** An image crosses exactly when its first and last byte lie in different gigabytes. */
  lemma CrossesIff(m: Image)
    requires InSpace(m)
    ensures Crosses(m) <==> m.size > 0 && m.va / SIZE_1GB != (m.va + m.size - 1) / SIZE_1GB
  {
    var o := m.va - KERNEL_VA_BASE;
    FirstPageOf(m);
    if m.size > 0 {
      GigabyteOf(o);
      GigabyteOf(o + m.size - 1);
      LastPage(FirstPage(m.va), m.size);
      hide FirstPage;
      SameQuotient(FirstPage(m.va), PageCount(m.size) - 1);
    } else {
      hide FirstPage;
    }
  }

  lemma LastPage(f: nat, size: nat)
    requires size > 0
    ensures PageCount(size) > 0 && (PAGE_SIZE * f + size - 1) / PAGE_SIZE == f + PageCount(size) - 1
    ensures PAGE_SIZE * f / PAGE_SIZE == f
  {
  }

  lemma SameQuotient(f: nat, k: nat)
    ensures f / GIG_PAGES == (f + k) / GIG_PAGES <==> f % GIG_PAGES + k < GIG_PAGES
  {
  }

  /** The mapping after `map_module` for one image. */
  function Mapped(pages: map<nat, nat>, m: Image): map<nat, nat>
    requires InSpace(m)
  {
    var f := FirstPage(m.va);
    Written(pages, f / GIG_PAGES, f, m.phys, PageCount(m.size))
  }

  /** Every byte of the image is where the image's own addresses say. */
  ghost predicate Faithful(pages: map<nat, nat>, m: Image)
    requires InSpace(m)
  {
    forall i: nat {:trigger Reaches(pages, m, i)} :: i < m.size ==> Reaches(pages, m, i)
  }

  predicate Reaches(pages: map<nat, nat>, m: Image, i: nat)
    requires InSpace(m) && i < m.size
  {
    Translate(pages, m.va + i) == Some(m.phys + i)
  }

  lemma Divides(o: nat)
    requires o % 0x1_0000 == 0
    ensures o == PAGE_SIZE * (o / PAGE_SIZE)
  {
    var q := o / 0x1_0000;
    assert o == PAGE_SIZE * (0x10 * q);
    assert o / PAGE_SIZE == 0x10 * q;
  }

  lemma FirstPageOf(m: Image)
    requires InSpace(m)
    ensures m.va == KERNEL_VA_BASE + PAGE_SIZE * FirstPage(m.va)
  {
    Divides(m.va - KERNEL_VA_BASE);
  }

  lemma ByteOf(f: nat, i: nat)
    ensures (PAGE_SIZE * f + i) / PAGE_SIZE == f + i / PAGE_SIZE
    ensures (KERNEL_VA_BASE + PAGE_SIZE * f + i) % PAGE_SIZE == i % PAGE_SIZE
    ensures i == PAGE_SIZE * (i / PAGE_SIZE) + i % PAGE_SIZE
  {
  }

  /** Byte `i` of an image is in its page `i / 4096`. */
  lemma ReachesIff(pages: map<nat, nat>, m: Image, i: nat)
    requires InSpace(m) && i < m.size
    ensures var p := FirstPage(m.va) + i / PAGE_SIZE;
            Reaches(pages, m, i) <==> p in pages && pages[p] == m.phys + PAGE_SIZE * (i / PAGE_SIZE)
  {
    FirstPageOf(m);
    hide FirstPage;
    ByteOf(FirstPage(m.va), i);
  }

  ghost predicate PageAt(pages: map<nat, nat>, m: Image, k: nat)
    requires InSpace(m)
  {
    var p := FirstPage(m.va) + k;
    p in pages && pages[p] == m.phys + PAGE_SIZE * k
  }

  lemma FaithfulIff(pages: map<nat, nat>, m: Image)
    requires InSpace(m)
    ensures Faithful(pages, m) <==> forall k: nat {:trigger PageAt(pages, m, k)} ::
      k < PageCount(m.size) ==> PageAt(pages, m, k)
  {
    if Faithful(pages, m) {
      forall k: nat {:trigger PageAt(pages, m, k)} | k < PageCount(m.size) ensures PageAt(pages, m, k) {
        assert Reaches(pages, m, PAGE_SIZE * k);
        ReachesIff(pages, m, PAGE_SIZE * k);
      }
    }
    if forall k: nat {:trigger PageAt(pages, m, k)} :: k < PageCount(m.size) ==> PageAt(pages, m, k) {
      forall i: nat {:trigger Reaches(pages, m, i)} | i < m.size ensures Reaches(pages, m, i) {
        ReachesIff(pages, m, i);
        assert PageAt(pages, m, i / PAGE_SIZE);
      }
    }
  }

  /** Mapping an image that stays inside its gigabyte sets its own pages and no other. */
  lemma {:induction false} WrittenInside(pages: map<nat, nat>, g: nat, first: nat, phys: nat, n: nat, p: nat)
    requires g == first / GIG_PAGES && first % GIG_PAGES + n <= GIG_PAGES
    ensures var w := Written(pages, g, first, phys, n);
            if first <= p < first + n then p in w && w[p] == phys + PAGE_SIZE * (p - first)
            else (p in w <==> p in pages) && (p in pages ==> w[p] == pages[p])
    decreases n
  {
    if n == 0 {
    } else {
      WrittenInside(pages, g, first, phys, n - 1, p);
      assert Slot(g, first + n - 1) == first + n - 1;
    }
  }

  /** No page outside gigabyte `g` is touched, however many pages are entered. */
  lemma {:induction false} WrittenStays(pages: map<nat, nat>, g: nat, first: nat, phys: nat, n: nat, p: nat)
    requires p / GIG_PAGES != g
    ensures p in Written(pages, g, first, phys, n) <==> p in pages
    ensures p in pages ==> Written(pages, g, first, phys, n)[p] == pages[p]
    decreases n
  {
    if n == 0 {
    } else {
      WrittenStays(pages, g, first, phys, n - 1, p);
      assert Slot(g, first + n - 1) / GIG_PAGES == g;
    }
  }

  /** One image on free addresses is mapped faithfully exactly when it stays inside its gigabyte. */
  lemma MappedFaithful(pages: map<nat, nat>, m: Image)
    requires InSpace(m)
    requires forall p {:trigger p in pages} :: p in pages ==> p / GIG_PAGES <= FirstPage(m.va) / GIG_PAGES
    ensures Faithful(Mapped(pages, m), m) <==> !Crosses(m)
  {
    var f, n := FirstPage(m.va), PageCount(m.size);
    var g := f / GIG_PAGES;
    var w := Mapped(pages, m);
    FaithfulIff(w, m);
    if Crosses(m) {
      var k := GIG_PAGES - f % GIG_PAGES;
      assert (f + k) / GIG_PAGES == g + 1;
      WrittenStays(pages, g, f, m.phys, n, f + k);
      assert !PageAt(w, m, k);
    } else {
      forall k: nat {:trigger PageAt(w, m, k)} | k < n ensures PageAt(w, m, k) {
        WrittenInside(pages, g, f, m.phys, n, f + k);
      }
    }
  }

  /** Two megabytes that begin one megabyte below the end of the first gigabyte: the second one is not mapped. */
  lemma TailLost()
    ensures var m := Image(0x100_0000, KERNEL_VA_BASE + 0x3FF0_0000, 0x20_0000);
            InSpace(m) && Crosses(m) && !Faithful(Mapped(map[], m), m)
  {
    var m := Image(0x100_0000, KERNEL_VA_BASE + 0x3FF0_0000, 0x20_0000);
    assert FirstPage(m.va) == 0x3_FF00 && PageCount(m.size) == 0x200;
    MappedFaithful(map[], m);
  }

  lemma PagesBefore(f: nat, n: nat, size: nat, k: nat)
    requires PAGE_SIZE * f + size <= PAGE_SIZE * n && k < PageCount(size)
    ensures f + k < n
  {
    assert PAGE_SIZE * k < size;
  }

  lemma PagesApart(m: Image, next: Image, k: nat)
    requires InSpace(m) && InSpace(next) && m.va + m.size <= next.va && k < PageCount(m.size)
    ensures FirstPage(m.va) + k < FirstPage(next.va)
  {
    FirstPageOf(m);
    FirstPageOf(next);
    hide FirstPage, PageCount;
    PagesBefore(FirstPage(m.va), FirstPage(next.va), m.size, k);
  }

  lemma PageUndisturbed(pages: map<nat, nat>, m: Image, next: Image, k: nat)
    requires InSpace(m) && InSpace(next) && !Crosses(next) && m.va + m.size <= next.va && k < PageCount(m.size)
    ensures PageAt(Mapped(pages, next), m, k) <==> PageAt(pages, m, k)
  {
    PagesApart(m, next, k);
    hide FirstPage, PageCount;
    var f := FirstPage(next.va);
    WrittenInside(pages, f / GIG_PAGES, f, next.phys, PageCount(next.size), FirstPage(m.va) + k);
  }

  /** Mapping an image above another, inside its gigabyte, does not change what the lower one reaches. */
  lemma Undisturbed(pages: map<nat, nat>, m: Image, next: Image)
    requires InSpace(m) && InSpace(next) && !Crosses(next) && m.va + m.size <= next.va
    ensures Faithful(Mapped(pages, next), m) <==> Faithful(pages, m)
  {
    hide Faithful, Mapped, PageAt, PageCount, FirstPage;
    var w := Mapped(pages, next);
    FaithfulIff(w, m);
    FaithfulIff(pages, m);
    forall k: nat {:trigger PageAt(w, m, k)} {:trigger PageAt(pages, m, k)} | k < PageCount(m.size)
      ensures PageAt(w, m, k) <==> PageAt(pages, m, k)
    {
      PageUndisturbed(pages, m, next, k);
    }
  }

  // ------------------------------------------------------------------ all images

  /** Images lie one above the other. */
  ghost predicate Laid(images: seq<Image>) {
    && (forall j {:trigger images[j]} :: 0 <= j < |images| ==> InSpace(images[j]))
    && (forall i, j {:trigger images[i], images[j]} ::
      0 <= i < j < |images| ==> images[i].va + images[i].size <= images[j].va)
  }

  /** Mapping the images in order, starting from no pages. */
  ghost function MapAll(images: seq<Image>): map<nat, nat>
    requires Laid(images)
    decreases |images|
  {
    if images == [] then map[] else Mapped(MapAll(images[..|images| - 1]), images[|images| - 1])
  }

  lemma LaidPrefixes(images: seq<Image>)
    requires Laid(images)
    ensures forall j {:trigger images[..j]} :: 0 <= j <= |images| ==> Laid(images[..j])
  {
  }

  lemma MapAllNext(images: seq<Image>, j: nat)
    requires Laid(images) && j < |images| && Laid(images[..j]) && Laid(images[..j + 1])
    ensures InSpace(images[j]) && MapAll(images[..j + 1]) == Mapped(MapAll(images[..j]), images[j])
  {
    assert images[..j + 1][..j] == images[..j];
  }

  lemma KernelMapped(images: seq<Image>)
    requires Laid(images) && |images| > 0 && images[0].va == KERNEL_VA_BASE && Laid(images[..1])
    ensures MapAll(images[..1]) == Written(map[], 0, 0, images[0].phys, PageCount(images[0].size))
  {
    assert images[..1][..0] == [];
  }

  lemma {:induction false} PagesBelow(images: seq<Image>, va: nat, p: nat)
    requires Laid(images) && va >= KERNEL_VA_BASE
    requires forall j {:trigger images[j]} :: 0 <= j < |images| ==> images[j].va <= va
    requires p in MapAll(images)
    ensures p / GIG_PAGES <= FirstPage(va) / GIG_PAGES
    decreases |images|
  {
    var n := |images| - 1;
    var m := images[n];
    var f := FirstPage(m.va);
    if p / GIG_PAGES == f / GIG_PAGES {
    } else {
      WrittenStays(MapAll(images[..n]), f / GIG_PAGES, f, m.phys, PageCount(m.size), p);
      PagesBelow(images[..n], va, p);
    }
  }

  /**
   Over a whole boot: every byte of every image is reachable at its own address exactly when no
   image crosses a gigabyte boundary. One that does leaves its tail unmapped.
   */
  lemma {:induction false} AllFaithfulIff(images: seq<Image>)
    requires Laid(images)
    ensures (forall j {:trigger images[j]} :: 0 <= j < |images| ==> Faithful(MapAll(images), images[j]))
            <==> (forall j {:trigger images[j]} :: 0 <= j < |images| ==> !Crosses(images[j]))
    decreases |images|
  {
    hide Faithful, Crosses, Mapped, Written, PageCount;
    if images == [] {
    } else {
      var n := |images| - 1;
      var front, m := images[..n], images[n];
      AllFaithfulIff(front);
      var pages := MapAll(front);
      forall p {:trigger p in pages} | p in pages ensures p / GIG_PAGES <= FirstPage(m.va) / GIG_PAGES {
        PagesBelow(front, m.va, p);
      }
      MappedFaithful(pages, m);
      if !Crosses(m) {
        forall j {:trigger front[j]} | 0 <= j < n
          ensures Faithful(MapAll(images), images[j]) == Faithful(pages, front[j])
        {
          Undisturbed(pages, front[j], m);
        }
        forall j | 0 <= j < n ensures images[j] == front[j] {
        }
      }
    }
  }

  lemma SameSlot(o: nat, k: nat)
    requires o % PAGE_SIZE == 0
    ensures Slot(0, (KERNEL_VA_BASE + o) / PAGE_SIZE + k) == Slot(0, o / PAGE_SIZE + k)
  {
    assert KERNEL_VA_BASE / PAGE_SIZE == GIG_PAGES * 0x3_FFFF_E000;
    assert (KERNEL_VA_BASE + o) / PAGE_SIZE == KERNEL_VA_BASE / PAGE_SIZE + o / PAGE_SIZE;
  }

  /** Only the low bits of page numbers count, so numbers of whole addresses do as well. */
  lemma {:induction false} WrittenByAddress(pages: map<nat, nat>, g: nat, o: nat, phys: nat, n: nat)
    requires o % PAGE_SIZE == 0
    ensures Written(pages, g, (KERNEL_VA_BASE + o) / PAGE_SIZE, phys, n) == Written(pages, g, o / PAGE_SIZE, phys, n)
    decreases n
  {
    if n == 0 {
    } else {
      WrittenByAddress(pages, g, o, phys, n - 1);
      SameSlot(o, n - 1);
    }
  }

  lemma MappedByAddress(pages: map<nat, nat>, m: Image)
    requires InSpace(m)
    ensures Written(pages, m.va / SIZE_1GB % 512, m.va / PAGE_SIZE, m.phys, PageCount(m.size)) == Mapped(pages, m)
  {
    var o := m.va - KERNEL_VA_BASE;
    WrittenByAddress(pages, m.va / SIZE_1GB % 512, o, m.phys, PageCount(m.size));
    if m.size > 0 {
      Index3(o);
      assert o / SIZE_1GB == o / PAGE_SIZE / GIG_PAGES;
    }
  }

  // ------------------------------------------------------------------ where images go

  /** A loaded file: where the firmware put it and its SizeOfImage. */
  datatype Loaded = Loaded(phys: nat, size: nat)

  /** The images of a boot: each on the first 64 KiB boundary after the one before. */
  function Placement(end: nat, modules: seq<Loaded>): (images: seq<Image>)
    ensures |images| == |modules|
    ensures forall j {:trigger images[j]} ::
      0 <= j < |images| ==> images[j].phys == modules[j].phys && images[j].size == modules[j].size
    decreases |modules|
  {
    if modules == [] then []
    else
      var va := NextVa(end);
      [Image(modules[0].phys, va, modules[0].size)] + Placement(va + modules[0].size, modules[1..])
  }

  function PlacedEnd(end: nat, modules: seq<Loaded>): nat
    decreases |modules|
  {
    if modules == [] then end else PlacedEnd(NextVa(end) + modules[0].size, modules[1..])
  }

  ghost predicate Between(m: Image, low: nat, high: nat) {
    low <= m.va && m.va % 0x1_0000 == 0 && m.va + m.size <= high
  }

  ghost predicate Below(m: Image, next: Image) {
    m.va + m.size <= next.va
  }

  lemma {:induction false} PlacedApart(end: nat, modules: seq<Loaded>, images: seq<Image>)
    requires images == Placement(end, modules)
    ensures end <= PlacedEnd(end, modules)
    ensures forall j {:trigger images[j]} :: 0 <= j < |images| ==> Between(images[j], end, PlacedEnd(end, modules))
    ensures forall i, j {:trigger images[i], images[j]} :: 0 <= i < j < |images| ==> Below(images[i], images[j])
    decreases |modules|
  {
    if modules == [] {
    } else {
      var first, rest := images[0], images[1..];
      PlacedApart(first.va + first.size, modules[1..], rest);
      forall j {:trigger images[j]} | 0 <= j < |images| ensures Between(images[j], end, PlacedEnd(end, modules)) {
        if j > 0 {
          assert images[j] == rest[j - 1];
        }
      }
      forall i, j {:trigger images[i], images[j]} | 0 <= i < j < |images| ensures Below(images[i], images[j]) {
        assert images[j] == rest[j - 1];
        if i > 0 {
          assert images[i] == rest[i - 1];
        }
      }
    }
  }

  /** Physical memory a table entry can name. */
  predicate InMemory(f: Loaded) {
    f.phys % PAGE_SIZE == 0 && f.phys + PAGE_SIZE * PageCount(f.size) <= PHYS_LIMIT
  }

  /** The kernel at its base, then the modules as they are placed after it. */
  function Images(kernel: Loaded, modules: seq<Loaded>): seq<Image> {
    [Image(kernel.phys, KERNEL_VA_BASE, kernel.size)] + Placement(KERNEL_VA_BASE + kernel.size, modules)
  }

  predicate Fits(kernel: Loaded, modules: seq<Loaded>) {
    && InMemory(kernel) && (forall f :: f in modules ==> InMemory(f))
    && PlacedEnd(KERNEL_VA_BASE + kernel.size, modules) <= KERNEL_VA_BASE + SIZE_512GB
  }

  lemma ImagesLaid(kernel: Loaded, modules: seq<Loaded>)
    requires Fits(kernel, modules)
    ensures Laid(Images(kernel, modules))
  {
    hide Placement;
    var end := KERNEL_VA_BASE + kernel.size;
    var rest, images := Placement(end, modules), Images(kernel, modules);
    PlacedApart(end, modules, rest);
    forall j {:trigger images[j]} | 0 <= j < |images| ensures InSpace(images[j]) {
      if j > 0 {
        assert images[j] == rest[j - 1] && InMemory(modules[j - 1]);
      }
    }
    forall i, j {:trigger images[i], images[j]} | 0 <= i < j < |images|
      ensures images[i].va + images[i].size <= images[j].va
    {
      assert images[j] == rest[j - 1];
      if i > 0 {
        assert images[i] == rest[i - 1];
      }
    }
  }
}
