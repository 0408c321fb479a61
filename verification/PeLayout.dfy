/** The two views of a PE image: the file, reached through its section table, and the image the loader lays out. */
module PeLayout {
  import opened Bytes
  import opened Wrappers
  import opened Relocations

  datatype Section = Section(virtualSize: u32, virtualAddress: u32, rawSize: u32, rawPointer: u32)

  /** What of the headers the views depend on. */
  datatype Layout = Layout(sizeOfHeaders: u32, sizeOfImage: u32, sections: seq<Section>)

  function Extent(s: Section): nat {
    if s.virtualSize > s.rawSize then s.virtualSize else s.rawSize
  }

  // ------------------------------------------------------------------ the file view

  /** The file offset of `rva` by the sections from `k` on, the first match winning. */
  function SectionOffset(sections: seq<Section>, rva: u32): Option<nat>
    decreases |sections|
  {
    if sections == [] then None
    else
      var s := sections[0];
      if s.virtualAddress <= rva < (s.virtualAddress + Extent(s)) % U32_END then
        Some(s.rawPointer + (rva - s.virtualAddress))
      else SectionOffset(sections[1..], rva)
  }

  function OffsetOf(layout: Layout, rva: u32): Option<nat> {
    if rva < layout.sizeOfHeaders then Some(rva) else SectionOffset(layout.sections, rva)
  }

  /** The search for the section that holds an address. */
  method RvaToOffset(layout: Layout, rva: u32) returns (offset: Option<nat>)
    ensures offset == OffsetOf(layout, rva)
  {
    if rva < layout.sizeOfHeaders {
      return Some(rva);
    }
    for k := 0 to |layout.sections|
      invariant SectionOffset(layout.sections[k..], rva) == SectionOffset(layout.sections, rva)
    {
      var s := layout.sections[k];
      assert layout.sections[k..][1..] == layout.sections[k + 1..];
      var end := (s.virtualAddress + Extent(s)) % U32_END;
      if rva >= s.virtualAddress && rva < end {
        return Some(s.rawPointer + (rva - s.virtualAddress));
      }
    }
    return None;
  }

  // ------------------------------------------------------------------ the loaded view

  /** Whether the loader copies the section at all. */
  predicate Copied(s: Section, fileLength: nat, imageLength: nat) {
    s.rawPointer + s.rawSize <= fileLength && s.virtualAddress + s.rawSize <= imageLength
  }

  function PlaceSection(image: seq<byte>, file: seq<byte>, s: Section): (r: seq<byte>)
    ensures |r| == |image|
  {
    if !Copied(s, |file|, |image|) then image
    else
      var copied := Put(image, s.virtualAddress, file[s.rawPointer..s.rawPointer + s.rawSize]);
      if s.virtualSize > s.rawSize && s.virtualAddress + s.virtualSize <= |image| then
        Put(copied, s.virtualAddress + s.rawSize, Zeros(s.virtualSize - s.rawSize))
      else copied
  }

  function PlaceSections(image: seq<byte>, file: seq<byte>, sections: seq<Section>): (r: seq<byte>)
    ensures |r| == |image|
    decreases |sections|
  {
    if sections == [] then image else PlaceSections(PlaceSection(image, file, sections[0]), file, sections[1..])
  }

  predicate HeadersFit(file: seq<byte>, layout: Layout) {
    layout.sizeOfHeaders <= |file| && layout.sizeOfHeaders <= layout.sizeOfImage
  }

  /** The image before relocation. */
  function Placed(file: seq<byte>, layout: Layout): (image: seq<byte>)
    requires HeadersFit(file, layout)
    ensures |image| == layout.sizeOfImage
  {
    PlaceSections(Put(Zeros(layout.sizeOfImage), 0, file[..layout.sizeOfHeaders]), file, layout.sections)
  }

  method CopySection(image: array<byte>, file: seq<byte>, s: Section)
    modifies image
    ensures image[..] == PlaceSection(old(image[..]), file, s)
  {
    if s.rawPointer + s.rawSize > |file| {
      return;
    }
    if s.virtualAddress + s.rawSize > image.Length {
      return;
    }
    WriteBytes(image, s.virtualAddress, file[s.rawPointer..s.rawPointer + s.rawSize]);
    if s.virtualSize > s.rawSize && s.virtualAddress + s.virtualSize <= image.Length {
      WriteBytes(image, s.virtualAddress + s.rawSize, Zeros(s.virtualSize - s.rawSize));
    }
  }

  /** Lays the file out in fresh memory and relocates it; `None` when the headers do not fit. */
  method LoadImage(file: seq<byte>, layout: Layout, relocRva: u32, relocSize: u32, delta: int)
    returns (image: Option<array<byte>>)
    ensures image.None? <==> layout.sizeOfHeaders > |file| || layout.sizeOfHeaders > layout.sizeOfImage
    ensures image.Some? ==> fresh(image.value)
    ensures image.Some? ==> image.value[..] == Loaded(file, layout, relocRva, relocSize, delta)
  {
    if layout.sizeOfHeaders > |file| || layout.sizeOfHeaders > layout.sizeOfImage {
      return None;
    }
    var memory := new byte[layout.sizeOfImage](_ => 0);
    assert memory[..] == Zeros(layout.sizeOfImage);
    WriteBytes(memory, 0, file[..layout.sizeOfHeaders]);
    ghost var start := memory[..];
    for k := 0 to |layout.sections|
      invariant fresh(memory)
      invariant PlaceSections(memory[..], file, layout.sections[k..]) == PlaceSections(start, file, layout.sections)
    {
      assert layout.sections[k..][1..] == layout.sections[k + 1..];
      CopySection(memory, file, layout.sections[k]);
    }
    if delta != 0 {
      ApplyRelocations(memory, relocRva, relocSize, delta, false);
    }
    image := Some(memory);
  }

  /** The loaded image. */
  function Loaded(file: seq<byte>, layout: Layout, relocRva: u32, relocSize: u32, delta: int): (image: seq<byte>)
    requires HeadersFit(file, layout)
    ensures |image| == layout.sizeOfImage
  {
    if delta == 0 || relocRva == 0 || relocSize == 0 then Placed(file, layout)
    else Relocate(Placed(file, layout), relocRva, relocRva + relocSize, delta, false)
  }

  // ------------------------------------------------------------------ agreement

  predicate Separate(s: Section, t: Section) {
    s.virtualAddress + Extent(s) <= t.virtualAddress || t.virtualAddress + Extent(t) <= s.virtualAddress
  }

  ghost predicate Tidy(sections: seq<Section>, sizeOfHeaders: nat) {
    && (forall k {:trigger sections[k]} :: 0 <= k < |sections| ==>
          sizeOfHeaders <= sections[k].virtualAddress && sections[k].virtualAddress + Extent(sections[k]) < U32_END)
    && (forall j, k {:trigger sections[j], sections[k]} ::
      0 <= j < k < |sections| ==> Separate(sections[j], sections[k]))
  }

  /** The `n` bytes at `rva` come from the file: from the headers or from the raw data of section `k`. */
  ghost predicate BackedBy(file: seq<byte>, layout: Layout, rva: nat, n: nat, k: int) {
    if k < 0 then rva + n <= layout.sizeOfHeaders
    else
      && k < |layout.sections|
      && layout.sections[k].rawPointer + layout.sections[k].rawSize <= |file|
      && layout.sections[k].virtualAddress + layout.sections[k].rawSize <= layout.sizeOfImage
      && layout.sections[k].virtualAddress <= rva
      && rva + n <= layout.sections[k].virtualAddress + layout.sections[k].rawSize
  }

  ghost predicate Backed(file: seq<byte>, layout: Layout, rva: nat, n: nat) {
    exists k: int :: BackedBy(file, layout, rva, n, k)
  }

  /** Both views show the same `n` bytes at `rva`. */
  ghost predicate Same(file: seq<byte>, layout: Layout, image: seq<byte>, rva: nat, n: nat) {
    && rva < U32_END && OffsetOf(layout, rva).Some?
    && var o := OffsetOf(layout, rva).value;
    o + n <= |file| && rva + n <= |image| && image[rva..rva + n] == file[o..o + n]
  }

  lemma {:induction false} SectionOffsetIs(sections: seq<Section>, rva: u32, k: nat)
    requires Tidy(sections, 0) && k < |sections|
    requires sections[k].virtualAddress <= rva < sections[k].virtualAddress + Extent(sections[k])
    ensures SectionOffset(sections, rva) == Some(sections[k].rawPointer + (rva - sections[k].virtualAddress))
    decreases |sections|
  {
    if k == 0 {
    } else {
      assert Separate(sections[0], sections[k]);
      SectionOffsetIs(sections[1..], rva, k - 1);
    }
  }

  lemma PlaceSectionElsewhere(image: seq<byte>, file: seq<byte>, s: Section, j: nat)
    requires j < |image| && !(s.virtualAddress <= j < s.virtualAddress + Extent(s))
    ensures PlaceSection(image, file, s)[j] == image[j]
  {
  }

  /** A section whose raw data ends behind the file, or behind the image when placed, is left out. */
  lemma PlaceSkipped(image: seq<byte>, file: seq<byte>, s: Section)
    requires s.rawPointer + s.rawSize > |file| || s.virtualAddress + s.rawSize > |image|
    ensures PlaceSection(image, file, s) == image
  {
  }

  /** The first section that holds an address: within the larger of its two sizes, modulo 2^32. */
  ghost predicate FirstHolding(sections: seq<Section>, rva: u32, k: nat) {
    && k < |sections| && HoldsAddress(sections[k], rva)
    && forall j {:trigger sections[j]} :: 0 <= j < k ==> !HoldsAddress(sections[j], rva)
  }

  predicate HoldsAddress(s: Section, rva: u32) {
    && s.virtualAddress <= rva
    && (if s.virtualSize > s.rawSize then rva < (s.virtualAddress + s.virtualSize) % 0x1_0000_0000
        else rva < (s.virtualAddress + s.rawSize) % 0x1_0000_0000)
  }

  lemma {:induction false} SectionOffsetIff(sections: seq<Section>, rva: u32, o: nat)
    ensures SectionOffset(sections, rva) == Some(o) <==>
      exists k: nat :: FirstHolding(sections, rva, k)
                       && o == sections[k].rawPointer + (rva - sections[k].virtualAddress)
    decreases |sections|
  {
    hide HoldsAddress;
    if sections == [] {
    } else if HoldsAddress(sections[0], rva) {
      HoldsFirst(sections, rva);
      assert FirstHolding(sections, rva, 0);
    } else {
      HoldsFirst(sections, rva);
      var rest := sections[1..];
      SectionOffsetIff(rest, rva, o);
      if k: nat :| FirstHolding(rest, rva, k) && o == rest[k].rawPointer + (rva - rest[k].virtualAddress) {
        assert forall j {:trigger sections[j]} :: 0 < j <= k ==> sections[j] == rest[j - 1];
        assert FirstHolding(sections, rva, k + 1);
      }
      if k: nat :| FirstHolding(sections, rva, k) && o == sections[k].rawPointer + (rva - sections[k].virtualAddress) {
        assert forall j {:trigger rest[j]} :: 0 <= j < |rest| ==> rest[j] == sections[j + 1];
        assert FirstHolding(rest, rva, k - 1);
      }
    }
  }

  lemma HoldsFirst(sections: seq<Section>, rva: u32)
    requires sections != []
    ensures SectionOffset(sections, rva) == if HoldsAddress(sections[0], rva) then
      Some(sections[0].rawPointer + (rva - sections[0].virtualAddress))
                                            else SectionOffset(sections[1..], rva)
  {
  }

  /** Addresses in the headers are file offsets; any other one belongs to the first section that holds it. */
  lemma OffsetIff(layout: Layout, rva: u32, o: nat)
    ensures OffsetOf(layout, rva) == Some(o) <==>
      if rva < layout.sizeOfHeaders then o == rva
      else exists k: nat :: FirstHolding(layout.sections, rva, k)
                            && o == layout.sections[k].rawPointer + (rva - layout.sections[k].virtualAddress)
  {
    SectionOffsetIff(layout.sections, rva, o);
  }

  /** Sections that do not cover a byte leave it alone. */
  lemma {:induction false} PlaceElsewhere(image: seq<byte>, file: seq<byte>, sections: seq<Section>, j: nat)
    requires j < |image|
    requires forall k {:trigger sections[k]} ::
      0 <= k < |sections| ==> !(sections[k].virtualAddress <= j < sections[k].virtualAddress + Extent(sections[k]))
    ensures PlaceSections(image, file, sections)[j] == image[j]
    decreases |sections|
  {
    if sections == [] {
    } else {
      PlaceSectionElsewhere(image, file, sections[0], j);
      PlaceElsewhere(PlaceSection(image, file, sections[0]), file, sections[1..], j);
    }
  }

  /** What a section puts at a byte it covers: its raw data, or zero past them. */
  predicate Own(image: seq<byte>, file: seq<byte>, s: Section, j: nat)
    requires j < |image|
  {
    && (s.virtualAddress <= j < s.virtualAddress + s.rawSize && s.rawPointer + s.rawSize <= |file| ==>
          image[j] == file[s.rawPointer + (j - s.virtualAddress)])
    && (s.virtualAddress + s.rawSize <= j < s.virtualAddress + s.virtualSize <= |image| ==> image[j] == 0)
  }

  /** The copy puts the raw byte, and clearing the rest of the section does not touch it. */
  lemma RawByteHere(image: seq<byte>, file: seq<byte>, s: Section, j: nat)
    requires Copied(s, |file|, |image|) && s.virtualAddress <= j < s.virtualAddress + s.rawSize
    ensures PlaceSection(image, file, s)[j] == file[s.rawPointer + (j - s.virtualAddress)]
  {
    hide Zeros;
    var raw := file[s.rawPointer..s.rawPointer + s.rawSize];
    var copied := Put(image, s.virtualAddress, raw);
    assert copied[j] == raw[j - s.virtualAddress];
  }

  lemma ZeroTailHere(image: seq<byte>, file: seq<byte>, s: Section, j: nat)
    requires Copied(s, |file|, |image|)
    requires s.virtualAddress + s.rawSize <= j < s.virtualAddress + s.virtualSize <= |image|
    ensures PlaceSection(image, file, s)[j] == 0
  {
    var copied := Put(image, s.virtualAddress, file[s.rawPointer..s.rawPointer + s.rawSize]);
    var tail := Zeros(s.virtualSize - s.rawSize);
    assert PlaceSection(image, file, s) == Put(copied, s.virtualAddress + s.rawSize, tail);
    assert tail[j - (s.virtualAddress + s.rawSize)] == 0;
    hide Put, Zeros;
  }

  lemma PlaceSectionHere(image: seq<byte>, file: seq<byte>, s: Section, j: nat)
    requires j < |image| && Copied(s, |file|, |image|)
    ensures Own(PlaceSection(image, file, s), file, s, j)
  {
    hide PlaceSection;
    if s.virtualAddress <= j < s.virtualAddress + s.rawSize {
      RawByteHere(image, file, s, j);
    } else if s.virtualAddress + s.rawSize <= j < s.virtualAddress + s.virtualSize <= |image| {
      ZeroTailHere(image, file, s, j);
    }
  }

  /** Later sections leave a section's bytes alone. */
  lemma {:induction false} PlaceHere(image: seq<byte>, file: seq<byte>, sections: seq<Section>, k: nat, j: nat)
    requires Tidy(sections, 0) && k < |sections| && j < |image|
    requires sections[k].rawPointer + sections[k].rawSize <= |file|
    requires sections[k].virtualAddress + sections[k].rawSize <= |image|
    requires sections[k].virtualAddress <= j < sections[k].virtualAddress + Extent(sections[k])
    ensures Own(PlaceSections(image, file, sections), file, sections[k], j)
    decreases |sections|
  {
    hide PlaceSection, Own, Extent;
    var next, rest := PlaceSection(image, file, sections[0]), sections[1..];
    if k == 0 {
      forall i {:trigger rest[i]} | 0 <= i < |rest|
        ensures !(rest[i].virtualAddress <= j < rest[i].virtualAddress + Extent(rest[i]))
      {
        assert rest[i] == sections[i + 1];
        assert Separate(sections[0], sections[i + 1]);
      }
      PlaceElsewhere(next, file, rest, j);
      PlaceSectionHere(image, file, sections[0], j);
      OwnKept(next, PlaceSections(next, file, rest), file, sections[0], j);
    } else {
      assert rest[k - 1] == sections[k];
      PlaceHere(next, file, rest, k - 1, j);
    }
  }

  lemma OwnKept(a: seq<byte>, b: seq<byte>, file: seq<byte>, s: Section, j: nat)
    requires |a| == |b| && j < |a| && a[j] == b[j] && Own(a, file, s, j)
    ensures Own(b, file, s, j)
  {
  }

  predicate SameByte(a: seq<byte>, b: seq<byte>, i: nat, o: nat, j: nat) {
    i + j < |a| && o + j < |b| && a[i + j] == b[o + j]
  }

  lemma SlicesSame(a: seq<byte>, b: seq<byte>, i: nat, o: nat, n: nat)
    requires i + n <= |a| && o + n <= |b|
    requires forall j: nat {:trigger SameByte(a, b, i, o, j)} :: j < n ==> SameByte(a, b, i, o, j)
    ensures a[i..i + n] == b[o..o + n]
  {
    var x, y := a[i..i + n], b[o..o + n];
    forall j {:trigger x[j]} | 0 <= j < n ensures x[j] == y[j] {
      assert SameByte(a, b, i, o, j);
    }
  }

  lemma PlacedByte(file: seq<byte>, layout: Layout, rva: nat, n: nat, k: int, j: nat)
    requires HeadersFit(file, layout) && Tidy(layout.sections, layout.sizeOfHeaders)
    requires BackedBy(file, layout, rva, n, k) && rva <= j < rva + n
    ensures j < layout.sizeOfImage
    ensures Placed(file, layout)[j] == if k < 0 then file[j]
      else file[layout.sections[k].rawPointer + (j - layout.sections[k].virtualAddress)]
  {
    hide PlaceSections;
    var start := Put(Zeros(layout.sizeOfImage), 0, file[..layout.sizeOfHeaders]);
    if k < 0 {
      PlaceElsewhere(start, file, layout.sections, j);
    } else {
      PlaceHere(start, file, layout.sections, k, j);
    }
  }

  lemma SectionOffsetAt(layout: Layout, rva: nat, n: nat, k: nat)
    requires Tidy(layout.sections, layout.sizeOfHeaders) && k < |layout.sections| && n > 0
    requires layout.sections[k].virtualAddress <= rva
      && rva + n <= layout.sections[k].virtualAddress + layout.sections[k].rawSize
    ensures rva < U32_END
      && OffsetOf(layout, rva) == Some(layout.sections[k].rawPointer + (rva - layout.sections[k].virtualAddress))
  {
    SectionOffsetIs(layout.sections, rva, k);
  }

  /** Bytes that come from the file are found at the offset the file view computes. */
  lemma PlacedMatchesFile(file: seq<byte>, layout: Layout, rva: nat, n: nat)
    requires HeadersFit(file, layout) && Tidy(layout.sections, layout.sizeOfHeaders)
    requires Backed(file, layout, rva, n) && n > 0
    ensures Same(file, layout, Placed(file, layout), rva, n)
  {
    hide Placed, SectionOffset, Tidy;
    var k: int :| BackedBy(file, layout, rva, n, k);
    var image := Placed(file, layout);
    if k >= 0 {
      SectionOffsetAt(layout, rva, n, k);
    }
    var o := if k < 0 then rva else layout.sections[k].rawPointer + (rva - layout.sections[k].virtualAddress);
    forall j: nat {:trigger SameByte(image, file, rva, o, j)} | j < n ensures SameByte(image, file, rva, o, j) {
      PlacedByte(file, layout, rva, n, k, rva + j);
    }
    PlacedByte(file, layout, rva, n, k, rva + n - 1);
    SlicesSame(image, file, rva, o, n);
  }

  /** Where the relocations of the image patch nothing. */
  ghost predicate Unrelocated(file: seq<byte>, layout: Layout, relocRva: u32, relocSize: u32, rva: nat, n: nat)
    requires HeadersFit(file, layout)
  {
    AllMiss(Entries(Placed(file, layout), relocRva, relocRva + relocSize), layout.sizeOfImage, false, rva, rva + n)
  }

  /** Relocating does not change what both views show outside the relocated fields. */
  lemma LoadedMatchesFile(file: seq<byte>, layout: Layout, relocRva: u32, relocSize: u32, delta: int, rva: nat, n: nat)
    requires HeadersFit(file, layout) && Tidy(layout.sections, layout.sizeOfHeaders)
    requires WellFormed(Placed(file, layout), relocRva, relocRva + relocSize, false)
    requires Backed(file, layout, rva, n) && n > 0 && Unrelocated(file, layout, relocRva, relocSize, rva, n)
    ensures Same(file, layout, Loaded(file, layout, relocRva, relocSize, delta), rva, n)
  {
    hide Placed, Relocate, Entries, Apply, WellFormed, OffsetOf;
    PlacedMatchesFile(file, layout, rva, n);
    var placed := Placed(file, layout);
    var es := Entries(placed, relocRva, relocRva + relocSize);
    RelocatesListed(placed, relocRva, relocRva + relocSize, delta, false);
    ApplyElsewhere(placed, es, delta, false, rva, rva + n);
    SliceEq(Loaded(file, layout, relocRva, relocSize, delta), placed, rva, rva + n);
  }

  /** Byte `a` belongs to a 64-bit field that is listed and lies in the image. */
  ghost predicate InField(es: seq<Entry>, len: nat, a: nat) {
    exists i :: 0 <= i < |es| && es[i].kind == 10 && es[i].target + 8 <= len && es[i].target <= a < es[i].target + 8
  }

  lemma InFieldIff(es: seq<Entry>, len: nat, a: nat)
    ensures NoneHits(es, len, false, a) <==> !InField(es, len, a)
  {
    if InField(es, len, a) {
      var i :| 0 <= i < |es| && es[i].kind == 10 && es[i].target + 8 <= len && es[i].target <= a < es[i].target + 8;
      assert Hits(es[i], len, false, a, a + 1);
    }
  }

  /**
   The loaded image of a file with a written relocation directory: every 64-bit field that is listed holds what
   the file had there plus delta, and every other byte is as it was placed; the loader knows no 32-bit fields.
   */
  lemma LoadedMoved(file: seq<byte>, layout: Layout, relocRva: u32, relocSize: u32, delta: int, blocks: seq<Block>)
    requires forall i {:trigger blocks[i]} :: 0 <= i < |blocks| ==> Encodable(blocks[i])
    requires HeadersFit(file, layout) && relocRva > 0 && relocSize == |AllBytes(blocks)|
    requires relocRva + relocSize <= layout.sizeOfImage
    requires Placed(file, layout)[relocRva..relocRva + relocSize] == AllBytes(blocks)
    requires FieldsApart(AllFixups(blocks), layout.sizeOfImage, false, relocRva, relocRva + relocSize)
    ensures var es, placed := AllFixups(blocks), Placed(file, layout);
            var r := Loaded(file, layout, relocRva, relocSize, delta);
            && (forall i {:trigger es[i]} :: 0 <= i < |es| && es[i].kind == 10 && es[i].target + 8 <= |placed| ==>
                  Get64(r, es[i].target) == (Get64(placed, es[i].target) + delta) % 0x1_0000_0000_0000_0000)
            && (forall a {:trigger r[a]} :: 0 <= a < |placed| && !InField(es, |placed|, a) ==> r[a] == placed[a])
  {
    hide Placed, Relocate, AllBytes, AllFixups, FieldsApart, Get64, Encodable, NoneHits, InField;
    var es, placed, r := AllFixups(blocks), Placed(file, layout), Loaded(file, layout, relocRva, relocSize, delta);
    if delta != 0 && relocSize != 0 {
      WrittenApplied(placed, relocRva, blocks, delta, false);
      var moved := Relocate(placed, relocRva, relocRva + |AllBytes(blocks)|, delta, false);
      assert r == moved;
      forall i {:trigger es[i]} | 0 <= i < |es| && es[i].kind == 10 && es[i].target + 8 <= |placed|
        ensures Get64(r, es[i].target) == (Get64(placed, es[i].target) + delta) % 0x1_0000_0000_0000_0000
      {
        assert Moved(placed, r, es[i], delta, false);
      }
      forall a {:trigger r[a]} | 0 <= a < |placed| && !InField(es, |placed|, a) ensures r[a] == placed[a] {
        InFieldIff(es, |placed|, a);
        assert NoneHits(AllFixups(blocks), |placed|, false, a);
        assert Relocate(placed, relocRva, relocRva + |AllBytes(blocks)|, delta, false)[a] == placed[a];
      }
    } else if relocSize == 0 {
      NoBytes(blocks);
    }
  }

  lemma NoBytes(blocks: seq<Block>)
    requires forall i {:trigger blocks[i]} :: 0 <= i < |blocks| ==> Encodable(blocks[i])
    requires |AllBytes(blocks)| == 0
    ensures AllFixups(blocks) == []
  {
  }

  /**
   The views differ past the raw data of a section: the image is zero there, while the file view
   reads on into whatever follows the raw data.
   */
  lemma PlacedZeroPastRaw(file: seq<byte>, layout: Layout, k: nat, rva: nat)
    requires HeadersFit(file, layout) && Tidy(layout.sections, layout.sizeOfHeaders) && k < |layout.sections|
    requires var s := layout.sections[k];
             && s.rawPointer + s.rawSize <= |file| && s.virtualAddress + s.virtualSize <= layout.sizeOfImage
             && s.virtualAddress + s.rawSize <= rva < s.virtualAddress + s.virtualSize
    ensures Placed(file, layout)[rva] == 0
    ensures OffsetOf(layout, rva) == Some(layout.sections[k].rawPointer + (rva - layout.sections[k].virtualAddress))
  {
    hide PlaceSections;
    SectionOffsetIs(layout.sections, rva, k);
    PlaceHere(Put(Zeros(layout.sizeOfImage), 0, file[..layout.sizeOfHeaders]), file, layout.sections, k, rva);
  }
}
