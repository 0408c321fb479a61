/** Base relocations, applied to a loaded image in place while the relocation blocks are read from it. */
module Relocations {
  import opened Bytes

  const HIGHLOW: nat := 3
  const DIR64: nat := 10

  /** One relocation: its type and the address it patches. */
  datatype Entry = Entry(kind: nat, target: nat)

  /** How many bytes of an image the entry changes; `high` says whether 32-bit relocations are handled. */
  function Width(e: Entry, len: nat, high: bool): nat {
    if e.kind == DIR64 && e.target + 8 <= len then 8
    else if high && e.kind == HIGHLOW && e.target + 4 <= len then 4
    else 0
  }

  /** The image with `delta` added at the entry's target, modulo the width of the field. */
  function Add(image: seq<byte>, e: Entry, delta: int, high: bool): (r: seq<byte>)
    ensures |r| == |image|
    ensures forall j :: 0 <= j < |image| && !(e.target <= j < e.target + Width(e, |image|, high)) ==> r[j] == image[j]
  {
    if Width(e, |image|, high) == 8 then Put(image, e.target, LE64((Get64(image, e.target) + delta) % U64_END))
    else if Width(e, |image|, high) == 4 then Put(image, e.target, LE32((Get32(image, e.target) + delta) % U32_END))
    else image
  }

  function EntryAt(image: seq<byte>, at: nat, blockRva: u32): Entry
    requires at + 2 <= |image|
  {
    var w := Get16(image, at);
    Entry(w / 0x1000, (blockRva + w % 0x1000) % U32_END)
  }

  // ------------------------------------------------------------------ what the loops do

  function RelocateBlock(image: seq<byte>, at: nat, n: nat, blockRva: u32, delta: int, high: bool): (r: seq<byte>)
    ensures |r| == |image|
    decreases n
  {
    if n == 0 || at + 2 > |image| then image
    else RelocateBlock(Add(image, EntryAt(image, at, blockRva), delta, high), at + 2, n - 1, blockRva, delta, high)
  }

  function Relocate(image: seq<byte>, offset: nat, end: nat, delta: int, high: bool): (r: seq<byte>)
    ensures |r| == |image|
    decreases end - offset
  {
    if offset + 8 > end || offset + 8 > |image| then image
    else
      var blockRva, blockSize := Get32(image, offset), Get32(image, offset + 4);
      if blockSize < 8 then image
      else Relocate(RelocateBlock(image, offset + 8, (blockSize - 8) / 2, blockRva, delta, high), offset + blockSize,
                    end, delta, high)
  }

  /** `image[at..at + |b|].copy_from_slice(b)`. */
  method WriteBytes(image: array<byte>, at: nat, b: seq<byte>)
    requires at + |b| <= image.Length
    modifies image
    ensures image[..] == Put(old(image[..]), at, b)
  {
    forall j | 0 <= j < |b| {
      image[at + j] := b[j];
    }
  }

  method RelocateEntry(image: array<byte>, e: Entry, delta: int, high: bool)
    modifies image
    ensures image[..] == Add(old(image[..]), e, delta, high)
  {
    hide Get64, Get32, LE64, LE32, Put;
    if e.kind == DIR64 {
      if e.target + 8 <= image.Length {
        WriteBytes(image, e.target, LE64((Get64(image[..], e.target) + delta) % U64_END));
      }
    } else if high && e.kind == HIGHLOW {
      if e.target + 4 <= image.Length {
        WriteBytes(image, e.target, LE32((Get32(image[..], e.target) + delta) % U32_END));
      }
    }
  }

  /** The entries of one block, from `at` on. */
  method RelocateEntries(image: array<byte>, at: nat, entries: nat, blockRva: u32, delta: int, high: bool)
    modifies image
    ensures image[..] == RelocateBlock(old(image[..]), at, entries, blockRva, delta, high)
  {
    hide EntryAt, Add;
    var i := 0;
    while i < entries
      invariant 0 <= i <= entries
      invariant RelocateBlock(image[..], at + 2 * i, entries - i, blockRva, delta, high)
             == RelocateBlock(old(image[..]), at, entries, blockRva, delta, high)
    {
      if at + i * 2 + 2 > image.Length {
        break;
      }
      var e := EntryAt(image[..], at + i * 2, blockRva);
      RelocateEntry(image, e, delta, high);
      i := i + 1;
    }
  }

  /** Relocates an image in place, reading the blocks out of the image that is being changed. */
  method ApplyRelocations(image: array<byte>, rva: u32, size: u32, delta: int, high: bool)
    modifies image
    ensures image[..] == if rva == 0 || size == 0 then old(image[..])
      else Relocate(old(image[..]), rva, rva + size, delta, high)
  {
    hide Get32, RelocateBlock;
    if rva == 0 || size == 0 {
      return;
    }
    var offset: nat, end: nat := rva, rva + size;
    while offset + 8 <= end && offset + 8 <= image.Length
      invariant Relocate(image[..], offset, end, delta, high) == Relocate(old(image[..]), rva, rva + size, delta, high)
      decreases end - offset
    {
      var blockRva, blockSize := Get32(image[..], offset), Get32(image[..], offset + 4);
      if blockSize < 8 {
        break;
      }
      RelocateEntries(image, offset + 8, (blockSize - 8) / 2, blockRva, delta, high);
      offset := offset + blockSize;
    }
  }

  // ------------------------------------------------------------------ what the blocks list

  function BlockEntries(image: seq<byte>, at: nat, n: nat, blockRva: u32): seq<Entry>
    decreases n
  {
    if n == 0 || at + 2 > |image| then []
    else [EntryAt(image, at, blockRva)] + BlockEntries(image, at + 2, n - 1, blockRva)
  }

  function Entries(image: seq<byte>, offset: nat, end: nat): seq<Entry>
    decreases end - offset
  {
    if offset + 8 > end || offset + 8 > |image| then []
    else
      var blockRva, blockSize := Get32(image, offset), Get32(image, offset + 4);
      if blockSize < 8 then []
      else BlockEntries(image, offset + 8, (blockSize - 8) / 2, blockRva) + Entries(image, offset + blockSize, end)
  }

  /** The end of what is read of the blocks. */
  function Stop(image: seq<byte>, offset: nat, end: nat): (stop: nat)
    ensures offset <= stop
    decreases end - offset
  {
    if offset + 8 > end || offset + 8 > |image| then offset
    else
      var blockSize := Get32(image, offset + 4);
      if blockSize < 8 then offset + 8 else Stop(image, offset + blockSize, end)
  }

  function Apply(image: seq<byte>, es: seq<Entry>, delta: int, high: bool): (r: seq<byte>)
    ensures |r| == |image|
    decreases |es|
  {
    if es == [] then image else Apply(Add(image, es[0], delta, high), es[1..], delta, high)
  }

  /** The two entries are the same or patch different bytes. */
  predicate Apart(e: Entry, f: Entry, len: nat, high: bool) {
    e == f || e.target + Width(e, len, high) <= f.target || f.target + Width(f, len, high) <= e.target
    || Width(e, len, high) == 0 || Width(f, len, high) == 0
  }

  ghost predicate AllApart(es: seq<Entry>, len: nat, high: bool) {
    forall e, f {:trigger Apart(e, f, len, high)} :: e in es && f in es ==> Apart(e, f, len, high)
  }

  predicate Misses(e: Entry, len: nat, high: bool, lo: nat, hi: nat) {
    Width(e, len, high) == 0 || e.target + Width(e, len, high) <= lo || hi <= e.target
  }

  ghost predicate AllMiss(es: seq<Entry>, len: nat, high: bool, lo: nat, hi: nat) {
    forall e {:trigger Misses(e, len, high, lo, hi)} :: e in es ==> Misses(e, len, high, lo, hi)
  }

  /** Targets are equal or disjoint, and none lies in the relocation blocks. */
  ghost predicate WellFormed(image: seq<byte>, rva: nat, end: nat, high: bool) {
    var es := Entries(image, rva, end);
    AllApart(es, |image|, high) && AllMiss(es, |image|, high, rva, Stop(image, rva, end))
  }

  ghost predicate Agree(a: seq<byte>, b: seq<byte>, lo: nat, hi: nat) {
    |a| == |b| && forall j {:trigger a[j]} {:trigger b[j]} :: lo <= j < hi && j < |a| ==> a[j] == b[j]
  }

  // ------------------------------------------------------------------ the blocks are read before they change

  lemma {:induction false} ApplyAppend(image: seq<byte>, es: seq<Entry>, fs: seq<Entry>, delta: int, high: bool)
    ensures Apply(image, es + fs, delta, high) == Apply(Apply(image, es, delta, high), fs, delta, high)
    decreases |es|
  {
    if es == [] {
      assert es + fs == fs;
    } else {
      assert (es + fs)[1..] == es[1..] + fs;
      ApplyAppend(Add(image, es[0], delta, high), es[1..], fs, delta, high);
    }
  }

  lemma AgreeGet16(a: seq<byte>, b: seq<byte>, lo: nat, hi: nat, at: nat)
    requires Agree(a, b, lo, hi) && lo <= at && at + 2 <= hi && at + 2 <= |a|
    ensures Get16(a, at) == Get16(b, at)
  {
  }

  lemma AgreeGet32(a: seq<byte>, b: seq<byte>, lo: nat, hi: nat, at: nat)
    requires Agree(a, b, lo, hi) && lo <= at && at + 4 <= hi && at + 4 <= |a|
    ensures Get32(a, at) == Get32(b, at)
  {
  }

  lemma {:induction false} BlockIsApply(cur: seq<byte>, orig: seq<byte>, at: nat, n: nat, blockRva: u32, delta: int,
                                        high: bool, lo: nat, hi: nat)
    requires Agree(cur, orig, lo, hi) && lo <= at && at + 2 * n <= hi
    requires AllMiss(BlockEntries(orig, at, n, blockRva), |orig|, high, lo, hi)
    ensures RelocateBlock(cur, at, n, blockRva, delta, high)
      == Apply(cur, BlockEntries(orig, at, n, blockRva), delta, high)
    ensures Agree(RelocateBlock(cur, at, n, blockRva, delta, high), orig, lo, hi)
    decreases n
  {
    hide Get16, Get32, Get64, Add, Width;
    if n == 0 || |orig| < at + 2 {
    } else {
      var es := BlockEntries(orig, at, n, blockRva);
      AgreeGet16(cur, orig, lo, hi, at);
      assert Misses(es[0], |orig|, high, lo, hi);
      assert es[1..] == BlockEntries(orig, at + 2, n - 1, blockRva);
      forall e | e in es[1..] ensures Misses(e, |orig|, high, lo, hi) {
        assert e in es;
      }
      BlockIsApply(Add(cur, es[0], delta, high), orig, at + 2, n - 1, blockRva, delta, high, lo, hi);
    }
  }

  lemma {:induction false} RelocateIsApply(cur: seq<byte>, orig: seq<byte>, offset: nat, end: nat, delta: int,
                                           high: bool, lo: nat, hi: nat)
    requires Agree(cur, orig, lo, hi) && lo <= offset && Stop(orig, offset, end) <= hi
    requires AllMiss(Entries(orig, offset, end), |orig|, high, lo, hi)
    ensures Relocate(cur, offset, end, delta, high) == Apply(cur, Entries(orig, offset, end), delta, high)
    ensures Agree(Relocate(cur, offset, end, delta, high), orig, lo, hi)
    decreases end - offset
  {
    hide Get16, Get32, Get64, Add, Width, BlockEntries, RelocateBlock, Misses;
    if end < offset + 8 || |orig| < offset + 8 {
    } else {
      AgreeGet32(cur, orig, lo, hi, offset);
      AgreeGet32(cur, orig, lo, hi, offset + 4);
      var blockRva, blockSize := Get32(orig, offset), Get32(orig, offset + 4);
      if blockSize >= 8 {
        var es, fs := BlockEntries(orig, offset + 8, (blockSize - 8) / 2, blockRva),
          Entries(orig, offset + blockSize, end);
        forall e | e in es ensures Misses(e, |orig|, high, lo, hi) {
          assert e in es + fs;
        }
        forall e | e in fs ensures Misses(e, |orig|, high, lo, hi) {
          assert e in es + fs;
        }
        BlockIsApply(cur, orig, offset + 8, (blockSize - 8) / 2, blockRva, delta, high, lo, hi);
        var next := RelocateBlock(cur, offset + 8, (blockSize - 8) / 2, blockRva, delta, high);
        RelocateIsApply(next, orig, offset + blockSize, end, delta, high, lo, hi);
        ApplyAppend(cur, es, fs, delta, high);
      }
    }
  }

  lemma {:induction false} SameBlockEntries(a: seq<byte>, b: seq<byte>, at: nat, n: nat, blockRva: u32, lo: nat,
                                            hi: nat)
    requires Agree(a, b, lo, hi) && lo <= at && at + 2 * n <= hi
    ensures BlockEntries(a, at, n, blockRva) == BlockEntries(b, at, n, blockRva)
    decreases n
  {
    hide Get16, Get32, Get64, Add, Width;
    if n == 0 || |a| < at + 2 {
    } else {
      AgreeGet16(a, b, lo, hi, at);
      SameBlockEntries(a, b, at + 2, n - 1, blockRva, lo, hi);
    }
  }

  /** Images that agree on the blocks list the same relocations. */
  lemma {:induction false} SameEntries(a: seq<byte>, b: seq<byte>, offset: nat, end: nat, lo: nat, hi: nat)
    requires Agree(a, b, lo, hi) && lo <= offset && Stop(b, offset, end) <= hi
    ensures Entries(a, offset, end) == Entries(b, offset, end) && Stop(a, offset, end) == Stop(b, offset, end)
    decreases end - offset
  {
    hide Get16, Get32, Get64, BlockEntries;
    if end < offset + 8 || |b| < offset + 8 {
    } else {
      AgreeGet32(a, b, lo, hi, offset);
      AgreeGet32(a, b, lo, hi, offset + 4);
      var blockRva, blockSize := Get32(b, offset), Get32(b, offset + 4);
      if blockSize >= 8 {
        SameBlockEntries(a, b, offset + 8, (blockSize - 8) / 2, blockRva, lo, hi);
        SameEntries(a, b, offset + blockSize, end, lo, hi);
      }
    }
  }

  /** On a well-formed image, relocating in place is one addition per listed entry, and the list stays as it was. */
  lemma RelocatesListed(image: seq<byte>, rva: nat, end: nat, delta: int, high: bool)
    requires WellFormed(image, rva, end, high)
    ensures Relocate(image, rva, end, delta, high) == Apply(image, Entries(image, rva, end), delta, high)
    ensures Entries(Relocate(image, rva, end, delta, high), rva, end) == Entries(image, rva, end)
    ensures WellFormed(Relocate(image, rva, end, delta, high), rva, end, high)
  {
    var stop := Stop(image, rva, end);
    RelocateIsApply(image, image, rva, end, delta, high, rva, stop);
    SameEntries(Relocate(image, rva, end, delta, high), image, rva, end, rva, stop);
  }

  // ------------------------------------------------------------------ the algebra of additions

  /** Adding twice at one place. */
  lemma AddTwice(image: seq<byte>, e: Entry, d1: int, d2: int, high: bool)
    ensures Add(Add(image, e, d1, high), e, d2, high) == Add(image, e, d1 + d2, high)
  {
    hide Get64, Get32, Put, LE64, LE32;
    var t, r := e.target, Add(Add(image, e, d1, high), e, d2, high);
    if Width(e, |image|, high) == 8 {
      PutGet64(image, t, (Get64(image, t) + d1) % U64_END);
      ModSum(Get64(image, t), d1, d2, U64_END);
    } else if Width(e, |image|, high) == 4 {
      PutGet32(image, t, (Get32(image, t) + d1) % U32_END);
      ModSum(Get32(image, t), d1, d2, U32_END);
    }
    assert r == Add(image, e, d1 + d2, high);
  }

  lemma ModSum(v: int, a: int, b: int, m: nat)
    requires m == U32_END || m == U64_END
    ensures ((v + a) % m + b) % m == (v + (a + b)) % m
  {
  }

  lemma AddZero(image: seq<byte>, e: Entry, high: bool)
    ensures Add(image, e, 0, high) == image
  {
    hide Get64, Get32, Put, LE64, LE32;
    var t := e.target;
    if Width(e, |image|, high) == 8 {
      LE64OfGet(image, t);
      assert Put(image, t, image[t..t + 8]) == image;
    } else if Width(e, |image|, high) == 4 {
      LE32OfGet(image, t);
      assert Put(image, t, image[t..t + 4]) == image;
    }
  }

  /** What is added elsewhere does not matter for the field read. */
  lemma GetAfter(image: seq<byte>, e: Entry, f: Entry, d: int, high: bool)
    requires e != f && Apart(e, f, |image|, high)
    ensures Width(f, |image|, high) == 8 ==> Get64(Add(image, e, d, high), f.target) == Get64(image, f.target)
    ensures Width(f, |image|, high) == 4 ==> Get32(Add(image, e, d, high), f.target) == Get32(image, f.target)
  {
  }

  /** The bytes written for `e` stay when `f` is added elsewhere. */
  lemma PutAgain(image: seq<byte>, e: Entry, f: Entry, d1: int, d2: int, high: bool)
    requires e != f && Apart(e, f, |image|, high)
    ensures var we := Width(e, |image|, high);
            var r := Add(Add(image, e, d1, high), f, d2, high);
            && (we == 8 ==> r[e.target..e.target + 8] == LE64((Get64(image, e.target) + d1) % U64_END))
            && (we == 4 ==> r[e.target..e.target + 4] == LE32((Get32(image, e.target) + d1) % U32_END))
            && (we == 0 ==> r == Add(image, f, d2, high))
  {
    hide Get64, Get32, LE64, LE32;
  }

  lemma AddCommutes(image: seq<byte>, e: Entry, f: Entry, d1: int, d2: int, high: bool)
    requires Apart(e, f, |image|, high)
    ensures Add(Add(image, e, d1, high), f, d2, high) == Add(Add(image, f, d2, high), e, d1, high)
  {
    hide Get64, Get32, Put, LE64, LE32;
    if e == f {
      AddTwice(image, e, d1, d2, high);
      AddTwice(image, e, d2, d1, high);
    } else {
      GetAfter(image, e, f, d1, high);
      GetAfter(image, f, e, d2, high);
      var x, y := Add(Add(image, e, d1, high), f, d2, high), Add(Add(image, f, d2, high), e, d1, high);
      PutAgain(image, e, f, d1, d2, high);
      PutAgain(image, f, e, d2, d1, high);
      assert x == y;
    }
  }

  lemma {:induction false} AddPast(image: seq<byte>, e: Entry, es: seq<Entry>, d1: int, d2: int, high: bool)
    requires forall f {:trigger Apart(e, f, |image|, high)} :: f in es ==> Apart(e, f, |image|, high)
    ensures Apply(Add(image, e, d1, high), es, d2, high) == Add(Apply(image, es, d2, high), e, d1, high)
    decreases |es|
  {
    if es == [] {
    } else {
      assert Apart(e, es[0], |image|, high);
      AddCommutes(image, e, es[0], d1, d2, high);
      AddPast(Add(image, es[0], d2, high), e, es[1..], d1, d2, high);
    }
  }

  /** Adding d1 everywhere and then d2 everywhere is adding d1 + d2 everywhere. */
  lemma {:induction false} ApplyTwice(image: seq<byte>, es: seq<Entry>, d1: int, d2: int, high: bool)
    requires AllApart(es, |image|, high)
    ensures Apply(Apply(image, es, d1, high), es, d2, high) == Apply(image, es, d1 + d2, high)
    decreases |es|
  {
    if es == [] {
    } else {
      var e, rest := es[0], es[1..];
      var a := Add(image, e, d1, high);
      forall f | f in rest ensures Apart(e, f, |image|, high) {
        assert f in es;
      }
      AddPast(a, e, rest, d2, d1, high);
      AddTwice(image, e, d1, d2, high);
      assert Add(Apply(a, rest, d1, high), e, d2, high) == Apply(Add(a, e, d2, high), rest, d1, high);
      ApplyTwice(Add(image, e, d1 + d2, high), rest, d1, d2, high);
    }
  }

  lemma {:induction false} ApplyZero(image: seq<byte>, es: seq<Entry>, high: bool)
    ensures Apply(image, es, 0, high) == image
    decreases |es|
  {
    if es == [] {
    } else {
      AddZero(image, es[0], high);
      ApplyZero(image, es[1..], high);
    }
  }

  // ------------------------------------------------------------------ results

  /** Moving an image twice is moving it once by the sum. */
  lemma RelocateTwice(image: seq<byte>, rva: nat, end: nat, d1: int, d2: int, high: bool)
    requires WellFormed(image, rva, end, high)
    ensures Relocate(Relocate(image, rva, end, d1, high), rva, end, d2, high)
      == Relocate(image, rva, end, d1 + d2, high)
  {
    hide Relocate, Entries, Apply, WellFormed;
    var once := Relocate(image, rva, end, d1, high);
    RelocatesListed(image, rva, end, d1, high);
    RelocatesListed(once, rva, end, d2, high);
    RelocatesListed(image, rva, end, d1 + d2, high);
    ApplyTwice(image, Entries(image, rva, end), d1, d2, high);
  }

  /** Moving an image back restores it. */
  lemma RelocateBack(image: seq<byte>, rva: nat, end: nat, delta: int, high: bool)
    requires WellFormed(image, rva, end, high)
    ensures Relocate(Relocate(image, rva, end, delta, high), rva, end, -delta, high) == image
  {
    hide Relocate, Entries, Apply, WellFormed;
    RelocateTwice(image, rva, end, delta, -delta, high);
    RelocatesListed(image, rva, end, 0, high);
    ApplyZero(image, Entries(image, rva, end), high);
  }

  /** What the list adds up to at the target of `e`. */
  function SumAt(es: seq<Entry>, e: Entry, delta: int): int
    decreases |es|
  {
    if es == [] then 0 else SumAt(es[1..], e, delta) + if es[0] == e then delta else 0
  }

  lemma {:induction false} SumIs(es: seq<Entry>, e: Entry, delta: int)
    ensures SumAt(es, e, delta) == delta * multiset(es)[e]
    decreases |es|
  {
    if es == [] {
      assert multiset(es)[e] == 0;
    } else {
      assert es == [es[0]] + es[1..];
      SumIs(es[1..], e, delta);
      var k := multiset(es[1..])[e];
      assert delta + delta * k == delta * (k + 1);
    }
  }

  lemma AddAtTarget(image: seq<byte>, e: Entry, f: Entry, delta: int, high: bool)
    requires Apart(f, e, |image|, high) && Width(e, |image|, high) == 8
    ensures Get64(Add(image, f, delta, high), e.target) == if f == e then (Get64(image, e.target) + delta) % U64_END
      else Get64(image, e.target)
  {
    hide Get64, Get32, Put, LE64, LE32;
    if f == e {
      PutGet64(image, e.target, (Get64(image, e.target) + delta) % U64_END);
    } else {
      GetAfter(image, f, e, delta, high);
    }
  }

  lemma {:induction false} BlockByNothing(image: seq<byte>, at: nat, n: nat, blockRva: u32, high: bool)
    ensures RelocateBlock(image, at, n, blockRva, 0, high) == image
    decreases n
  {
    hide Add, EntryAt;
    if n == 0 || |image| < at + 2 {
    } else {
      AddZero(image, EntryAt(image, at, blockRva), high);
      BlockByNothing(image, at + 2, n - 1, blockRva, high);
    }
  }

  /** An image already at its base is left as it is, whatever its blocks say: skipping it is no loss. */
  lemma {:induction false} RelocateByNothing(image: seq<byte>, offset: nat, end: nat, high: bool)
    ensures Relocate(image, offset, end, 0, high) == image
    decreases end - offset
  {
    hide Get32, RelocateBlock;
    if offset + 8 <= end && offset + 8 <= |image| && Get32(image, offset + 4) >= 8 {
      var blockRva, blockSize := Get32(image, offset), Get32(image, offset + 4);
      BlockByNothing(image, offset + 8, (blockSize - 8) / 2, blockRva, high);
      RelocateByNothing(image, offset + blockSize, end, high);
    }
  }

  /** Each 64-bit target moves by delta once per listed entry, modulo 2^64. */
  lemma {:induction false} ApplyAtTarget(image: seq<byte>, es: seq<Entry>, e: Entry, delta: int, high: bool)
    requires forall f {:trigger Apart(f, e, |image|, high)} :: f in es ==> Apart(f, e, |image|, high)
    requires Width(e, |image|, high) == 8
    ensures Get64(Apply(image, es, delta, high), e.target) == (Get64(image, e.target) + SumAt(es, e, delta)) % U64_END
    decreases |es|
  {
    hide Get64, Add, Apart;
    if es == [] {
    } else {
      var f, rest := es[0], es[1..];
      assert f in es;
      AddAtTarget(image, e, f, delta, high);
      ApplyAtTarget(Add(image, f, delta, high), rest, e, delta, high);
      if f == e {
        ModSum(Get64(image, e.target), delta, SumAt(rest, e, delta), U64_END);
      }
    }
  }

  /** Bytes of no target are left alone. */
  lemma {:induction false} ApplyElsewhere(image: seq<byte>, es: seq<Entry>, delta: int, high: bool, lo: nat, hi: nat)
    requires AllMiss(es, |image|, high, lo, hi)
    ensures Agree(Apply(image, es, delta, high), image, lo, hi)
    decreases |es|
  {
    if es == [] {
    } else {
      assert Misses(es[0], |image|, high, lo, hi);
      ApplyElsewhere(Add(image, es[0], delta, high), es[1..], delta, high, lo, hi);
    }
  }

  /** Relocation adds delta to each target once per listed entry and changes no other byte. */
  lemma RelocateMeaning(image: seq<byte>, rva: nat, end: nat, delta: int, high: bool)
    requires WellFormed(image, rva, end, high)
    ensures var es := Entries(image, rva, end);
            var r := Relocate(image, rva, end, delta, high);
            && (forall e {:trigger multiset(es)[e]} :: e in es && Width(e, |image|, high) == 8 ==>
                  Get64(r, e.target) == (Get64(image, e.target) + delta * multiset(es)[e]) % U64_END)
            && (forall j {:trigger r[j]} ::
              0 <= j < |image| && AllMiss(es, |image|, high, j, j + 1) ==> r[j] == image[j])
  {
    hide Relocate, Entries, Apply, Get64, Apart;
    var es := Entries(image, rva, end);
    var r := Relocate(image, rva, end, delta, high);
    RelocatesListed(image, rva, end, delta, high);
    forall e {:trigger multiset(es)[e]} | e in es && Width(e, |image|, high) == 8
      ensures Get64(r, e.target) == (Get64(image, e.target) + delta * multiset(es)[e]) % U64_END
    {
      forall f | f in es ensures Apart(f, e, |image|, high) {
      }
      ApplyAtTarget(image, es, e, delta, high);
      SumIs(es, e, delta);
    }
    forall j {:trigger r[j]} | 0 <= j < |image| && AllMiss(es, |image|, high, j, j + 1) ensures r[j] == image[j] {
      ApplyElsewhere(image, es, delta, high, j, j + 1);
    }
  }

  /** The two loaders agree on images without 32-bit relocations, also where targets overlap. */
  lemma {:induction false} LoadersAgree(image: seq<byte>, rva: nat, end: nat, delta: int)
    requires AllMiss(Entries(image, rva, end), |image|, true, rva, Stop(image, rva, end))
    requires forall e :: e in Entries(image, rva, end) ==> e.kind != HIGHLOW
    ensures Relocate(image, rva, end, delta, true) == Relocate(image, rva, end, delta, false)
  {
    var es, stop := Entries(image, rva, end), Stop(image, rva, end);
    forall e | e in es ensures Misses(e, |image|, false, rva, stop) {
      assert Misses(e, |image|, true, rva, stop);
    }
    RelocateIsApply(image, image, rva, end, delta, true, rva, stop);
    RelocateIsApply(image, image, rva, end, delta, false, rva, stop);
    ApplyAgree(image, es, delta);
  }

  lemma {:induction false} ApplyAgree(image: seq<byte>, es: seq<Entry>, delta: int)
    requires forall e :: e in es ==> e.kind != HIGHLOW
    ensures Apply(image, es, delta, true) == Apply(image, es, delta, false)
    decreases |es|
  {
    if es == [] {
    } else {
      ApplyAgree(Add(image, es[0], delta, true), es[1..], delta);
    }
  }

  // ------------------------------------------------------------------ the format of the blocks

  /** A relocation as a tool writes it: its type and its place within the page. */
  datatype Fixup = Fixup(kind: nat, place: nat)

  /** The relocations of one page. */
  datatype Block = Block(page: u32, fixups: seq<Fixup>)

  predicate Encodable(b: Block) {
    && 8 + 2 * |b.fixups| < 0x1_0000_0000
    && forall i {:trigger b.fixups[i]} :: 0 <= i < |b.fixups| ==> b.fixups[i].kind < 16 && b.fixups[i].place < 0x1000
  }

  /** Each one is 16 bits: the type in the upper four, the place in the lower twelve. */
  function FixupBytes(fixups: seq<Fixup>): (b: seq<byte>)
    requires forall i {:trigger fixups[i]} :: 0 <= i < |fixups| ==> fixups[i].kind < 16 && fixups[i].place < 0x1000
    ensures |b| == 2 * |fixups|
  {
    if fixups == [] then [] else LE16(fixups[0].kind * 0x1000 + fixups[0].place) + FixupBytes(fixups[1..])
  }

  /** The page, the size of the whole block, and the relocations. */
  function BlockBytes(b: Block): (e: seq<byte>)
    requires Encodable(b)
    ensures |e| == 8 + 2 * |b.fixups|
  {
    LE32(b.page) + LE32(8 + 2 * |b.fixups|) + FixupBytes(b.fixups)
  }

  function AllBytes(blocks: seq<Block>): seq<byte>
    requires forall i {:trigger blocks[i]} :: 0 <= i < |blocks| ==> Encodable(blocks[i])
  {
    if blocks == [] then [] else BlockBytes(blocks[0]) + AllBytes(blocks[1..])
  }

  /** The relocations of a page and where they apply; addresses wrap at 32 bits. */
  function FixupsAt(page: u32, fixups: seq<Fixup>): (es: seq<Entry>)
    ensures |es| == |fixups|
  {
    seq(|fixups|, i requires 0 <= i < |fixups| =>
      Entry(fixups[i].kind, (page + fixups[i].place) % 0x1_0000_0000))
  }

  function AllFixups(blocks: seq<Block>): seq<Entry> {
    if blocks == [] then [] else FixupsAt(blocks[0].page, blocks[0].fixups) + AllFixups(blocks[1..])
  }

  lemma WordIs(image: seq<byte>, at: nat, page: u32, f: Fixup)
    requires at + 2 <= |image| && f.kind < 16 && f.place < 0x1000
    requires image[at..at + 2] == LE16(f.kind * 0x1000 + f.place)
    ensures EntryAt(image, at, page) == Entry(f.kind, (page + f.place) % 0x1_0000_0000)
  {
    hide LE16, Get16;
    Get16OfLE(image, at, f.kind * 0x1000 + f.place);
    TypeAndPlace(f.kind, f.place);
  }

  lemma TypeAndPlace(kind: nat, place: nat)
    requires place < 0x1000
    ensures (kind * 0x1000 + place) / 0x1000 == kind && (kind * 0x1000 + place) % 0x1000 == place
  {
  }

  lemma {:induction false} BlockDecodes(image: seq<byte>, at: nat, page: u32, fixups: seq<Fixup>)
    requires forall i {:trigger fixups[i]} :: 0 <= i < |fixups| ==> fixups[i].kind < 16 && fixups[i].place < 0x1000
    requires at + 2 * |fixups| <= |image| && image[at..at + 2 * |fixups|] == FixupBytes(fixups)
    ensures BlockEntries(image, at, |fixups|, page) == FixupsAt(page, fixups)
    decreases |fixups|
  {
    hide EntryAt, LE16;
    if fixups == [] {
    } else {
      var n, rest := 2 * |fixups|, fixups[1..];
      assert image[at..at + 2] == image[at..at + n][..2];
      assert image[at + 2..at + 2 + 2 * |rest|] == image[at..at + n][2..];
      WordIs(image, at, page, fixups[0]);
      BlockDecodes(image, at + 2, page, rest);
      assert FixupsAt(page, fixups) == [FixupsAt(page, fixups)[0]] + FixupsAt(page, rest);
    }
  }

  /** The relocations read from a written directory are those that were written, in their order. */
  lemma {:induction false} DirectoryDecodes(image: seq<byte>, at: nat, blocks: seq<Block>)
    requires forall i {:trigger blocks[i]} :: 0 <= i < |blocks| ==> Encodable(blocks[i])
    requires at + |AllBytes(blocks)| <= |image| && image[at..at + |AllBytes(blocks)|] == AllBytes(blocks)
    ensures Entries(image, at, at + |AllBytes(blocks)|) == AllFixups(blocks)
    ensures Stop(image, at, at + |AllBytes(blocks)|) == at + |AllBytes(blocks)|
    decreases |blocks|
  {
    hide LE32, Get32, FixupBytes, BlockEntries;
    if blocks == [] {
    } else {
      var b, rest := blocks[0], blocks[1..];
      var n := 8 + 2 * |b.fixups|;
      BlockParts(image, at, b, AllBytes(rest));
      hide BlockBytes;
      Get32OfLE(image, at, b.page);
      Get32OfLE(image, at + 4, n);
      BlockDecodes(image, at + 8, b.page, b.fixups);
      DirectoryDecodes(image, at + n, rest);
    }
  }

  lemma BlockParts(image: seq<byte>, at: nat, b: Block, rest: seq<byte>)
    requires Encodable(b) && at + 8 + 2 * |b.fixups| + |rest| <= |image|
    requires image[at..at + 8 + 2 * |b.fixups| + |rest|] == BlockBytes(b) + rest
    ensures var n := 8 + 2 * |b.fixups|;
            && image[at..at + 4] == LE32(b.page) && image[at + 4..at + 8] == LE32(n)
            && image[at + 8..at + n] == FixupBytes(b.fixups) && image[at + n..at + n + |rest|] == rest
  {
    hide LE32, FixupBytes;
    var n := 8 + 2 * |b.fixups|;
    var all := BlockBytes(b) + rest;
    SliceOfSlice(image, at, at + n + |rest|, 0, 4);
    SliceOfSlice(image, at, at + n + |rest|, 4, 8);
    SliceOfSlice(image, at, at + n + |rest|, 8, n);
    SliceOfSlice(image, at, at + n + |rest|, n, n + |rest|);
    assert all[0..4] == LE32(b.page) && all[4..8] == LE32(n) && all[8..n] == FixupBytes(b.fixups)
      && all[n..n + |rest|] == rest;
  }

  /** How many bytes a relocation moves: eight for type 10, four for type 3 where it is known, none for padding. */
  function FieldSize(kind: nat, high: bool): nat {
    if kind == 10 then 8 else if kind == 3 && high then 4 else 0
  }

  /** The relocation moves bytes of the image, and those from `lo` to `hi` are among them. */
  predicate Hits(e: Entry, len: nat, high: bool, lo: nat, hi: nat) {
    var n := FieldSize(e.kind, high);
    n > 0 && e.target + n <= len && e.target < hi && lo < e.target + n
  }

  ghost predicate NoneHits(es: seq<Entry>, len: nat, high: bool, a: nat) {
    forall i {:trigger es[i]} :: 0 <= i < |es| ==> !Hits(es[i], len, high, a, a + 1)
  }

  /** No field is listed twice or overlaps another one, and none lies in the directory. */
  ghost predicate FieldsApart(es: seq<Entry>, len: nat, high: bool, rva: nat, end: nat) {
    && (forall i, j {:trigger es[i], es[j]} ::
          0 <= i < j < |es| && es[i].target + FieldSize(es[i].kind, high) <= len ==>
            !Hits(es[j], len, high, es[i].target, es[i].target + FieldSize(es[i].kind, high)))
    && forall i {:trigger es[i]} :: 0 <= i < |es| ==> !Hits(es[i], len, high, rva, end)
  }

  lemma HitsWidth(e: Entry, len: nat, high: bool, lo: nat, hi: nat)
    ensures lo < hi ==> (Misses(e, len, high, lo, hi) <==> !Hits(e, len, high, lo, hi))
    ensures Width(e, len, high) == if e.target + FieldSize(e.kind, high) <= len then FieldSize(e.kind, high) else 0
  {
  }

  lemma OthersMiss(es: seq<Entry>, len: nat, high: bool, i: nat, j: nat)
    requires i < |es| && j < |es| && i != j && FieldsApart(es, len, high, 0, 0)
    requires Width(es[i], len, high) > 0
    ensures Misses(es[j], len, high, es[i].target, es[i].target + Width(es[i], len, high))
  {
    HitsWidth(es[i], len, high, es[j].target, es[j].target + FieldSize(es[j].kind, high));
    HitsWidth(es[j], len, high, es[i].target, es[i].target + FieldSize(es[i].kind, high));
    if i < j {
      assert !Hits(es[j], len, high, es[i].target, es[i].target + FieldSize(es[i].kind, high));
    } else if es[j].target + FieldSize(es[j].kind, high) <= len {
      assert !Hits(es[i], len, high, es[j].target, es[j].target + FieldSize(es[j].kind, high));
    }
  }

  lemma SlicesMiss(es: seq<Entry>, len: nat, high: bool, i: nat)
    requires i < |es| && FieldsApart(es, len, high, 0, 0) && Width(es[i], len, high) > 0
    ensures AllMiss(es[..i], len, high, es[i].target, es[i].target + Width(es[i], len, high))
    ensures AllMiss(es[i + 1..], len, high, es[i].target, es[i].target + Width(es[i], len, high))
  {
    hide FieldsApart, Width, Misses;
    var lo, hi := es[i].target, es[i].target + Width(es[i], len, high);
    forall f | f in es[..i] ensures Misses(f, len, high, lo, hi) {
      var j :| 0 <= j < i && es[..i][j] == f;
      OthersMiss(es, len, high, i, j);
    }
    forall f | f in es[i + 1..] ensures Misses(f, len, high, lo, hi) {
      var j :| 0 <= j < |es| - (i + 1) && es[i + 1..][j] == f;
      OthersMiss(es, len, high, i, i + 1 + j);
    }
  }

  lemma AgreeChain(a: seq<byte>, b: seq<byte>, c: seq<byte>, lo: nat, hi: nat)
    requires Agree(a, b, lo, hi) && Agree(b, c, lo, hi)
    ensures Agree(a, c, lo, hi)
  {
  }

  /** Where the other fields are apart, a field ends up as if it were the only one. */
  lemma ApplyOnce(image: seq<byte>, es: seq<Entry>, i: nat, delta: int, high: bool)
    requires i < |es| && FieldsApart(es, |image|, high, 0, 0) && Width(es[i], |image|, high) > 0
    ensures Agree(Apply(image, es, delta, high), Add(image, es[i], delta, high),
                  es[i].target, es[i].target + Width(es[i], |image|, high))
  {
    hide FieldsApart, Width, Misses, AllMiss, Apply, Add, Agree;
    var e, before, after := es[i], es[..i], es[i + 1..];
    var lo, hi := e.target, e.target + Width(e, |image|, high);
    assert es == before + ([e] + after);
    ApplyAppend(image, before, [e] + after, delta, high);
    SlicesMiss(es, |image|, high, i);
    var first := Apply(image, before, delta, high);
    ApplyElsewhere(image, before, delta, high, lo, hi);
    OneThenRest(first, e, after, delta, high);
    ApplyElsewhere(Add(first, e, delta, high), after, delta, high, lo, hi);
    SameAdd(first, image, e, delta, high);
    AgreeChain(Apply(image, es, delta, high), Add(first, e, delta, high), Add(image, e, delta, high), lo, hi);
  }

  lemma OneThenRest(image: seq<byte>, e: Entry, rest: seq<Entry>, delta: int, high: bool)
    ensures Apply(image, [e] + rest, delta, high) == Apply(Add(image, e, delta, high), rest, delta, high)
  {
    assert ([e] + rest)[1..] == rest;
  }

  /** Adding to fields with the same bytes gives the same bytes. */
  lemma SameAdd(a: seq<byte>, b: seq<byte>, e: Entry, delta: int, high: bool)
    requires Agree(a, b, e.target, e.target + Width(e, |b|, high))
    ensures Agree(Add(a, e, delta, high), Add(b, e, delta, high), e.target, e.target + Width(e, |b|, high))
  {
    hide LE64, LE32;
    var w := Width(e, |b|, high);
    if w == 8 {
      assert Get64(a, e.target) == Get64(b, e.target);
    } else if w == 4 {
      AgreeGet32(a, b, e.target, e.target + 4, e.target);
    }
  }

  /** What a relocation does to its own field. */
  lemma AddedField(image: seq<byte>, e: Entry, delta: int, high: bool)
    ensures Width(e, |image|, high) == 8 ==>
      Get64(Add(image, e, delta, high), e.target) == (Get64(image, e.target) + delta) % 0x1_0000_0000_0000_0000
    ensures Width(e, |image|, high) == 4 ==>
      Get32(Add(image, e, delta, high), e.target) == (Get32(image, e.target) + delta) % 0x1_0000_0000
  {
    hide Get64, Get32, Put, LE64, LE32;
    if Width(e, |image|, high) == 8 {
      PutGet64(image, e.target, (Get64(image, e.target) + delta) % U64_END);
    } else if Width(e, |image|, high) == 4 {
      PutGet32(image, e.target, (Get32(image, e.target) + delta) % U32_END);
    }
  }

  /** The field of entry `i` has moved by delta, if it lies in the image and has a type that is known. */
  ghost predicate Moved(image: seq<byte>, r: seq<byte>, e: Entry, delta: int, high: bool) {
    && |r| == |image|
    && (e.kind == 10 && e.target + 8 <= |image| ==>
          Get64(r, e.target) == (Get64(image, e.target) + delta) % 0x1_0000_0000_0000_0000)
    && (e.kind == 3 && high && e.target + 4 <= |image| ==>
          Get32(r, e.target) == (Get32(image, e.target) + delta) % 0x1_0000_0000)
  }

  /**
   An image that holds a written relocation directory: every field that is listed moves by delta once,
   and no other byte changes, so padding and unknown types do nothing.
   */
  lemma WrittenApplied(image: seq<byte>, rva: nat, blocks: seq<Block>, delta: int, high: bool)
    requires forall i {:trigger blocks[i]} :: 0 <= i < |blocks| ==> Encodable(blocks[i])
    requires rva + |AllBytes(blocks)| <= |image| && image[rva..rva + |AllBytes(blocks)|] == AllBytes(blocks)
    requires FieldsApart(AllFixups(blocks), |image|, high, rva, rva + |AllBytes(blocks)|)
    ensures var es, r := AllFixups(blocks), Relocate(image, rva, rva + |AllBytes(blocks)|, delta, high);
            && (forall i {:trigger es[i]} :: 0 <= i < |es| ==> Moved(image, r, es[i], delta, high))
            && (forall a {:trigger r[a]} :: 0 <= a < |image| && NoneHits(es, |image|, high, a) ==> r[a] == image[a])
  {
    hide Get64, Get32, AllBytes, AllFixups, Relocate, Apply, Width, Misses, Hits;
    var es, end, len := AllFixups(blocks), rva + |AllBytes(blocks)|, |image|;
    var r := Relocate(image, rva, end, delta, high);
    DirectoryDecodes(image, rva, blocks);
    if rva == end {
      NoBlocks(image, rva, blocks, delta, high);
    } else {
      forall e | e in es ensures Misses(e, len, high, rva, end) {
        HitsWidth(e, len, high, rva, end);
      }
      RelocateIsApply(image, image, rva, end, delta, high, rva, end);
      assert r == Apply(image, es, delta, high);
      forall i {:trigger es[i]} | 0 <= i < |es| ensures Moved(image, r, es[i], delta, high) {
        HitsWidth(es[i], len, high, rva, end);
        ApartHere(es, len, high, rva, end);
        if Width(es[i], len, high) > 0 {
          ApplyOnce(image, es, i, delta, high);
          AddedField(image, es[i], delta, high);
          MovedWhenAgreed(image, r, es[i], delta, high);
        }
      }
      forall a {:trigger r[a]} | 0 <= a < len && NoneHits(es, len, high, a) ensures r[a] == image[a] {
        forall e | e in es ensures Misses(e, len, high, a, a + 1) {
          HitsWidth(e, len, high, a, a + 1);
        }
        ApplyElsewhere(image, es, delta, high, a, a + 1);
      }
    }
  }

  lemma NoBlocks(image: seq<byte>, rva: nat, blocks: seq<Block>, delta: int, high: bool)
    requires forall i {:trigger blocks[i]} :: 0 <= i < |blocks| ==> Encodable(blocks[i])
    requires |AllBytes(blocks)| == 0
    ensures AllFixups(blocks) == [] && Relocate(image, rva, rva, delta, high) == image
  {
  }

  lemma ApartHere(es: seq<Entry>, len: nat, high: bool, rva: nat, end: nat)
    requires FieldsApart(es, len, high, rva, end)
    ensures FieldsApart(es, len, high, 0, 0)
  {
  }

  lemma MovedWhenAgreed(image: seq<byte>, r: seq<byte>, e: Entry, delta: int, high: bool)
    requires |r| == |image| && Width(e, |image|, high) > 0
    requires Agree(r, Add(image, e, delta, high), e.target, e.target + Width(e, |image|, high))
    ensures Moved(image, r, e, delta, high)
  {
    hide LE64, LE32, Add;
    AddedField(image, e, delta, high);
    var w, b := Width(e, |image|, high), Add(image, e, delta, high);
    if w == 8 {
      assert Get64(r, e.target) == Get64(b, e.target);
    } else {
      AgreeGet32(r, b, e.target, e.target + 4, e.target);
    }
  }
}
