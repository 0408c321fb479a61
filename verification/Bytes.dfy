/** Machine integers as ranges of `int`, and little-endian fields inside byte sequences. */
module Bytes {

  type byte = x: int | 0 <= x < 0x100
  type u16 = x: int | 0 <= x < 0x1_0000
  type u32 = x: int | 0 <= x < 0x1_0000_0000
  type u64 = x: int | 0 <= x < 0x1_0000_0000_0000_0000
  type i32 = x: int | -0x8000_0000 <= x < 0x8000_0000

  const U32_END: nat := 0x1_0000_0000
  const U64_END: nat := 0x1_0000_0000_0000_0000

  function Min(a: nat, b: nat): nat {
    if a < b then a else b
  }

  function LE16(v: u16): (s: seq<byte>)
    ensures |s| == 2
  {
    [v % 0x100, v / 0x100]
  }

  function LE32(v: u32): (s: seq<byte>)
    ensures |s| == 4
  {
    [v % 0x100, v / 0x100 % 0x100, v / 0x1_0000 % 0x100, v / 0x100_0000]
  }

  function LE64(v: u64): (s: seq<byte>)
    ensures |s| == 8
  {
    LE32(v % 0x1_0000_0000) + LE32(v / 0x1_0000_0000)
  }

  function Get16(s: seq<byte>, i: nat): u16
    requires i + 2 <= |s|
  {
    s[i] as int + 0x100 * (s[i + 1] as int)
  }

  function Get32(s: seq<byte>, i: nat): u32
    requires i + 4 <= |s|
  {
    s[i] as int + 0x100 * (s[i + 1] as int) + 0x1_0000 * (s[i + 2] as int) + 0x100_0000 * (s[i + 3] as int)
  }

  function Get64(s: seq<byte>, i: nat): u64
    requires i + 8 <= |s|
  {
    Get32(s, i) as int + 0x1_0000_0000 * (Get32(s, i + 4) as int)
  }

  /** The number that bytes stand for, the first one counting least. */
  function Little(b: seq<byte>): nat {
    if b == [] then 0 else b[0] as int + 0x100 * Little(b[1..])
  }

  /** Fields are read as little-endian numbers. */
  lemma ReadsLittle(s: seq<byte>, i: nat)
    ensures i + 2 <= |s| ==> Get16(s, i) == Little(s[i..i + 2])
    ensures i + 4 <= |s| ==> Get32(s, i) == Little(s[i..i + 4])
    ensures i + 8 <= |s| ==> Get64(s, i) == Little(s[i..i + 8])
  {
    if i + 2 <= |s| {
      LittleOf(s[i..i + 2]);
    }
    if i + 4 <= |s| {
      LittleOf(s[i..i + 4]);
    }
    if i + 8 <= |s| {
      LittleOf(s[i..i + 8]);
      LittleOf(s[i..i + 8][4..]);
    }
  }

  /** The digits of up to eight bytes, four at a time. */
  lemma LittleOf(b: seq<byte>)
    ensures |b| == 2 ==> Little(b) == b[0] as int + 0x100 * b[1] as int
    ensures |b| >= 4 ==> Little(b) == b[0] as int + 0x100 * b[1] as int + 0x1_0000 * b[2] as int
                                      + 0x100_0000 * b[3] as int + 0x1_0000_0000 * Little(b[4..])
  {
    if |b| == 2 {
      assert Little(b[1..]) == b[1] as int + 0x100 * Little(b[1..][1..]);
    }
    if |b| >= 4 {
      assert b[1..][1..] == b[2..] && b[2..][1..] == b[3..] && b[3..][1..] == b[4..];
      assert Little(b) == b[0] as int + 0x100 * Little(b[1..]);
      assert Little(b[1..]) == b[1] as int + 0x100 * Little(b[2..]);
      assert Little(b[2..]) == b[2] as int + 0x100 * Little(b[3..]);
      assert Little(b[3..]) == b[3] as int + 0x100 * Little(b[4..]);
    }
  }

  /** Fields are written as little-endian numbers of their width. */
  lemma WritesLittle(v: u16, w: u32, x: u64)
    ensures Little(LE16(v)) == v && Little(LE32(w)) == w && Little(LE64(x)) == x
  {
    ReadsLittle(LE16(v), 0);
    ReadsLittle(LE32(w), 0);
    ReadsLittle(LE64(x), 0);
    Get16OfLE(LE16(v), 0, v);
    Get32OfLE(LE32(w), 0, w);
    Get64OfLE(LE64(x), 0, x);
    assert LE16(v)[0..2] == LE16(v) && LE32(w)[0..4] == LE32(w) && LE64(x)[0..8] == LE64(x);
  }

  /** The two strings are the same but for the case of ASCII letters. */
  ghost predicate SameLetters(a: seq<byte>, b: seq<byte>) {
    |a| == |b| && forall i {:trigger a[i]} {:trigger b[i]} :: 0 <= i < |a| ==>
      a[i] == b[i] || (0x41 <= a[i] <= 0x5A && b[i] == a[i] + 0x20) || (0x41 <= b[i] <= 0x5A && a[i] == b[i] + 0x20)
  }

  lemma UpperIff(a: seq<byte>, b: seq<byte>)
    ensures Upper(a) == Upper(b) <==> SameLetters(a, b)
  {
    if Upper(a) == Upper(b) {
      forall i {:trigger a[i]} | 0 <= i < |a|
        ensures a[i] == b[i] || (0x41 <= a[i] <= 0x5A && b[i] == a[i] + 0x20)
          || (0x41 <= b[i] <= 0x5A && a[i] == b[i] + 0x20)
      {
        assert Upper(a)[i] == Upper(b)[i];
      }
    }
  }

  /** Two's complement reading of a 32-bit field. */
  function Signed32(v: u32): i32 {
    if v < 0x8000_0000 then v else v - 0x1_0000_0000
  }

  /** The 32-bit field that reads back as `v`. */
  function Unsigned32(v: i32): u32 {
    if v >= 0 then v else v + 0x1_0000_0000
  }

  function GetI32(s: seq<byte>, i: nat): i32
    requires i + 4 <= |s|
  {
    Signed32(Get32(s, i))
  }

  /** `s` with the bytes from `i` on overwritten by `b`. */
  function Put(s: seq<byte>, i: nat, b: seq<byte>): (r: seq<byte>)
    requires i + |b| <= |s|
    ensures |r| == |s|
    ensures forall j :: 0 <= j < |s| ==> r[j] == if i <= j < i + |b| then b[j - i] else s[j]
  {
    s[..i] + b + s[i + |b|..]
  }

  function Xor32(a: u32, b: u32): u32 {
    ((a as bv32) ^ (b as bv32)) as int
  }

  predicate Ascii(s: seq<byte>) {
    forall i :: 0 <= i < |s| ==> s[i] < 0x80
  }

  /** `to_ascii_uppercase` of a character or a byte. */
  function UpperChar(c: nat): (u: nat)
    ensures u <= c
  {
    if 0x61 <= c <= 0x7A then c - 0x20 else c
  }

  function UpperAscii(c: byte): byte {
    UpperChar(c)
  }

  /** ASCII letters in upper case, other bytes as they are. */
  function Upper(s: seq<byte>): (u: seq<byte>)
    ensures |u| == |s|
  {
    seq(|s|, i requires 0 <= i < |s| => UpperAscii(s[i]))
  }

  function Zeros(n: nat): (s: seq<byte>)
    ensures |s| == n && forall i :: 0 <= i < n ==> s[i] == 0
  {
    seq(n, _ => 0)
  }

  lemma Get16OfLE(s: seq<byte>, i: nat, v: u16)
    requires i + 2 <= |s| && s[i..i + 2] == LE16(v)
    ensures Get16(s, i) == v
  {
    assert s[i] == s[i..i + 2][0] && s[i + 1] == s[i..i + 2][1];
  }

  lemma Get32OfLE(s: seq<byte>, i: nat, v: u32)
    requires i + 4 <= |s| && s[i..i + 4] == LE32(v)
    ensures Get32(s, i) == v
  {
    var t := s[i..i + 4];
    assert s[i] == t[0] && s[i + 1] == t[1] && s[i + 2] == t[2] && s[i + 3] == t[3];
    Digits(v);
  }

  lemma Digits(v: nat)
    ensures v
      == v % 0x100 + 0x100 * (v / 0x100 % 0x100) + 0x1_0000 * (v / 0x1_0000 % 0x100) + 0x100_0000 * (v / 0x100_0000)
  {
    var a := v / 0x100;
    var b := a / 0x100;
    assert v / 0x1_0000 == b && v / 0x100_0000 == b / 0x100;
  }

  lemma Get64OfLE(s: seq<byte>, i: nat, v: u64)
    requires i + 8 <= |s| && s[i..i + 8] == LE64(v)
    ensures Get64(s, i) == v
  {
    assert s[i..i + 4] == s[i..i + 8][..4] == LE32(v % 0x1_0000_0000);
    assert s[i + 4..i + 8] == s[i..i + 8][4..] == LE32(v / 0x1_0000_0000);
    Get32OfLE(s, i, v % 0x1_0000_0000);
    Get32OfLE(s, i + 4, v / 0x1_0000_0000);
  }

  lemma LE32OfGet(s: seq<byte>, i: nat)
    requires i + 4 <= |s|
    ensures LE32(Get32(s, i)) == s[i..i + 4]
  {
    var a: int, b: int, c: int, d: int := s[i], s[i + 1], s[i + 2], s[i + 3];
    var v: int := Get32(s, i);
    assert v / 0x100 == b + 0x100 * c + 0x1_0000 * d;
    assert v / 0x1_0000 == c + 0x100 * d;
    assert v / 0x100_0000 == d;
  }

  lemma LE64OfGet(s: seq<byte>, i: nat)
    requires i + 8 <= |s|
    ensures LE64(Get64(s, i)) == s[i..i + 8]
  {
    var lo, hi := Get32(s, i), Get32(s, i + 4);
    assert LE64(Get64(s, i)) == LE32(lo) + LE32(hi) by {
      var v: int := lo as int + 0x1_0000_0000 * (hi as int);
      assert v % 0x1_0000_0000 == lo && v / 0x1_0000_0000 == hi;
    }
    assert LE32(lo) == s[i..i + 4] by { LE32OfGet(s, i); }
    assert LE32(hi) == s[i + 4..i + 8] by { LE32OfGet(s, i + 4); }
    assert s[i..i + 8] == s[i..i + 4] + s[i + 4..i + 8];
  }

  /** Two sequences that agree on a window agree on the slice of it. */
  lemma SliceEq<T>(s: seq<T>, t: seq<T>, lo: nat, hi: nat)
    requires lo <= hi <= |s| && hi <= |t|
    requires forall j :: lo <= j < hi ==> s[j] == t[j]
    ensures s[lo..hi] == t[lo..hi]
  {
  }

  lemma SliceOfSlice<T>(s: seq<T>, a: nat, b: nat, lo: nat, hi: nat)
    requires a <= b <= |s| && lo <= hi <= b - a
    ensures s[a..b][lo..hi] == s[a + lo..a + hi]
  {
    var x, y := s[a..b][lo..hi], s[a + lo..a + hi];
    forall i | 0 <= i < hi - lo
      ensures x[i] == y[i]
    {
      assert s[a..b][lo + i] == s[a + (lo + i)];
    }
    assert x == y;
  }

  lemma PutHit(s: seq<byte>, i: nat, b: seq<byte>)
    requires i + |b| <= |s|
    ensures Put(s, i, b)[i..i + |b|] == b
  {
  }

  lemma PutPrefix(s: seq<byte>, b: seq<byte>)
    requires |b| <= |s|
    ensures Put(s, 0, b)[..|b|] == b
  {
  }

  lemma PutMiss(s: seq<byte>, i: nat, b: seq<byte>, lo: nat, hi: nat)
    requires i + |b| <= |s| && lo <= hi <= |s|
    requires hi <= i || i + |b| <= lo
    ensures Put(s, i, b)[lo..hi] == s[lo..hi]
  {
  }

  lemma PutGet32(s: seq<byte>, i: nat, v: u32)
    requires i + 4 <= |s|
    ensures Get32(Put(s, i, LE32(v)), i) == v
  {
    PutHit(s, i, LE32(v));
    Get32OfLE(Put(s, i, LE32(v)), i, v);
  }

  lemma PutGet16(s: seq<byte>, i: nat, v: u16)
    requires i + 2 <= |s|
    ensures Get16(Put(s, i, LE16(v)), i) == v
  {
    PutHit(s, i, LE16(v));
    Get16OfLE(Put(s, i, LE16(v)), i, v);
  }

  lemma PutGet64(s: seq<byte>, i: nat, v: u64)
    requires i + 8 <= |s|
    ensures Get64(Put(s, i, LE64(v)), i) == v
  {
    PutHit(s, i, LE64(v));
    Get64OfLE(Put(s, i, LE64(v)), i, v);
  }
}
