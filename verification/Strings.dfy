/** Strings as the program holds them: UTF-8 bytes, the characters they stand for, and their UTF-16 code units. */
module Strings {
  import opened Bytes

  // ------------------------------------------------------------------ lists of strings

  function Join<T>(parts: seq<seq<T>>, separator: T): seq<T>
    requires |parts| > 0
    decreases |parts|
  {
    if |parts| == 1 then parts[0] else parts[0] + [separator] + Join(parts[1..], separator)
  }

  /** The parts that are not empty. */
  function NonEmpty<T>(parts: seq<seq<T>>): seq<seq<T>>
    decreases |parts|
  {
    if |parts| == 0 then []
    else if |parts[0]| == 0 then NonEmpty(parts[1..])
    else [parts[0]] + NonEmpty(parts[1..])
  }

  // ------------------------------------------------------------------ characters

  predicate Continuation(b: byte) {
    0x80 <= b < 0xC0
  }

  /** Well-formed UTF-8, as section 3 of RFC 3629 has it. */
  predicate Utf8(s: seq<byte>)
    decreases |s|
  {
    if s == [] then true
    else if s[0] < 0x80 then Utf8(s[1..])
    else if 0xC2 <= s[0] < 0xE0 then |s| >= 2 && Continuation(s[1]) && Utf8(s[2..])
    else if 0xE0 <= s[0] < 0xF0 then
      && |s| >= 3 && Continuation(s[1]) && Continuation(s[2])
      && (s[0] == 0xE0 ==> s[1] >= 0xA0) && (s[0] == 0xED ==> s[1] < 0xA0) && Utf8(s[3..])
    else if 0xF0 <= s[0] < 0xF5 then
      && |s| >= 4 && Continuation(s[1]) && Continuation(s[2]) && Continuation(s[3])
      && (s[0] == 0xF0 ==> s[1] >= 0x90) && (s[0] == 0xF4 ==> s[1] < 0x90) && Utf8(s[4..])
    else false
  }

  /** How many bytes the first character takes; bytes that begin no character count one by one. */
  function Length(s: seq<byte>): (n: nat)
    requires s != []
    ensures 1 <= n <= |s| && n <= 4
  {
    if 0xC2 <= s[0] < 0xE0 && |s| >= 2 then 2
    else if 0xE0 <= s[0] < 0xF0 && |s| >= 3 then 3
    else if 0xF0 <= s[0] < 0xF5 && |s| >= 4 then 4
    else 1
  }

  /** The six bits that a continuing byte adds to its character. */
  function Low(b: byte): nat {
    b as int % 0x40
  }

  /** The first character. */
  function Char(s: seq<byte>): nat
    requires s != []
  {
    var n, first := Length(s), s[0] as int;
    if n == 1 then first
    else if n == 2 then (first - 0xC0) * 0x40 + Low(s[1])
    else if n == 3 then (first - 0xE0) * 0x1000 + Low(s[1]) * 0x40 + Low(s[2])
    else (first - 0xF0) * 0x4_0000 + Low(s[1]) * 0x1000 + Low(s[2]) * 0x40 + Low(s[3])
  }

  function Chars(s: seq<byte>): seq<nat>
    decreases |s|
  {
    if s == [] then [] else [Char(s)] + Chars(s[Length(s)..])
  }

  /** The code units of the first character: one, or a surrogate pair. */
  function Encoded(s: seq<byte>): (units: seq<u16>)
    requires s != []
    ensures 1 <= |units| <= 2
  {
    var c := Char(s);
    if c < 0x1_0000 then [c] else [0xD800 + (c - 0x1_0000) / 0x400, 0xDC00 + c % 0x400]
  }

  /** `encode_utf16`. */
  function Utf16(s: seq<byte>): seq<u16>
    decreases |s|
  {
    if s == [] then [] else Encoded(s) + Utf16(s[Length(s)..])
  }

  function Latin1Units(bytes: seq<byte>): (r: seq<u16>)
    ensures |r| == |bytes| && forall i :: 0 <= i < |r| ==> r[i] == bytes[i]
  {
    seq(|bytes|, i requires 0 <= i < |bytes| => bytes[i] as int)
  }

  /** The bytes taken as little-endian code units; an odd last byte is left out. */
  function Pairs(bytes: seq<byte>): (r: seq<u16>)
    ensures |r| == |bytes| / 2
  {
    seq(|bytes| / 2, i requires 0 <= i < |bytes| / 2 => Get16(bytes, 2 * i))
  }

  // ------------------------------------------------------------------ the encoding

  /** The characters of Unicode: numbers up to 0x10FFFF without the surrogates. */
  predicate Scalar(c: nat) {
    c < 0xD800 || 0xE000 <= c < 0x11_0000
  }

  /** A character in UTF-8, as the table in section 3 of RFC 3629 has it. */
  function Encode(c: nat): (s: seq<byte>)
    requires Scalar(c)
    ensures 1 <= |s| <= 4
  {
    if c < 0x80 then [c]
    else if c < 0x800 then [0xC0 + c / 0x40, 0x80 + c % 0x40]
    else if c < 0x1_0000 then [0xE0 + c / 0x1000, 0x80 + c / 0x40 % 0x40, 0x80 + c % 0x40]
    else [0xF0 + c / 0x4_0000, 0x80 + c / 0x1000 % 0x40, 0x80 + c / 0x40 % 0x40, 0x80 + c % 0x40]
  }

  function EncodeAll(chars: seq<nat>): seq<byte>
    requires forall i {:trigger chars[i]} :: 0 <= i < |chars| ==> Scalar(chars[i])
  {
    if chars == [] then [] else Encode(chars[0]) + EncodeAll(chars[1..])
  }

  /** A character that was encoded is the first one read, whatever follows. */
  lemma EncodedFirst(c: nat, rest: seq<byte>)
    requires Scalar(c)
    ensures var s := Encode(c) + rest;
            && Length(s) == |Encode(c)| && Char(s) == c && s[Length(s)..] == rest && (Utf8(s) <==> Utf8(rest))
  {
    var e := Encode(c);
    var s := e + rest;
    assert s[|e|..] == rest;
    assert forall i :: 0 <= i < |e| ==> s[i] == e[i];
    LowOf(c % 0x40);
    LowOf(c / 0x40 % 0x40);
    LowOf(c / 0x1000 % 0x40);
    SixBits(c);
    if |e| == 2 {
      assert 0xC2 <= s[0] < 0xE0;
    } else if |e| == 3 {
      assert 0xE0 <= s[0] < 0xF0;
      assert s[0] == 0xE0 ==> c / 0x40 % 0x40 >= 0x20;
      assert s[0] == 0xED ==> c / 0x40 % 0x40 < 0x20;
    } else if |e| == 4 {
      assert 0xF0 <= s[0] < 0xF5;
      assert s[0] == 0xF0 ==> c / 0x1000 % 0x40 >= 0x10;
      assert s[0] == 0xF4 ==> c / 0x1000 % 0x40 < 0x10;
    }
  }

  lemma LowOf(x: nat)
    requires x < 0x40
    ensures Low(0x80 + x) == x
  {
  }

  /** A number in digits of six bits. */
  lemma SixBits(c: nat)
    ensures c == c / 0x40 * 0x40 + c % 0x40
    ensures c == c / 0x1000 * 0x1000 + c / 0x40 % 0x40 * 0x40 + c % 0x40
    ensures c == c / 0x4_0000 * 0x4_0000 + c / 0x1000 % 0x40 * 0x1000 + c / 0x40 % 0x40 * 0x40 + c % 0x40
  {
    var a := c / 0x40;
    var b := a / 0x40;
    assert c / 0x1000 == b && c / 0x4_0000 == b / 0x40;
  }

  lemma FromSixBits(a: nat, b: nat)
    requires b < 0x40
    ensures (a * 0x40 + b) / 0x40 == a && (a * 0x40 + b) % 0x40 == b
  {
  }

  /** Decoding what was encoded gives the characters back. */
  lemma {:induction false} CharsOfEncoded(chars: seq<nat>)
    requires forall i {:trigger chars[i]} :: 0 <= i < |chars| ==> Scalar(chars[i])
    ensures Utf8(EncodeAll(chars)) && Chars(EncodeAll(chars)) == chars
  {
    hide Length, Char, Encode;
    if chars == [] {
    } else {
      CharsOfEncoded(chars[1..]);
      EncodedFirst(chars[0], EncodeAll(chars[1..]));
    }
  }

  lemma DigitsOfThree(a: nat, b: nat, c: nat)
    requires b < 0x40 && c < 0x40
    ensures var v := a * 0x1000 + b * 0x40 + c; v / 0x1000 == a && v / 0x40 % 0x40 == b && v % 0x40 == c
  {
    var v := a * 0x1000 + b * 0x40 + c;
    FromSixBits(a * 0x40 + b, c);
    FromSixBits(a, b);
    assert v == (a * 0x40 + b) * 0x40 + c && v / 0x1000 == v / 0x40 / 0x40;
  }

  lemma DigitsOfFour(a: nat, b: nat, c: nat, d: nat)
    requires b < 0x40 && c < 0x40 && d < 0x40
    ensures var v := a * 0x4_0000 + b * 0x1000 + c * 0x40 + d;
            v / 0x4_0000 == a && v / 0x1000 % 0x40 == b && v / 0x40 % 0x40 == c && v % 0x40 == d
  {
    var v := a * 0x4_0000 + b * 0x1000 + c * 0x40 + d;
    var u := a * 0x1000 + b * 0x40 + c;
    DigitsOfThree(a, b, c);
    FromSixBits(u, d);
    assert v == u * 0x40 + d && v / 0x1000 == v / 0x40 / 0x40 && v / 0x4_0000 == v / 0x40 / 0x1000;
  }

  lemma ContinuationIs(b: byte)
    requires Continuation(b)
    ensures b == 0x80 + Low(b)
  {
  }

  lemma TwoEncoded(s: seq<byte>)
    requires s != [] && Utf8(s) && Length(s) == 2
    ensures Scalar(Char(s)) && s[..2] == Encode(Char(s))
  {
    ContinuationIs(s[1]);
    assert 0xC2 <= s[0] < 0xE0;
    hide Low, Utf8;
    FromSixBits(s[0] - 0xC0, Low(s[1]));
    assert s[..2] == [s[0], s[1]];
  }

  lemma ThreeEncoded(s: seq<byte>)
    requires s != [] && Utf8(s) && Length(s) == 3
    ensures Scalar(Char(s)) && s[..3] == Encode(Char(s))
  {
    ContinuationIs(s[1]);
    ContinuationIs(s[2]);
    assert 0xE0 <= s[0] < 0xF0 && (s[0] == 0xE0 ==> s[1] >= 0xA0) && (s[0] == 0xED ==> s[1] < 0xA0);
    hide Low, Utf8;
    DigitsOfThree(s[0] - 0xE0, Low(s[1]), Low(s[2]));
    assert s[..3] == [s[0], s[1], s[2]];
  }

  lemma FourEncoded(s: seq<byte>)
    requires s != [] && Utf8(s) && Length(s) == 4
    ensures Scalar(Char(s)) && s[..4] == Encode(Char(s))
  {
    ContinuationIs(s[1]);
    ContinuationIs(s[2]);
    ContinuationIs(s[3]);
    assert 0xF0 <= s[0] < 0xF5 && (s[0] == 0xF0 ==> s[1] >= 0x90) && (s[0] == 0xF4 ==> s[1] < 0x90);
    hide Low, Utf8;
    DigitsOfFour(s[0] - 0xF0, Low(s[1]), Low(s[2]), Low(s[3]));
    assert s[..4] == [s[0], s[1], s[2], s[3]];
  }

  /** The first character of well-formed bytes is one of Unicode, and these bytes are its encoding. */
  lemma FirstEncoded(s: seq<byte>)
    requires s != [] && Utf8(s)
    ensures Scalar(Char(s)) && s[..Length(s)] == Encode(Char(s))
  {
    TailValid(s);
    hide Utf8;
    if Length(s) == 2 {
      TwoEncoded(s);
    } else if Length(s) == 3 {
      ThreeEncoded(s);
    } else if Length(s) == 4 {
      FourEncoded(s);
    }
  }

  /** Bytes are well formed exactly if they encode some characters, and then these are read. */
  lemma {:induction false} Utf8Iff(s: seq<byte>)
    ensures Utf8(s) <==> exists chars :: Encodes(chars, s)
    decreases |s|
  {
    hide Length, Char, Encode;
    if Utf8(s) {
      if s == [] {
        assert Encodes([], s);
      } else {
        TailValid(s);
        FirstEncoded(s);
        Utf8Iff(s[Length(s)..]);
        var chars :| Encodes(chars, s[Length(s)..]);
        var all := [Char(s)] + chars;
        assert all[1..] == chars;
        assert Encodes(all, s);
      }
    }
    if chars :| Encodes(chars, s) {
      CharsOfEncoded(chars);
    }
  }

  ghost predicate Encodes(chars: seq<nat>, s: seq<byte>) {
    (forall i {:trigger chars[i]} :: 0 <= i < |chars| ==> Scalar(chars[i])) && s == EncodeAll(chars)
  }

  /** In UTF-16 a character is one unit, or two surrogates that stand for it. */
  lemma EncodedUnits(s: seq<byte>)
    requires s != [] && Utf8(s)
    ensures var c, u := Char(s), Encoded(s);
            if c < 0x1_0000 then u == [c]
            else
              && |u| == 2 && 0xD800 <= u[0] <= 0xDBFF && 0xDC00 <= u[1] <= 0xDFFF
              && 0x1_0000 + (u[0] as int - 0xD800) * 0x400 + (u[1] as int - 0xDC00) == c
  {
    FirstEncoded(s);
    hide Utf8, Char, Length, Encode;
    if Char(s) >= 0x1_0000 {
      SurrogatePair(Char(s));
    }
  }

  lemma SurrogatePair(c: nat)
    requires 0x1_0000 <= c < 0x11_0000
    ensures (c - 0x1_0000) / 0x400 < 0x400 && 0x1_0000 + (c - 0x1_0000) / 0x400 * 0x400 + c % 0x400 == c
  {
    assert c % 0x400 == (c - 0x1_0000) % 0x400;
  }

  // ------------------------------------------------------------------ one character after the other

  lemma TailValid(s: seq<byte>)
    requires s != [] && Utf8(s)
    ensures Utf8(s[Length(s)..])
    ensures Length(s) == 1 <==> s[0] < 0x80
  {
  }

  /** What the first character's length says about it. */
  lemma CharOfLength(s: seq<byte>)
    requires s != [] && Utf8(s)
    ensures Length(s) == 1 ==> Encoded(s) == [s[0]]
    ensures Length(s) == 2 ==> Encoded(s) == [Char(s)] && 0x80 <= Char(s) < 0x800
    ensures Length(s) == 3 ==> Encoded(s) == [Char(s)] && 0x800 <= Char(s) < 0x1_0000
    ensures Length(s) == 4 ==> |Encoded(s)| == 2 && 0xD800 <= Encoded(s)[0] < 0xDC00
  {
  }

  /** What one more character in front adds to the counts of bytes and units. */
  lemma UnitsStep(s: seq<byte>)
    requires s != [] && Utf8(s)
    ensures var n, head := Length(s), Encoded(s);
            && |Utf16(s)| == |head| + |Utf16(s[n..])| && Utf16(s)[0] == head[0]
            && (forall i :: 0 <= i < |Utf16(s[n..])| ==> Utf16(s)[|head| + i] == Utf16(s[n..])[i])
            && |head| <= n <= 3 * |head| && (n == |head| ==> s[0] < 0x80) && (head[0] < 0x100 ==> n <= 2)
  {
    hide Char, Utf8, Length, Encoded;
    assert s != [] && Utf16(s) == Encoded(s) + Utf16(s[Length(s)..]);
    TailValid(s);
    CharOfLength(s);
  }

  /** ASCII strings are their own code units, and the only ones with as many units as bytes. */
  lemma {:induction false} UnitsOfBytes(s: seq<byte>)
    requires Utf8(s)
    ensures |Utf16(s)| <= |s| <= 3 * |Utf16(s)|
    ensures |Utf16(s)| == |s| ==> Ascii(s)
    ensures (forall i :: 0 <= i < |Utf16(s)| ==> Utf16(s)[i] < 0x100) ==> |s| <= 2 * |Utf16(s)|
    decreases |s|
  {
    if s == [] {
    } else {
      hide Utf8, Utf16, Encoded, Length;
      TailValid(s);
      UnitsStep(s);
      UnitsOfBytes(s[Length(s)..]);
      if |Utf16(s)| == |s| {
        assert Length(s) == 1 && forall i :: 0 < i < |s| ==> s[i] == s[1..][i - 1];
      }
      if forall i :: 0 <= i < |Utf16(s)| ==> Utf16(s)[i] < 0x100 {
        var tail := Utf16(s[Length(s)..]);
        assert forall i :: 0 <= i < |tail| ==> tail[i] == Utf16(s)[|Encoded(s)| + i];
      }
    }
  }

  lemma {:induction false} AsciiUnits(s: seq<byte>)
    requires Ascii(s)
    ensures Utf8(s) && Utf16(s) == Latin1Units(s)
    decreases |s|
  {
    if s == [] {
    } else {
      AsciiUnits(s[1..]);
      assert Latin1Units(s) == [s[0]] + Latin1Units(s[1..]);
    }
  }

  /** What follows a string does not change its first character. */
  lemma FirstJoined(a: seq<byte>, b: seq<byte>)
    requires a != [] && Utf8(a)
    ensures Length(a + b) == Length(a) && Char(a + b) == Char(a) && Encoded(a + b) == Encoded(a)
    ensures (a + b)[Length(a)..] == a[Length(a)..] + b
    ensures Utf8(a[Length(a)..] + b) ==> Utf8(a + b)
  {
    var n := Length(a);
    assert (a + b)[n..] == a[n..] + b;
    assert forall i :: 0 <= i < n ==> (a + b)[i] == a[i];
  }

  /** Strings that are put together have their units one after the other. */
  lemma {:induction false} UnitsJoin(a: seq<byte>, b: seq<byte>)
    requires Utf8(a)
    ensures Utf16(a + b) == Utf16(a) + Utf16(b)
    ensures Utf8(b) ==> Utf8(a + b)
    decreases |a|
  {
    hide Encoded, Length, Char;
    if a == [] {
      assert a + b == b;
    } else {
      hide Utf8;
      var n := Length(a);
      TailValid(a);
      FirstJoined(a, b);
      UnitsJoin(a[n..], b);
      assert Utf16(a + b) == Encoded(a) + (Utf16(a[n..]) + Utf16(b));
    }
  }

  /** The units of the first character stand in front. */
  lemma FirstUnits(s: seq<byte>)
    requires s != [] && Utf8(s)
    ensures var n := |Encoded(s)|;
            n <= |Utf16(s)| && Utf16(s)[..n] == Encoded(s) && Utf16(s)[n..] == Utf16(s[Length(s)..])
    ensures s[0] < 0x80 ==> Length(s) == 1 && Encoded(s) == [s[0]]
  {
  }

  /** The first character is a string by itself. */
  lemma FirstAlone(s: seq<byte>)
    requires s != [] && Utf8(s)
    ensures Utf8(s[..Length(s)]) && Utf16(s[..Length(s)]) == Encoded(s)
  {
    var n := Length(s);
    var first := s[..n];
    assert first[n..] == [];
    assert Length(first) == n && Char(first) == Char(s);
  }

  // ------------------------------------------------------------------ names read back

  lemma CutLength(n: nat)
    ensures n < 0x1_0000 ==> n % 0x1_0000 == n
    ensures n >= 0x1_0000 ==> n % 0x1_0000 <= n - 0x1_0000 && n % 0x1_0000 < 0x1_0000
  {
  }

  /** Bytes of a string taken as Latin-1, up to a length cut to 16 bits, are the string only if it is ASCII. */
  lemma Latin1Back(s: seq<byte>)
    requires Utf8(s)
    ensures Latin1Units(s[..|s| % 0x1_0000]) == Utf16(s) <==> Ascii(s) && |s| < 0x1_0000
  {
    hide Utf8, Utf16;
    CutLength(|s|);
    var n := |s| % 0x1_0000;
    assert |s| < 0x1_0000 ==> s[..n] == s;
    UnitsOfBytes(s);
    if Ascii(s) {
      AsciiUnits(s);
    }
  }

  /** If the bytes of a string were its own code units and the first was ASCII, zeros would follow without end. */
  lemma {:induction false} ZerosOn(s: seq<byte>, m: nat)
    requires Utf8(s) && 1 <= m <= |s| && s[0] < 0x80 && forall i :: 1 <= i < m ==> s[i] == 0
    ensures Pairs(s) != Utf16(s)
    decreases |s| - m
  {
    hide Utf8, Utf16;
    var front, back := s[..m], s[m..];
    AsciiUnits(front);
    UnitsJoin(front, back);
    assert s == front + back;
    if Pairs(s) == Utf16(s) {
      assert |front| <= |Utf16(s)|;
      assert Utf16(s)[m / 2] == front[m / 2];
      assert s[m] == 0;
      ZerosOn(s, m + 1);
    }
  }

  /** The leading and continuing bytes of characters of three bytes. */
  predicate OfThree(b: byte) {
    0x80 <= b < 0xC0 || 0xE0 <= b < 0xF0
  }

  /** The front of a string is `i` characters of three bytes, and the rest are its code units from there on. */
  ghost predicate Threes(s: seq<byte>, i: nat) {
    && 1 <= i && 3 * i <= |s| && (forall j {:trigger OfThree(s[j])} :: 0 <= j < 3 * i ==> OfThree(s[j]))
    && Continuation(s[3 * i - 1]) && Utf8(s[3 * i..])
    && i <= |Pairs(s)| && Pairs(s)[i..] == Utf16(s[3 * i..])
  }

  /** The high byte of the next unit lies in the front or begins the next character, so that has three bytes. */
  lemma NextOfThree(s: seq<byte>, i: nat)
    requires Threes(s, i) && 3 * i < |s|
    ensures Length(s[3 * i..]) == 3 && Utf8(s[3 * i..][3..])
    ensures i < |Pairs(s)| && Utf16(s[3 * i..]) == [Pairs(s)[i]] + Utf16(s[3 * i..][3..])
  {
    hide Char, Utf8;
    var rest := s[3 * i..];
    TailValid(rest);
    CharOfLength(rest);
    var unit := Pairs(s)[i];
    assert unit == Pairs(s)[i..][0] == Utf16(rest)[0] == Encoded(rest)[0];
    assert unit == s[2 * i] as int + 0x100 * s[2 * i + 1] as int;
    if i == 1 {
      assert s[2 * i + 1] == rest[0] && Continuation(s[2 * i]);
    } else {
      assert OfThree(s[2 * i + 1]);
    }
  }

  lemma ThreesStep(s: seq<byte>, i: nat)
    requires Threes(s, i) && 3 * i < |s|
    ensures Threes(s, i + 1)
  {
    hide Length, Pairs, Utf16;
    NextOfThree(s, i);
    var rest := s[3 * i..];
    assert rest[3..] == s[3 * (i + 1)..];
    assert Pairs(s)[i + 1..] == Pairs(s)[i..][1..];
    assert s[3 * i] == rest[0] && s[3 * i + 1] == rest[1] && s[3 * i + 2] == rest[2];
    BytesOfThree(rest);
  }

  lemma BytesOfThree(s: seq<byte>)
    requires s != [] && Utf8(s) && Length(s) == 3
    ensures 0xE0 <= s[0] < 0xF0 && Continuation(s[1]) && Continuation(s[2])
  {
  }

  /** Such a string is one character: with more, it would have more bytes than its units can hold. */
  lemma {:induction false} ThreesOn(s: seq<byte>, i: nat)
    requires Threes(s, i)
    ensures |s| == 3
    decreases |s| - i
  {
    if 3 * i == |s| {
      assert Utf16(s[3 * i..]) == [];
    } else {
      hide Threes;
      ThreesStep(s, i);
      ThreesOn(s, i + 1);
    }
  }

  /** U+BFEB, whose three bytes begin with the two of its own code unit. */
  const BFEB: seq<byte> := [0xEB, 0xBF, 0xAB]

  /** The bytes of a string that is not ASCII are its own code units only for one string of one character. */
  lemma OwnPairs(s: seq<byte>)
    requires Utf8(s) && !Ascii(s)
    ensures Pairs(s) == Utf16(s) <==> s == BFEB
  {
    assert s != [];
    TailValid(s);
    CharOfLength(s);
    if s == BFEB {
      assert Utf16(s[3..]) == [];
      assert Pairs(s) == [0xBFEB];
    } else if Pairs(s) == Utf16(s) {
      assert |Utf16(s)| >= 1 && Pairs(s)[0] == Encoded(s)[0];
      if Length(s) == 1 {
        ZerosOn(s, 1);
      } else {
        assert Length(s) == 3;
        BytesOfThree(s);
        assert Pairs(s)[1..] == Utf16(s[3..]);
        ThreesOn(s, 1);
        OneOfThree(s);
      }
    }
  }

  lemma OneOfThree(s: seq<byte>)
    requires |s| == 3 && Utf8(s) && Length(s) == 3 && Char(s) == s[0] as int + 0x100 * s[1] as int
    ensures s == BFEB
  {
    BytesOfThree(s);
    hide Utf8;
    ContinuationIs(s[1]);
    ContinuationIs(s[2]);
    hide Low;
    OneSolution(s[0] as int - 0xE0, Low(s[1]), Low(s[2]));
  }

  lemma OneSolution(a: nat, b: nat, c: nat)
    requires a < 16 && b < 64 && c < 64 && 0xE0 + a + 0x100 * (0x80 + b) == a * 0x1000 + b * 0x40 + c
    ensures a == 11 && b == 63 && c == 43
  {
  }

  /** Bytes taken as pairs, up to a length cut to 16 bits, are a string that is not ASCII in one case only. */
  lemma PairsBack(s: seq<byte>)
    requires Utf8(s) && !Ascii(s)
    ensures Pairs(s[..|s| % 0x1_0000]) == Utf16(s) <==> s == BFEB
  {
    hide Utf8, Utf16;
    CutLength(|s|);
    var n := |s| % 0x1_0000;
    assert |s| < 0x1_0000 ==> s[..n] == s;
    UnitsOfBytes(s);
    OwnPairs(s);
  }
}
