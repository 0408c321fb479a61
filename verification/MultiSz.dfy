/**
 REG_MULTI_SZ data: the codec of `mkhive`, the decoder of `winload`, and the merge behind APPEND.
 A string is the sequence of its UTF-16 code units.
 */
module MultiSz {
  import opened Bytes
  import opened Strings

  type Units = seq<u16>

  predicate High(u: u16) {
    0xD800 <= u < 0xDC00
  }

  predicate Low(u: u16) {
    0xDC00 <= u < 0xE000
  }

  predicate Surrogate(u: u16) {
    High(u) || Low(u)
  }

  /** `String::from_utf16_lossy`: every surrogate without its partner becomes U+FFFD. */
  function Lossy(s: Units): (r: Units)
    ensures |r| == |s|
  {
    if s == [] then []
    else if |s| >= 2 && High(s[0]) && Low(s[1]) then s[..2] + Lossy(s[2..])
    else [if Surrogate(s[0]) then 0xFFFD else s[0]] + Lossy(s[1..])
  }

  /** What a string can be: valid UTF-16. */
  predicate Valid(s: Units) {
    Lossy(s) == s
  }

  predicate NulFree(s: Units) {
    forall i :: 0 <= i < |s| ==> s[i] != 0
  }

  /** The strings a REG_MULTI_SZ value can hold. */
  predicate Item(s: Units) {
    s != [] && NulFree(s) && Valid(s)
  }

  predicate Items(list: seq<Units>) {
    forall i :: 0 <= i < |list| ==> Item(list[i])
  }

  // ------------------------------------------------------------------ bytes and code units

  function ToBytes(units: Units): (r: seq<byte>)
    ensures |r| == 2 * |units|
  {
    if units == [] then [] else LE16(units[0]) + ToBytes(units[1..])
  }

  lemma {:induction false} PairsOfBytes(units: Units)
    ensures Pairs(ToBytes(units)) == units
  {
    if units == [] {
    } else {
      PairsOfBytes(units[1..]);
      var b, rest := ToBytes(units), ToBytes(units[1..]);
      forall i | 0 <= i < |units|
        ensures Pairs(b)[i] == units[i]
      {
        if i == 0 {
          Get16OfLE(b, 0, units[0]);
        } else {
          assert b[2 * i] == rest[2 * (i - 1)] && b[2 * i + 1] == rest[2 * (i - 1) + 1];
          assert Pairs(rest)[i - 1] == units[1..][i - 1];
        }
      }
    }
  }

  // ------------------------------------------------------------------ the codec of mkhive

  /** The strings in `units`, of which `cur` is already read of the first one. */
  function ParseUnits(units: Units, cur: Units): seq<Units>
    decreases |units|
  {
    if units == [] then []
    else if units[0] != 0 then ParseUnits(units[1..], cur + [units[0]])
    else if cur == [] then []
    else [Lossy(cur)] + ParseUnits(units[1..], [])
  }

  function Parse(data: seq<byte>): seq<Units> {
    if |data| % 2 != 0 then [] else ParseUnits(Pairs(data), [])
  }

  function EncodeUnits(list: seq<Units>): Units {
    if list == [] then [0] else list[0] + [0] + EncodeUnits(list[1..])
  }

  function Encode(list: seq<Units>): seq<byte> {
    ToBytes(EncodeUnits(list))
  }

  method ParseMultiSz(data: seq<byte>) returns (out: seq<Units>)
    ensures out == Parse(data)
  {
    if |data| % 2 != 0 {
      return [];
    }
    hide Lossy, Pairs;
    var units := Pairs(data);
    out := [];
    var cur: Units := [];
    var i := 0;
    while i < |units|
      invariant i <= |units|
      invariant out + ParseUnits(units[i..], cur) == Parse(data)
      decreases |units| - i
    {
      var w := units[i];
      assert units[i..][0] == w && units[i..][1..] == units[i + 1..];
      if w == 0 {
        if cur == [] {
          break;
        }
        assert out + ([Lossy(cur)] + ParseUnits(units[i + 1..], []))
          == (out + [Lossy(cur)]) + ParseUnits(units[i + 1..], []);
        out := out + [Lossy(cur)];
        cur := [];
      } else {
        cur := cur + [w];
      }
      i := i + 1;
    }
  }

  method EncodeMultiSz(list: seq<Units>) returns (out: seq<byte>)
    ensures out == Encode(list)
  {
    out := [];
    ghost var done: Units := [];
    for i := 0 to |list|
      invariant out == ToBytes(done)
      invariant done + EncodeUnits(list[i..]) == EncodeUnits(list)
    {
      EncodeStep(done, list, i);
      out := out + ToBytes(list[i]) + [0, 0];
      done := done + (list[i] + [0]);
    }
    ToBytesConcat(done, [0]);
    out := out + [0, 0];
  }

  lemma EncodeStep(done: Units, list: seq<Units>, i: nat)
    requires i < |list|
    ensures ToBytes(done + (list[i] + [0])) == ToBytes(done) + ToBytes(list[i]) + [0, 0]
    ensures done + (list[i] + [0]) + EncodeUnits(list[i + 1..]) == done + EncodeUnits(list[i..])
  {
    ToBytesConcat(done, list[i] + [0]);
    ToBytesConcat(list[i], [0]);
    assert list[i..][1..] == list[i + 1..];
  }

  lemma {:induction false} ToBytesConcat(a: Units, b: Units)
    ensures ToBytes(a + b) == ToBytes(a) + ToBytes(b)
  {
    if a == [] {
      assert a + b == b;
    } else {
      assert (a + b)[1..] == a[1..] + b;
      ToBytesConcat(a[1..], b);
    }
  }

  /** A string without NUL is read to its terminator. */
  lemma {:induction false} ParseOneString(cur: Units, s: Units, rest: Units)
    requires NulFree(s) && cur + s != []
    ensures ParseUnits(s + [0] + rest, cur) == [Lossy(cur + s)] + ParseUnits(rest, [])
    decreases |s|
  {
    var all := s + [0] + rest;
    if s == [] {
      assert all[1..] == rest && cur + s == cur;
    } else {
      assert all[0] == s[0] && all[1..] == s[1..] + [0] + rest;
      assert (cur + [s[0]]) + s[1..] == cur + s;
      ParseOneString(cur + [s[0]], s[1..], rest);
    }
  }

  lemma {:induction false} UnitsRoundTrip(list: seq<Units>)
    requires Items(list)
    ensures ParseUnits(EncodeUnits(list), []) == list
  {
    if list == [] {
    } else {
      UnitsRoundTrip(list[1..]);
      assert Item(list[0]) && [] + list[0] == list[0];
      ParseOneString([], list[0], EncodeUnits(list[1..]));
      assert list == [list[0]] + list[1..];
    }
  }

  /** Decoding what was encoded gives the list back. */
  lemma RoundTrip(list: seq<Units>)
    requires Items(list)
    ensures Parse(Encode(list)) == list
  {
    PairsOfBytes(EncodeUnits(list));
    UnitsRoundTrip(list);
  }

  function UnitsIn(list: seq<Units>): nat {
    if list == [] then 0 else |list[0]| + 1 + UnitsIn(list[1..])
  }

  /** The encoding is the strings with a NUL each and one more NUL, two bytes to the unit. */
  lemma {:induction false} EncodedEnds(list: seq<Units>)
    ensures |Encode(list)| == 2 * (UnitsIn(list) + 1) && |EncodeUnits(list)| == UnitsIn(list) + 1
    ensures var units := EncodeUnits(list);
            units[|units| - 1] == 0 && (list != [] ==> |units| >= 2 && units[|units| - 2] == 0)
  {
    if list == [] {
    } else {
      EncodedEnds(list[1..]);
      var rest := EncodeUnits(list[1..]);
      assert EncodeUnits(list) == list[0] + [0] + rest;
      if |list| == 1 {
        assert rest == [0];
      }
    }
  }

  /** Nothing behind the final NUL is read. */
  lemma {:induction false} TailIgnored(list: seq<Units>, rest: Units)
    requires Items(list)
    ensures ParseUnits(EncodeUnits(list) + rest, []) == list
  {
    if list == [] {
    } else {
      TailIgnored(list[1..], rest);
      assert Item(list[0]) && [] + list[0] == list[0];
      ParseOneString([], list[0], EncodeUnits(list[1..]) + rest);
      assert EncodeUnits(list) + rest == list[0] + [0] + (EncodeUnits(list[1..]) + rest);
      assert list == [list[0]] + list[1..];
    }
  }

  /** A string without its NUL is not read. */
  lemma {:induction false} UnfinishedDropped(s: Units, cur: Units)
    requires NulFree(s)
    ensures ParseUnits(s, cur) == []
  {
    if s == [] {
    } else {
      UnfinishedDropped(s[1..], cur + [s[0]]);
    }
  }

  /** An odd number of bytes is no list for `mkhive`; the loader ignores the last byte. */
  lemma OddBytes(data: seq<byte>)
    requires |data| % 2 == 1
    ensures Parse(data) == [] && BootParse(data) == BootParse(data[..|data| - 1])
  {
    assert Pairs(data) == Pairs(data[..|data| - 1]);
  }

  // ------------------------------------------------------------------ what decoding yields

  /** Unit `i` is a surrogate without its partner beside it. */
  predicate Alone(s: Units, i: nat)
    requires i < |s|
  {
    || (0xD800 <= s[i] <= 0xDBFF && !(i + 1 < |s| && 0xDC00 <= s[i + 1] <= 0xDFFF))
    || (0xDC00 <= s[i] <= 0xDFFF && !(i > 0 && 0xD800 <= s[i - 1] <= 0xDBFF))
  }

  /** Surrogates without a partner read as U+FFFD, all other units as they are. */
  lemma {:induction false} LossyAt(s: Units, i: nat)
    requires i < |s|
    ensures Lossy(s)[i] == if Alone(s, i) then 0xFFFD else s[i]
    decreases |s|
  {
    var r := Lossy(s);
    if |s| >= 2 && High(s[0]) && Low(s[1]) {
      assert r[..2] == s[..2] && r[2..] == Lossy(s[2..]);
      if i >= 2 {
        LossyAt(s[2..], i - 2);
        assert r[i] == r[2..][i - 2];
      }
    } else {
      assert r[1..] == Lossy(s[1..]);
      if i >= 1 {
        LossyAt(s[1..], i - 1);
        assert r[i] == r[1..][i - 1];
      }
    }
  }

  /** The loader drops surrogates and keeps every other unit as often as it occurs. */
  lemma {:induction false} DropKeeps(s: Units, u: u16)
    ensures multiset(DropSurrogates(s))[u] == if 0xD800 <= u <= 0xDFFF then 0 else multiset(s)[u]
  {
    if s == [] {
    } else {
      DropKeeps(s[1..], u);
      assert s == [s[0]] + s[1..];
    }
  }

  lemma {:induction false} LossyValid(s: Units)
    ensures Valid(Lossy(s)) && (NulFree(s) ==> NulFree(Lossy(s)))
    ensures s != [] && Low(s[0]) ==> !Surrogate(Lossy(s)[0])
    ensures s != [] && !Surrogate(s[0]) ==> Lossy(s)[0] == s[0]
    decreases |s|
  {
    if s == [] {
    } else {
      var r := Lossy(s);
      if |s| >= 2 && High(s[0]) && Low(s[1]) {
        LossyValid(s[2..]);
        assert r[..2] == s[..2] && r[2..] == Lossy(s[2..]);
      } else {
        LossyValid(s[1..]);
        assert r[1..] == Lossy(s[1..]);
      }
    }
  }

  /** Whatever the bytes are, decoding yields strings that can be encoded again. */
  lemma {:induction false} ParseUnitsItems(units: Units, cur: Units)
    requires NulFree(cur)
    ensures Items(ParseUnits(units, cur))
    decreases |units|
  {
    if units == [] {
    } else {
      if units[0] != 0 {
        ParseUnitsItems(units[1..], cur + [units[0]]);
      } else if cur != [] {
        LossyValid(cur);
        ParseUnitsItems(units[1..], []);
      }
    }
  }

  // ------------------------------------------------------------------ the decoder of winload

  /** `utf16_chars_to_string` drops every surrogate. */
  function DropSurrogates(s: Units): Units {
    if s == [] then []
    else if Surrogate(s[0]) then DropSurrogates(s[1..])
    else [s[0]] + DropSurrogates(s[1..])
  }

  function BootParseUnits(units: Units, cur: Units): seq<Units>
    decreases |units|
  {
    if units == [] then []
    else if units[0] != 0 then BootParseUnits(units[1..], cur + [units[0]])
    else if cur == [] then []
    else [DropSurrogates(cur)] + BootParseUnits(units[1..], [])
  }

  /** An odd last byte is ignored. */
  function BootParse(data: seq<byte>): seq<Units> {
    BootParseUnits(Pairs(data), [])
  }

  method BootParseMultiSz(data: seq<byte>) returns (result: seq<Units>)
    ensures result == BootParse(data)
  {
    var units := Pairs(data);
    result := [];
    var current: Units := [];
    for i := 0 to |units|
      invariant result + BootParseUnits(units[i..], current) == BootParse(data)
    {
      assert units[i..][0] == units[i] && units[i..][1..] == units[i + 1..];
      if units[i] == 0 {
        if current != [] {
          assert result + ([DropSurrogates(current)] + BootParseUnits(units[i + 1..], []))
            == (result + [DropSurrogates(current)]) + BootParseUnits(units[i + 1..], []);
          result := result + [DropSurrogates(current)];
          current := [];
        } else {
          return;
        }
      } else {
        current := current + [units[i]];
      }
    }
  }

  predicate NoSurrogates(s: Units) {
    forall i :: 0 <= i < |s| ==> !Surrogate(s[i])
  }

  lemma {:induction false} PlainString(s: Units)
    requires NoSurrogates(s)
    ensures Lossy(s) == s && DropSurrogates(s) == s
    decreases |s|
  {
    if s == [] {
    } else {
      PlainString(s[1..]);
      assert s == [s[0]] + s[1..];
    }
  }

  lemma {:induction false} DecodersAgreeOnUnits(units: Units, cur: Units)
    requires NoSurrogates(units) && NoSurrogates(cur)
    ensures BootParseUnits(units, cur) == ParseUnits(units, cur)
    decreases |units|
  {
    if units == [] {
    } else {
      if units[0] != 0 {
        DecodersAgreeOnUnits(units[1..], cur + [units[0]]);
      } else if cur != [] {
        PlainString(cur);
        DecodersAgreeOnUnits(units[1..], []);
      }
    }
  }

  /** The boot loader reads what mkhive would read, for whole code units without surrogates. */
  lemma DecodersAgree(data: seq<byte>)
    requires |data| % 2 == 0 && NoSurrogates(Pairs(data))
    ensures BootParse(data) == Parse(data)
  {
    DecodersAgreeOnUnits(Pairs(data), []);
  }

  // ------------------------------------------------------------------ APPEND

  /** Adds every string of `add` that is missing, in order. */
  function Merge(cur: seq<Units>, add: seq<Units>): seq<Units>
    decreases |add|
  {
    if add == [] then cur
    else Merge(if add[0] in cur then cur else cur + [add[0]], add[1..])
  }

  /** The bytes of a value after an APPEND of `data`. */
  function Append(stored: seq<byte>, data: seq<byte>): seq<byte> {
    Encode(Merge(Parse(stored), Parse(data)))
  }

  predicate Distinct(list: seq<Units>) {
    forall i, j :: 0 <= i < j < |list| ==> list[i] != list[j]
  }

  /** The old strings stay in front and in order; every new one is there; nothing is added twice or unasked. */
  lemma {:induction false} MergeAdds(cur: seq<Units>, add: seq<Units>)
    ensures |cur| <= |Merge(cur, add)| && Merge(cur, add)[..|cur|] == cur
    ensures forall s :: s in Merge(cur, add) <==> s in cur || s in add
    ensures forall i :: |cur| <= i < |Merge(cur, add)| ==> Merge(cur, add)[i] !in Merge(cur, add)[..i]
    decreases |add|
  {
    if add == [] {
      assert cur[..|cur|] == cur;
    } else {
      var next := if add[0] in cur then cur else cur + [add[0]];
      MergeAdds(next, add[1..]);
      var r := Merge(cur, add);
      assert r[..|cur|] == r[..|next|][..|cur|] == cur;
      assert add == [add[0]] + add[1..];
      forall s
        ensures s in r <==> s in cur || s in add
      {
        assert s in add <==> s == add[0] || s in add[1..];
      }
      if add[0] !in cur {
        assert r[|cur|] == r[..|next|][|cur|] == add[0];
        assert r[..|cur|] == cur;
      }
    }
  }

  lemma {:induction false} MergeNothing(cur: seq<Units>, add: seq<Units>)
    requires forall s :: s in add ==> s in cur
    ensures Merge(cur, add) == cur
    decreases |add|
  {
    if add == [] {
    } else {
      assert add[0] in add;
      forall s | s in add[1..]
        ensures s in cur
      {
        assert s in add;
      }
      MergeNothing(cur, add[1..]);
    }
  }

  lemma MergeItems(cur: seq<Units>, add: seq<Units>)
    requires Items(cur) && Items(add)
    ensures Items(Merge(cur, add))
  {
    MergeAdds(cur, add);
    var r := Merge(cur, add);
    forall i | 0 <= i < |r|
      ensures Item(r[i])
    {
      assert r[i] in r;
    }
  }

  /** After an APPEND the value decodes to the merged list, whatever bytes were stored before. */
  lemma AppendDecodes(stored: seq<byte>, data: seq<byte>)
    ensures Parse(Append(stored, data)) == Merge(Parse(stored), Parse(data))
  {
    ParseUnitsItems(Pairs(stored), []);
    ParseUnitsItems(Pairs(data), []);
    MergeItems(Parse(stored), Parse(data));
    RoundTrip(Merge(Parse(stored), Parse(data)));
  }

  /** Appending the same data again changes no byte. */
  lemma AppendIdempotent(stored: seq<byte>, data: seq<byte>)
    ensures Append(Append(stored, data), data) == Append(stored, data)
  {
    AppendDecodes(stored, data);
    MergeAdds(Parse(stored), Parse(data));
    MergeNothing(Merge(Parse(stored), Parse(data)), Parse(data));
  }

  method AppendMultiSz(stored: seq<byte>, data: seq<byte>) returns (merged: seq<byte>)
    ensures merged == Append(stored, data)
  {
    var curList := ParseMultiSz(stored);
    var addList := ParseMultiSz(data);
    for i := 0 to |addList|
      invariant Merge(curList, addList[i..]) == Merge(Parse(stored), Parse(data))
    {
      assert addList[i..][1..] == addList[i + 1..];
      if addList[i] !in curList {
        curList := curList + [addList[i]];
      }
    }
    merged := EncodeMultiSz(curList);
  }
}
