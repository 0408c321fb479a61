/** `HiveString`: the case-insensitive comparison of names by UTF-16 code units. */
module HiveStrings {
  import opened Bytes
  import opened Strings
  import opened HiveReading

  datatype Ordering = Less | Equal | Greater

  /** The upper-case table of the hive crate: Latin, Cyrillic and full-width letters. */
  function Upcase(unit: u16): u16 {
    if 0x61 <= unit <= 0x7A || 0xE0 <= unit <= 0xF6 || 0xF8 <= unit <= 0xFE
      || 0x430 <= unit <= 0x44F || 0xFF41 <= unit <= 0xFF5A then unit - 0x20
    else if unit == 0xFF then 0x178
    else if unit == 0x451 then 0x401
    else unit
  }

  /** A run of letters and their upper-case forms, 0x20 below. */
  function Letters(first: u16, count: nat): (run: seq<(u16, u16)>)
    requires 0x20 <= first && first + count <= 0x1_0000
    ensures |run| == count && forall i :: 0 <= i < count ==> run[i] == (first + i, first + i - 0x20)
  {
    seq(count, i requires 0 <= i < count => (first + i, first + i - 0x20))
  }

  /** `BMP_UPPERCASE_TABLE`: pairs of a letter and its upper-case form, by ascending letter. */
  function UppercaseTable(): (table: seq<(u16, u16)>)
    ensures |table| == 116
  {
    Letters(0x61, 26) + Letters(0xE0, 23) + Letters(0xF8, 7) + [(0xFF, 0x178)]
    + Letters(0x430, 32) + [(0x451, 0x401)] + Letters(0xFF41, 26)
  }

  /** The letter of row `i`. */
  function RowLetter(i: nat): u16
    requires i < 116
  {
    if i < 26 then 0x61 + i
    else if i < 49 then 0xE0 + (i - 26)
    else if i < 57 then 0xF8 + (i - 49)
    else if i < 89 then 0x430 + (i - 57)
    else if i == 89 then 0x451
    else 0xFF41 + (i - 90)
  }

  lemma TableRow(i: nat)
    requires i < 116
    ensures UppercaseTable()[i] == (RowLetter(i), Upcase(RowLetter(i)))
  {
  }

  lemma RowsAscend(i: nat, j: nat)
    requires i < j < 116
    ensures RowLetter(i) < RowLetter(j)
  {
  }

  lemma RowOf(unit: u16) returns (i: nat)
    requires Upcase(unit) != unit
    ensures i < 116 && RowLetter(i) == unit
  {
    i := if unit < 0xE0 then unit - 0x61
      else if unit < 0xF8 then 26 + (unit - 0xE0)
      else if unit < 0x100 then 49 + (unit - 0xF8)
      else if unit < 0x450 then 57 + (unit - 0x430)
      else if unit == 0x451 then 89
      else 90 + (unit - 0xFF41);
  }

  /** A unit without a row is its own upper-case form. */
  lemma NoRow(unit: u16)
    requires forall i :: 0 <= i < 116 ==> RowLetter(i) != unit
    ensures Upcase(unit) == unit
  {
    if Upcase(unit) != unit {
      var i := RowOf(unit);
    }
  }

  /** The binary search in the table upper-cases. */
  method ToUppercase(unit: u16) returns (upper: u16)
    ensures upper == Upcase(unit)
  {
    var low, high := 0, 116;
    while low < high
      invariant 0 <= low <= high <= 116
      invariant forall i :: 0 <= i < low ==> RowLetter(i) < unit
      invariant forall i :: high <= i < 116 ==> unit < RowLetter(i)
    {
      var mid := (low + high) / 2;
      TableRow(mid);
      var row := UppercaseTable()[mid];
      forall i {:trigger RowLetter(i)} | 0 <= i < 116 && i != mid
        ensures i < mid ==> RowLetter(i) < RowLetter(mid)
        ensures mid < i ==> RowLetter(mid) < RowLetter(i)
      {
        if i < mid {
          RowsAscend(i, mid);
        } else {
          RowsAscend(mid, i);
        }
      }
      if row.0 < unit {
        low := mid + 1;
      } else if unit < row.0 {
        high := mid;
      } else {
        return row.1;
      }
    }
    NoRow(unit);
    return unit;
  }

  /** An upper-case form has no other one, and for ASCII it is that of the writer's hash and of mkhive's paths. */
  lemma UpcaseAscii(unit: u16)
    ensures Upcase(Upcase(unit)) == Upcase(unit)
    ensures unit < 0x80 ==> Upcase(unit) == UpperChar(unit)
  {
  }

  function UpcaseAll(units: seq<u16>): (r: seq<u16>)
    ensures |r| == |units| && forall i :: 0 <= i < |r| ==> r[i] == Upcase(units[i])
  {
    seq(|units|, i requires 0 <= i < |units| => Upcase(units[i]))
  }

  /** The code units of a stored name; an odd last byte of a UTF-16 name is left out. */
  function Units(s: HiveString): seq<u16> {
    match s
    case Latin1(bytes) => Latin1Units(bytes)
    case Utf16LE(bytes) => Pairs(bytes)
  }

  /** Lexicographic order, a proper prefix being less. */
  function Compare(a: seq<u16>, b: seq<u16>): Ordering {
    if a == [] then (if b == [] then Equal else Less)
    else if b == [] then Greater
    else if a[0] < b[0] then Less
    else if a[0] > b[0] then Greater
    else Compare(a[1..], b[1..])
  }

  /** Two names are the same for the registry. */
  predicate SameName(a: seq<u16>, b: seq<u16>) {
    UpcaseAll(a) == UpcaseAll(b)
  }

  /** `cmp_iter` walks both names at once and stops at the first difference. */
  method CmpIter(a: seq<u16>, b: seq<u16>) returns (r: Ordering)
    ensures r == Compare(UpcaseAll(a), UpcaseAll(b))
    ensures r == Equal <==> SameName(a, b)
  {
    var i := 0;
    ghost var ua, ub := UpcaseAll(a), UpcaseAll(b);
    CompareEqualIff(ua, ub);
    while true
      invariant i <= |a| && i <= |b|
      invariant Compare(ua, ub) == Compare(ua[i..], ub[i..])
      decreases |a| - i
    {
      if i < |a| && i < |b| {
        var thisUpper := ToUppercase(a[i]);
        var otherUpper := ToUppercase(b[i]);
        assert ua[i..][0] == thisUpper && ub[i..][0] == otherUpper;
        assert ua[i..][1..] == ua[i + 1..] && ub[i..][1..] == ub[i + 1..];
        if thisUpper != otherUpper {
          return if thisUpper < otherUpper then Less else Greater;
        }
      } else if i < |a| {
        return Greater;
      } else if i < |b| {
        return Less;
      } else {
        return Equal;
      }
      i := i + 1;
    }
  }

  lemma {:induction false} CompareEqualIff(a: seq<u16>, b: seq<u16>)
    ensures Compare(a, b) == Equal <==> a == b
  {
    if a == [] || b == [] {
    } else {
      CompareEqualIff(a[1..], b[1..]);
      assert a == [a[0]] + a[1..] && b == [b[0]] + b[1..];
    }
  }

  /** One list of units is less than another by their first different unit, or as a part the other goes on from. */
  lemma {:induction false} CompareLess(a: seq<u16>, b: seq<u16>)
    ensures Compare(a, b) == Less <==> exists k :: LessAt(a, b, k)
  {
    if a == [] || b == [] || a[0] != b[0] {
      if b != [] && (a == [] || a[0] < b[0]) {
        assert LessAt(a, b, 0);
      }
    } else {
      CompareLess(a[1..], b[1..]);
      if k :| LessAt(a[1..], b[1..], k) {
        assert a[..k + 1] == [a[0]] + a[1..][..k] && b[..k + 1] == [b[0]] + b[1..][..k];
        assert LessAt(a, b, k + 1);
      }
      if k :| LessAt(a, b, k) {
        assert a[1..][..k - 1] == a[..k][1..] && b[1..][..k - 1] == b[..k][1..];
        assert LessAt(a[1..], b[1..], k - 1);
      }
    }
  }

  predicate LessAt(a: seq<u16>, b: seq<u16>, k: int) {
    0 <= k <= |a| && k <= |b| && a[..k] == b[..k] && (k == |a| < |b| || (k < |a| && k < |b| && a[k] < b[k]))
  }

  /** The comparison is a total preorder: it has an opposite and it chains. */
  lemma {:induction false} CompareFlips(a: seq<u16>, b: seq<u16>)
    ensures Compare(a, b) == Less <==> Compare(b, a) == Greater
    ensures Compare(a, b) == Equal <==> Compare(b, a) == Equal
  {
    if a == [] || b == [] {
    } else {
      CompareFlips(a[1..], b[1..]);
    }
  }

  lemma {:induction false} CompareChains(a: seq<u16>, b: seq<u16>, c: seq<u16>)
    requires Compare(a, b) != Greater && Compare(b, c) != Greater
    ensures Compare(a, c) != Greater
    ensures Compare(a, c) == Equal ==> Compare(a, b) == Equal && Compare(b, c) == Equal
  {
    if a != [] && b != [] && c != [] && a[0] == b[0] == c[0] {
      CompareChains(a[1..], b[1..], c[1..]);
    }
  }
}
