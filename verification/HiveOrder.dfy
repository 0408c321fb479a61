/** The order of a subkey list: a stable sort by the hash of the names. */
module HiveOrder {
  import opened Bytes
  import opened Strings

  datatype Item = Item(key: u32, hash: u32)

  /** Multiply by 37 and add the upper-cased character, modulo 2^32. */
  function Hash(chars: seq<nat>): u32 {
    if chars == [] then 0
    else (Hash(chars[..|chars| - 1]) * 37 + UpperChar(chars[|chars| - 1])) % U32_END
  }

  /** `compute_name_hash`. */
  function NameHash(name: seq<byte>): u32 {
    Hash(Chars(name))
  }

  function Pow37(n: nat): nat {
    if n == 0 then 1 else 37 * Pow37(n - 1)
  }

  /** The characters, lower-case letters as upper-case ones, each times a power of 37: the last one counts once. */
  function Weighted(chars: seq<nat>): nat {
    if chars == [] then 0
    else
      var c := chars[0];
      (if 0x61 <= c <= 0x7A then c - 0x20 else c) * Pow37(|chars| - 1) + Weighted(chars[1..])
  }

  lemma {:induction false} WeightedLast(chars: seq<nat>)
    requires chars != []
    ensures Weighted(chars) == 37 * Weighted(chars[..|chars| - 1]) + UpperChar(chars[|chars| - 1])
    decreases |chars|
  {
    var n := |chars| - 1;
    var rest, front := chars[1..], chars[..n];
    if n == 0 {
      assert rest == [] && front == [];
    } else {
      WeightedLast(rest);
      assert rest[..|rest| - 1] == front[1..] && rest[|rest| - 1] == chars[n];
      assert Weighted(chars) == UpperChar(chars[0]) * Pow37(n) + Weighted(rest);
      assert Weighted(front) == UpperChar(chars[0]) * Pow37(n - 1) + Weighted(front[1..]);
      PowStep(UpperChar(chars[0]), n);
    }
  }

  lemma PowStep(u: nat, n: nat)
    requires n > 0
    ensures u * Pow37(n) == 37 * (u * Pow37(n - 1))
  {
    var p := Pow37(n - 1);
    assert u * (37 * p) == 37 * (u * p);
  }

  /** The hash is the weighted sum of the characters modulo 2^32. */
  lemma {:induction false} HashIsSum(chars: seq<nat>)
    ensures Hash(chars) == Weighted(chars) % 0x1_0000_0000
    decreases |chars|
  {
    if chars == [] {
    } else {
      var n := |chars| - 1;
      HashIsSum(chars[..n]);
      WeightedLast(chars);
      ModStep(Weighted(chars[..n]), UpperChar(chars[n]));
    }
  }

  lemma ModStep(w: nat, u: nat)
    ensures (w % 0x1_0000_0000 * 37 + u) % 0x1_0000_0000 == (37 * w + u) % 0x1_0000_0000
  {
    var q, r := w / 0x1_0000_0000, w % 0x1_0000_0000;
    assert 37 * w + u == 0x1_0000_0000 * (37 * q) + (37 * r + u);
  }

  function InsertAt<T>(s: seq<T>, p: nat, x: T): (r: seq<T>)
    requires p <= |s|
    ensures |r| == |s| + 1 && r[p] == x
    ensures forall i :: 0 <= i < p ==> r[i] == s[i]
    ensures forall i :: p < i <= |s| ==> r[i] == s[i - 1]
  {
    s[..p] + [x] + s[p..]
  }

  predicate Sorted(hs: seq<u32>) {
    forall i, j :: 0 <= i < j < |hs| ==> hs[i] <= hs[j]
  }

  /** Where a new last element of hash `h` goes: behind every element whose hash is not larger. */
  function Place(hs: seq<u32>, h: u32): (p: nat)
    ensures p <= |hs|
    ensures p > 0 ==> hs[p - 1] <= h
    ensures forall i :: p <= i < |hs| ==> hs[i] > h
  {
    if hs == [] || hs[|hs| - 1] <= h then |hs| else Place(hs[..|hs| - 1], h)
  }

  /** `hs` read through the index list `order`. */
  function Through<T>(hs: seq<T>, order: seq<nat>): (r: seq<T>)
    requires forall i :: 0 <= i < |order| ==> order[i] < |hs|
    ensures |r| == |order| && forall i :: 0 <= i < |order| ==> r[i] == hs[order[i]]
  {
    seq(|order|, i requires 0 <= i < |order| => hs[order[i]])
  }

  /** The indices of `hs` in the order of a stable sort. */
  function Order(hs: seq<u32>): (order: seq<nat>)
    ensures |order| == |hs|
    ensures forall i :: 0 <= i < |order| ==> order[i] < |hs|
  {
    if hs == [] then []
    else
      var init, last := hs[..|hs| - 1], |hs| - 1;
      InsertAt(Order(init), Place(Through(init, Order(init)), hs[last]), last)
  }

  /** The index at position `i` comes rightly before the one at `j`: smaller hash, or equal hash and earlier. */
  ghost predicate Precedes(hs: seq<u32>, order: seq<nat>, i: nat, j: nat)
    requires i < |order| && j < |order| && order[i] < |hs| && order[j] < |hs|
  {
    hs[order[i]] < hs[order[j]] || (hs[order[i]] == hs[order[j]] && order[i] < order[j])
  }

  /** `order` sorts `hs`, hits every index exactly once, and keeps the order of equal hashes. */
  ghost predicate StableSortOf(hs: seq<u32>, order: seq<nat>) {
    && |order| == |hs|
    && (forall i :: 0 <= i < |order| ==> order[i] < |hs|)
    && (forall i, j {:trigger Precedes(hs, order, i, j)} :: 0 <= i < j < |order| ==> Precedes(hs, order, i, j))
  }

  lemma StablePair(hs: seq<u32>, o: seq<nat>, p: nat, i: nat, j: nat)
    requires hs != [] && StableSortOf(hs[..|hs| - 1], o) && p <= |o| && i < j <= |o|
    requires forall k: nat :: k < p ==> hs[o[k]] <= hs[|hs| - 1]
    requires forall k: nat :: p <= k < |o| ==> hs[|hs| - 1] < hs[o[k]]
    ensures var r := InsertAt(o, p, |hs| - 1);
      r[i] < |hs| && r[j] < |hs| && Precedes(hs, r, i, j)
  {
    var init := hs[..|hs| - 1];
    if j < p {
      assert Precedes(init, o, i, j);
    } else if i < p < j {
      assert Precedes(init, o, i, j - 1);
    } else if p < i {
      assert Precedes(init, o, i - 1, j - 1);
    }
  }

  /** `Place` separates the hashes that are at most `h` from the larger ones. */
  lemma PlaceSplits(s: seq<u32>, h: u32, k: nat)
    requires Sorted(s) && k < |s|
    ensures k < Place(s, h) ==> s[k] <= h
    ensures k >= Place(s, h) ==> h < s[k]
  {
    var p := Place(s, h);
    assert k + 1 < p ==> s[k] <= s[p - 1];
  }

  lemma StableStep(hs: seq<u32>, o: seq<nat>, p: nat)
    requires hs != [] && StableSortOf(hs[..|hs| - 1], o) && p <= |o|
    requires forall k: nat :: k < p ==> hs[o[k]] <= hs[|hs| - 1]
    requires forall k: nat :: p <= k < |o| ==> hs[|hs| - 1] < hs[o[k]]
    ensures StableSortOf(hs, InsertAt(o, p, |hs| - 1))
  {
    var r := InsertAt(o, p, |hs| - 1);
    ThroughInsert(hs, o, p);
    forall i, j {:trigger Precedes(hs, r, i, j)} | 0 <= i < j < |r|
      ensures Precedes(hs, r, i, j)
    {
      StablePair(hs, o, p, i, j);
    }
  }

  lemma {:induction false} OrderIsStableSort(hs: seq<u32>)
    ensures StableSortOf(hs, Order(hs))
  {
    if hs == [] {
    } else {
      var init := hs[..|hs| - 1];
      OrderIsStableSort(init);
      OrderSorts(init);
      var o := Order(init);
      var s := Through(init, o);
      var p := Place(s, hs[|hs| - 1]);
      forall k: nat | k < |o|
        ensures k < p ==> hs[o[k]] <= hs[|hs| - 1]
        ensures p <= k ==> hs[|hs| - 1] < hs[o[k]]
      {
        PlaceSplits(s, hs[|hs| - 1], k);
        assert s[k] == hs[o[k]];
      }
      StableStep(hs, o, p);
    }
  }

  /** Every index has a place in the order. */
  lemma {:induction false} OrderHits(hs: seq<u32>, j: nat) returns (i: nat)
    requires j < |hs|
    ensures i < |hs| && Order(hs)[i] == j
  {
    OrderStep(hs);
    hide Order, Place, Through, InsertAt;
    var init, last := hs[..|hs| - 1], |hs| - 1;
    var p := Place(Through(init, Order(init)), hs[last]);
    if j == last {
      i := p;
    } else {
      var i' := OrderHits(init, j);
      i := if i' < p then i' else i' + 1;
    }
  }

  lemma SortedStep(hs: seq<u32>, o: seq<nat>, p: nat)
    requires hs != [] && forall i {:trigger o[i]} :: 0 <= i < |o| ==> o[i] < |hs| - 1
    requires Sorted(Through(hs[..|hs| - 1], o)) && p == Place(Through(hs[..|hs| - 1], o), hs[|hs| - 1])
    ensures forall i {:trigger InsertAt(o, p, |hs| - 1)[i]} :: 0 <= i <= |o| ==> InsertAt(o, p, |hs| - 1)[i] < |hs|
    ensures Sorted(Through(hs, InsertAt(o, p, |hs| - 1)))
  {
    ThroughInsert(hs, o, p);
    SortedInsert(Through(hs[..|hs| - 1], o), p, hs[|hs| - 1]);
  }

  lemma {:induction false} OrderSorts(hs: seq<u32>)
    ensures Sorted(Through(hs, Order(hs)))
  {
    if hs == [] {
    } else {
      var init := hs[..|hs| - 1];
      OrderSorts(init);
      var o := Order(init);
      SortedStep(hs, o, Place(Through(init, o), hs[|hs| - 1]));
    }
  }

  lemma SortedInsert(s: seq<u32>, p: nat, h: u32)
    requires Sorted(s) && p == Place(s, h)
    ensures Sorted(InsertAt(s, p, h))
  {
  }

  lemma ThroughInsert(hs: seq<u32>, o: seq<nat>, p: nat)
    requires hs != [] && p <= |o| && forall i {:trigger o[i]} :: 0 <= i < |o| ==> o[i] < |hs| - 1
    ensures forall i {:trigger InsertAt(o, p, |hs| - 1)[i]} :: 0 <= i <= |o| ==> InsertAt(o, p, |hs| - 1)[i] < |hs|
    ensures Through(hs, InsertAt(o, p, |hs| - 1)) ==
      InsertAt(Through(hs[..|hs| - 1], o), p, hs[|hs| - 1])
  {
    var r := InsertAt(o, p, |hs| - 1);
    forall i | 0 <= i <= |o|
      ensures r[i] < |hs|
    {
      assert r[i] == if i < p then o[i] else if i == p then |hs| - 1 else o[i - 1];
    }
    var a, b := Through(hs, r), InsertAt(Through(hs[..|hs| - 1], o), p, hs[|hs| - 1]);
    forall i | 0 <= i <= |o|
      ensures a[i] == b[i]
    {
      assert r[i] == if i < p then o[i] else if i == p then |hs| - 1 else o[i - 1];
    }
  }

  function Hashes(items: seq<Item>): (hs: seq<u32>)
    ensures |hs| == |items| && forall i :: 0 <= i < |items| ==> hs[i] == items[i].hash
  {
    seq(|items|, i requires 0 <= i < |items| => items[i].hash)
  }

  /** `sort_by_key` on the hash: the standard library's sort is stable. */
  function SortByHash(items: seq<Item>): (r: seq<Item>)
    ensures |r| == |items|
  {
    Through(items, Order(Hashes(items)))
  }

  lemma HashesOfSorted(items: seq<Item>)
    ensures Hashes(SortByHash(items)) == Through(Hashes(items), Order(Hashes(items)))
    ensures Sorted(Hashes(SortByHash(items)))
  {
    OrderSorts(Hashes(items));
  }

  /** Adding one item at the end and sorting puts it behind the last item that is not larger. */
  lemma SortSnoc(items: seq<Item>, x: Item)
    ensures SortByHash(items + [x]) ==
      InsertAt(SortByHash(items), Place(Hashes(SortByHash(items)), x.hash), x)
  {
    var hs := Hashes(items + [x]);
    assert hs[..|items|] == Hashes(items);
    HashesOfSorted(items);
    var o := Order(Hashes(items));
    var p := Place(Through(Hashes(items), o), x.hash);
    assert Order(hs) == InsertAt(o, p, |items|);
    PickInsert(items, o, p, x);
  }

  lemma PickInsert(items: seq<Item>, o: seq<nat>, p: nat, x: Item)
    requires p <= |o| && forall i :: 0 <= i < |o| ==> o[i] < |items|
    ensures forall i :: 0 <= i <= |o| ==> InsertAt(o, p, |items|)[i] <= |items|
    ensures Through(items + [x], InsertAt(o, p, |items|)) == InsertAt(Through(items, o), p, x)
  {
    var r := InsertAt(o, p, |items|);
    forall i | 0 <= i <= |o|
      ensures r[i] <= |items|
    {
      assert r[i] == if i < p then o[i] else if i == p then |items| else o[i - 1];
    }
    var a, b := Through(items + [x], r), InsertAt(Through(items, o), p, x);
    forall i | 0 <= i <= |o|
      ensures a[i] == b[i]
    {
      assert r[i] == if i < p then o[i] else if i == p then |items| else o[i - 1];
    }
  }

  lemma InsertPermutes(s: seq<Item>, p: nat, x: Item)
    requires p <= |s|
    ensures multiset(InsertAt(s, p, x)) == multiset(s) + multiset{x}
  {
    assert s == s[..p] + s[p..];
  }

  /** Sorting keeps the items, each as often as before. */
  lemma {:induction false} SortByHashPermutes(items: seq<Item>)
    ensures multiset(SortByHash(items)) == multiset(items)
  {
    if items == [] {
      assert SortByHash(items) == [];
    } else {
      var init, x := items[..|items| - 1], items[|items| - 1];
      assert items == init + [x];
      SortByHashPermutes(init);
      SortSnoc(init, x);
      InsertPermutes(SortByHash(init), Place(Hashes(SortByHash(init)), x.hash), x);
    }
  }

  function Upto(n: nat): (s: seq<nat>)
    ensures |s| == n && forall i :: 0 <= i < n ==> s[i] == i
  {
    seq(n, i => i)
  }

  lemma ThroughUpto(hs: seq<u32>)
    ensures Through(hs, Upto(|hs|)) == hs
  {
  }

  lemma UptoNext(n: nat)
    ensures InsertAt(Upto(n), n, n) == Upto(n + 1)
  {
  }

  lemma OrderStep(hs: seq<u32>)
    requires hs != []
    ensures var init := hs[..|hs| - 1];
            Order(hs) == InsertAt(Order(init), Place(Through(init, Order(init)), hs[|hs| - 1]), |hs| - 1)
  {
  }

  lemma PlaceAtEnd(hs: seq<u32>, h: u32)
    requires hs != [] ==> hs[|hs| - 1] <= h
    ensures Place(hs, h) == |hs|
  {
  }

  lemma {:induction false} OrderOfSorted(hs: seq<u32>)
    requires Sorted(hs)
    ensures Order(hs) == Upto(|hs|)
  {
    if hs == [] {
    } else {
      var init := hs[..|hs| - 1];
      OrderOfSorted(init);
      hide Order, Place, Through, Upto, InsertAt;
      ThroughUpto(init);
      UptoNext(|init|);
      OrderStep(hs);
      PlaceAtEnd(init, hs[|hs| - 1]);
    }
  }

  lemma SortSingle(x: Item)
    ensures SortByHash([x]) == [x]
  {
    SortOfSorted([x]);
  }

  /** A sorted list is left as it is. */
  lemma SortOfSorted(items: seq<Item>)
    requires Sorted(Hashes(items))
    ensures SortByHash(items) == items
  {
    OrderOfSorted(Hashes(items));
  }

  /** Sorting after every addition gives the same list as sorting once at the end. */
  lemma SortIncrementally(items: seq<Item>, x: Item)
    ensures SortByHash(SortByHash(items) + [x]) == SortByHash(items + [x])
  {
    var s := SortByHash(items);
    HashesOfSorted(items);
    SortOfSorted(s);
    SortSnoc(s, x);
    SortSnoc(items, x);
  }
}
