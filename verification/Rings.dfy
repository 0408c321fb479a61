/** The circular doubly linked lists handed to the kernel. */
module Rings {

  class ListEntry {
    var flink: ListEntry?
    var blink: ListEntry?

    constructor ()
    {
    }
  }

  /** The node `k` steps forward from the head. */
  function Node(head: ListEntry, entries: seq<ListEntry>, k: nat): ListEntry
    requires k <= |entries| + 1
  {
    if 0 < k <= |entries| then entries[k - 1] else head
  }

  ghost predicate LinkAt(head: ListEntry, entries: seq<ListEntry>, k: nat)
    requires k <= |entries|
    reads head, entries
  {
    Node(head, entries, k).flink == Node(head, entries, k + 1)
      && Node(head, entries, k + 1).blink == Node(head, entries, k)
  }

  ghost predicate Distinct(head: ListEntry, entries: seq<ListEntry>) {
    head !in entries && forall i, j {:trigger entries[i], entries[j]} ::
      0 <= i < j < |entries| ==> entries[i] != entries[j]
  }

  /** Forward links run from the head through `entries` and back, backward links the other way. */
  ghost predicate Ring(head: ListEntry, entries: seq<ListEntry>)
    reads head, entries
  {
    Distinct(head, entries) && forall k: nat {:trigger LinkAt(head, entries, k)} ::
      k <= |entries| ==> LinkAt(head, entries, k)
  }

  method InitHead(head: ListEntry)
    modifies head
    ensures Ring(head, [])
  {
    head.flink := head;
    head.blink := head;
  }

  /** Inserts `entry` before the head; nothing but the two ends is rewritten. */
  method ListInsertTail(head: ListEntry, entry: ListEntry, ghost entries: seq<ListEntry>)
    requires Ring(head, entries) && entry != head && entry !in entries
    modifies head, entry, head.blink
    ensures Ring(head, entries + [entry])
  {
    assert LinkAt(head, entries, |entries|);
    var blink := head.blink;
    assert blink == Node(head, entries, |entries|);
    entry.flink := head;
    entry.blink := blink;
    blink.flink := entry;
    head.blink := entry;
    var longer := entries + [entry];
    forall k: nat {:trigger LinkAt(head, longer, k)} | k <= |longer| ensures LinkAt(head, longer, k) {
      if k < |entries| {
        assert old(LinkAt(head, entries, k));
      }
    }
  }

  /** Appends all entries, as the load order and boot driver lists are made. */
  method InsertAll(head: ListEntry, entries: seq<ListEntry>)
    requires Distinct(head, entries)
    modifies head, entries
    ensures Ring(head, entries)
  {
    InitHead(head);
    for i := 0 to |entries|
      invariant Ring(head, entries[..i])
    {
      assert LinkAt(head, entries[..i], i);
      ListInsertTail(head, entries[i], entries[..i]);
      assert entries[..i] + [entries[i]] == entries[..i + 1];
    }
    assert entries[..|entries|] == entries;
  }

  /** Links a whole vector of descriptors at once: each to the one before it, the last back to the head. */
  method LinkToHead(head: ListEntry, entries: seq<ListEntry>)
    requires Distinct(head, entries)
    modifies head, entries
    ensures Ring(head, entries)
  {
    InitHead(head);
    if entries == [] {
      return;
    }
    for i := 0 to |entries|
      invariant forall k: nat {:trigger LinkAt(head, entries, k)} :: k < i ==> LinkAt(head, entries, k)
      invariant i == |entries| ==> LinkAt(head, entries, i)
    {
      label Step:
      var entry := entries[i];
      if i == 0 {
        entry.blink := head;
        head.flink := entry;
      } else {
        var prev := entries[i - 1];
        entry.blink := prev;
        prev.flink := entry;
      }
      if i == |entries| - 1 {
        entry.flink := head;
        head.blink := entry;
      }
      assert LinkAt(head, entries, i);
      forall k: nat {:trigger LinkAt(head, entries, k)} | k < i ensures LinkAt(head, entries, k) {
        assert old@Step(LinkAt(head, entries, k));
        assert Node(head, entries, k + 1) == entries[k];
      }
    }
  }

  // ------------------------------------------------------------------ walking

  /** Where `k` forward links lead, staying among the given nodes. */
  function Forward(from: ListEntry, k: nat, nodes: set<ListEntry>): ListEntry?
    reads nodes
    decreases k
  {
    if k == 0 then from
    else if from in nodes && from.flink != null then Forward(from.flink, k - 1, nodes)
    else null
  }

  function Backward(from: ListEntry, k: nat, nodes: set<ListEntry>): ListEntry?
    reads nodes
    decreases k
  {
    if k == 0 then from
    else if from in nodes && from.blink != null then Backward(from.blink, k - 1, nodes)
    else null
  }

  function Nodes(head: ListEntry, entries: seq<ListEntry>): set<ListEntry> {
    {head} + set e | e in entries
  }

  lemma {:induction false} ForwardFrom(head: ListEntry, entries: seq<ListEntry>, i: nat, k: nat)
    requires Ring(head, entries) && i + k <= |entries| + 1
    ensures Forward(Node(head, entries, i), k, Nodes(head, entries)) == Node(head, entries, i + k)
    decreases k
  {
    if k == 0 {
    } else {
      assert LinkAt(head, entries, i);
      ForwardFrom(head, entries, i + 1, k - 1);
    }
  }

  lemma {:induction false} BackwardFrom(head: ListEntry, entries: seq<ListEntry>, i: nat, k: nat)
    requires Ring(head, entries) && k <= i <= |entries| + 1
    ensures Backward(Node(head, entries, i), k, Nodes(head, entries)) == Node(head, entries, i - k)
    decreases k
  {
    if k == 0 {
    } else {
      assert LinkAt(head, entries, i - 1);
      BackwardFrom(head, entries, i - 1, k - 1);
    }
  }

  /** Walking forward visits the entries in order and then the head; walking backward visits them in reverse. */
  lemma WalksAreOrdered(head: ListEntry, entries: seq<ListEntry>)
    requires Ring(head, entries)
    ensures forall k: nat {:trigger entries[k]} :: k < |entries| ==>
              && Forward(head, k + 1, Nodes(head, entries)) == entries[k]
              && Backward(head, k + 1, Nodes(head, entries)) == entries[|entries| - 1 - k]
    ensures Forward(head, |entries| + 1, Nodes(head, entries)) == head
      == Backward(head, |entries| + 1, Nodes(head, entries))
  {
    var n := |entries|;
    forall k: nat {:trigger entries[k]} | k < n
      ensures Forward(head, k + 1, Nodes(head, entries)) == entries[k]
      ensures Backward(head, k + 1, Nodes(head, entries)) == entries[n - 1 - k]
    {
      ForwardFrom(head, entries, 0, k + 1);
      BackwardFrom(head, entries, n + 1, k + 1);
    }
    ForwardFrom(head, entries, 0, n + 1);
    BackwardFrom(head, entries, n + 1, n + 1);
  }

  /** A ring of given entries is linked in one way only, so both ways of building it end alike. */
  twostate lemma OneRing(head: ListEntry, entries: seq<ListEntry>)
    requires old(Ring(head, entries)) && Ring(head, entries)
    ensures forall e {:trigger e.flink} {:trigger e.blink} ::
      e == head || e in entries ==> e.flink == old(e.flink) && e.blink == old(e.blink)
  {
    forall e | e == head || e in entries ensures e.flink == old(e.flink) && e.blink == old(e.blink) {
      if e == head {
        assert old(LinkAt(head, entries, 0)) && LinkAt(head, entries, 0);
        assert old(LinkAt(head, entries, |entries|)) && LinkAt(head, entries, |entries|);
      } else {
        var i :| 0 <= i < |entries| && entries[i] == e;
        assert old(LinkAt(head, entries, i)) && LinkAt(head, entries, i);
        assert old(LinkAt(head, entries, i + 1)) && LinkAt(head, entries, i + 1);
      }
    }
  }
}
