/**
 The iterators of the hive parser. Each object promises with `Rest()` what its further calls of
 `Next` will yield; `Next` yields the first of it and keeps the remainder.
 */
module HiveIterators {
  import opened Wrappers
  import opened Bytes
  import opened HiveReading

  /** One call of `next`: the first of `rest` is yielded and `rest'` is left, or nothing is left. */
  ghost predicate Yields<T>(rest: seq<T>, r: Option<T>, rest': seq<T>) {
    if rest == [] then r == None && rest' == []
    else r == Some(rest[0]) && rest' == rest[1..]
  }

  /** What is yielded from a non-empty part is yielded from the whole. */
  lemma YieldsAppend<T>(rest: seq<T>, r: Option<T>, rest': seq<T>, tail: seq<T>)
    requires Yields(rest, r, rest') && r.Some?
    ensures Yields(rest + tail, r, rest' + tail)
  {
  }

  class LeafKeyNodes {
    const data: seq<byte>
    const itemSize: nat
    var items: Range

    ghost predicate Valid()
      reads this
    {
      items.In(data) && itemSize >= 4
    }

    ghost function Rest(): seq<Read<KeyNode>>
      requires Valid()
      reads this
    {
      LeafItems(data, items, itemSize)
    }

    constructor (data: seq<byte>, list: LeafOrRoot)
      requires list.items.In(data)
      ensures Valid() && this.data == data
      ensures itemSize == list.listType.ItemSize() && items == list.items
    {
      this.data := data;
      itemSize := list.listType.ItemSize();
      items := list.items;
    }

    method Next() returns (r: Option<Read<KeyNode>>)
      requires Valid()
      modifies this
      ensures Valid() && Yields(old(Rest()), r, Rest())
    {
      match ByteSubrange(items, itemSize)
      case None =>
        return None;
      case Some(item) =>
        items := Range(items.start + itemSize, items.end);
        return Some(KeyNodeAt(data, Get32(data, item.start)));
    }
  }

  class IndexRootKeyNodes {
    const data: seq<byte>
    var rootItems: Range
    var currentLeaf: LeafKeyNodes?

    ghost predicate Valid()
      reads this, currentLeaf
    {
      && rootItems.In(data)
      && (currentLeaf != null ==> currentLeaf.Valid() && currentLeaf.data == data)
    }

    /** What is left of the current leaf, then all further leaves. */
    ghost function Rest(): seq<Read<KeyNode>>
      requires Valid()
      reads this, currentLeaf
    {
      (if currentLeaf == null then [] else currentLeaf.Rest()) + IndexRootItems(data, rootItems)
    }

    constructor (data: seq<byte>, items: Range)
      requires items.In(data)
      ensures Valid() && fresh(this) && Rest() == IndexRootItems(data, items) && currentLeaf == null
    {
      this.data := data;
      rootItems := items;
      currentLeaf := null;
    }

    /** Takes the next item of the root and opens its leaf. */
    method LoadNextLeaf() returns (r: Option<Read<()>>)
      requires Valid() && (currentLeaf != null ==> currentLeaf.Rest() == [])
      modifies this
      ensures Valid() && (currentLeaf == old(currentLeaf) || fresh(currentLeaf))
      ensures r == None ==> old(Rest()) == [] && Rest() == []
      ensures r.Some? && r.value.Ok? ==>
        Rest() == old(Rest()) && rootItems.end - rootItems.start < old(rootItems.end - rootItems.start)
      ensures r.Some? && r.value.Err? ==> old(Rest()) == [Err(r.value.error)] + Rest()
    {
      hide LeafAt, Get32, LeafItems;
      match ByteSubrange(rootItems, 4)
      case None =>
        return None;
      case Some(item) =>
        var offset := Get32(data, item.start);
        ghost var was := rootItems;
        rootItems := Range(rootItems.start + 4, rootItems.end);
        match LeafAt(data, offset)
        case Err(e) =>
          assert IndexRootItems(data, was) == [Err(e)] + IndexRootItems(data, rootItems);
          return Some(Err(e));
        case Ok(list) =>
          currentLeaf := new LeafKeyNodes(data, list);
          return Some(Ok(()));
    }

    /** Skips empty leaves, passes errors on, and ends when the root is exhausted. */
    method Next() returns (r: Option<Read<KeyNode>>)
      requires Valid()
      modifies this, currentLeaf
      ensures Valid() && (currentLeaf == old(currentLeaf) || fresh(currentLeaf))
      ensures Yields(old(Rest()), r, Rest())
    {
      hide LeafItems, IndexRootItems;
      while true
        invariant Valid() && (currentLeaf == old(currentLeaf) || fresh(currentLeaf))
        invariant Rest() == old(Rest())
        decreases rootItems.end - rootItems.start
      {
        if currentLeaf != null {
          ghost var leafRest := currentLeaf.Rest();
          var item := currentLeaf.Next();
          if item.Some? {
            YieldsAppend(leafRest, item, currentLeaf.Rest(), IndexRootItems(data, rootItems));
            return item;
          }
        }
        var loaded := LoadNextLeaf();
        match loaded
        case None =>
          return None;
        case Some(result) =>
          if result.Err? {
            return Some(Err(result.error));
          }
      }
    }
  }

  /** The iterator over the subkeys of a key: over one leaf, or over the leaves of an index root. */
  class SubKeyNodes {
    const leaf: LeafKeyNodes?
    const root: IndexRootKeyNodes?

    ghost function Repr(): set<object>
      reads root
    {
      {this} + (if leaf == null then {} else {leaf})
        + (if root == null then {} else {root} + if root.currentLeaf == null then {} else {root.currentLeaf})
    }

    ghost predicate Valid()
      reads Repr(), this, leaf, root
    {
      && (leaf != null <==> root == null)
      && (leaf != null ==> leaf.Valid()) && (root != null ==> root.Valid())
    }

    ghost function Rest(): seq<Read<KeyNode>>
      requires Valid()
      reads Repr(), this, leaf, root
    {
      if leaf != null then leaf.Rest() else root.Rest()
    }

    constructor (data: seq<byte>, list: LeafOrRoot)
      requires list.items.In(data)
      ensures Valid() && fresh(Repr()) && Rest() == ListItems(data, list)
    {
      if list.listType.IndexRoot? {
        leaf := null;
        root := new IndexRootKeyNodes(data, list.items);
      } else {
        leaf := new LeafKeyNodes(data, list);
        root := null;
      }
    }

    method Next() returns (r: Option<Read<KeyNode>>)
      requires Valid()
      modifies Repr()
      ensures Valid() && fresh(Repr() - old(Repr())) && Yields(old(Rest()), r, Rest())
    {
      if leaf != null {
        r := leaf.Next();
      } else {
        r := root.Next();
      }
    }
  }

  class KeyValues {
    const data: seq<byte>
    var items: Range

    ghost predicate Valid()
      reads this
    {
      items.In(data)
    }

    ghost function Rest(): seq<Read<KeyValue>>
      requires Valid()
      reads this
    {
      ValueItems(data, items)
    }

    constructor (data: seq<byte>, items: Range)
      requires items.In(data)
      ensures Valid() && this.data == data && this.items == items
    {
      this.data := data;
      this.items := items;
    }

    method Next() returns (r: Option<Read<KeyValue>>)
      requires Valid()
      modifies this
      ensures Valid() && Yields(old(Rest()), r, Rest())
    {
      match ByteSubrange(items, 4)
      case None =>
        return None;
      case Some(item) =>
        items := Range(items.start + 4, items.end);
        return Some(KeyValueAt(data, Get32(data, item.start)));
    }
  }
}
