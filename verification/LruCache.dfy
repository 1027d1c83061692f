/** The cache object of git/lru.go: list elements shared between the order list and the key map,
    updated in place. Its contents follow CostLru's simple list exactly. */
module LruCache {
  import opened Strings
  import opened Lists
  import opened CostLru

  class Element<V> {
    const key: string
    var val: V
    var cost: int

    constructor (key: string, val: V, cost: int)
      ensures this.key == key && this.val == val && this.cost == cost
    {
      this.key, this.val, this.cost := key, val, cost;
    }

    /** Overwriting the head of a list rewrites the head of its mirror and nothing else. */
    method Overwrite(v: V, cost: int, ghost order: seq<Element<V>>, ghost contents: seq<Item<V>>)
      requires Mirrors(order, contents) && order != [] && order[0] == this
      requires forall j :: 0 < j < |order| ==> order[j] != this
      modifies this
      ensures this.val == v && this.cost == cost && Mirrors(order, contents[0 := Item(key, v, cost)])
    {
      this.val, this.cost := v, cost;
    }
  }

  /** The map and the list hold the same elements, under distinct keys. */
  ghost predicate Shaped<V>(order: seq<Element<V>>, byKey: map<string, Element<V>>) {
    && (forall i, j :: 0 <= i < j < |order| ==> order[i].key != order[j].key)
    && (forall e :: e in order ==> e.key in byKey && byKey[e.key] == e)
    && (forall k :: k in byKey ==> byKey[k] in order && byKey[k].key == k)
  }

  /** The list element by element. */
  ghost predicate Mirrors<V>(order: seq<Element<V>>, contents: seq<Item<V>>)
    reads order
  {
    && |order| == |contents|
    && forall i :: 0 <= i < |order| ==> contents[i] == Item(order[i].key, order[i].val, order[i].cost)
  }

  /** An element moved from index `i` to the front. */
  function Moved<T>(s: seq<T>, i: nat): seq<T>
    requires i < |s|
  {
    [s[i]] + (s[..i] + s[i + 1..])
  }

  lemma MovedAt<T>(s: seq<T>, i: nat, j: nat)
    requires i < |s| && j < |s|
    ensures |Moved(s, i)| == |s|
    ensures Moved(s, i)[j] == s[if j == 0 then i else if j <= i then j - 1 else j]
  {
  }

  lemma MoveShaped<V>(order: seq<Element<V>>, byKey: map<string, Element<V>>, i: nat)
    requires Shaped(order, byKey) && i < |order|
    ensures Shaped(Moved(order, i), byKey)
  {
    var moved := Moved(order, i);
    forall j | 0 <= j < |order| ensures moved[j] in order { MovedAt(order, i, j); }
    forall k | k in byKey ensures byKey[k] in moved {
      var j :| 0 <= j < |order| && order[j] == byKey[k];
      assert moved[if j == i then 0 else if j < i then j + 1 else j] == order[j];
    }
    forall a, b | 0 <= a < b < |moved| ensures moved[a].key != moved[b].key {
      MovedAt(order, i, a);
      MovedAt(order, i, b);
    }
  }

  lemma MoveMirrors<V>(order: seq<Element<V>>, contents: seq<Item<V>>, i: nat)
    requires Mirrors(order, contents) && i < |order|
    ensures Mirrors(Moved(order, i), Moved(contents, i))
  {
    forall j | 0 <= j < |order|
      ensures Moved(contents, i)[j] == Item(Moved(order, i)[j].key, Moved(order, i)[j].val, Moved(order, i)[j].cost)
    {
      MovedAt(order, i, j);
      MovedAt(contents, i, j);
    }
  }

  lemma KeysDiffer<V>(order: seq<Element<V>>, byKey: map<string, Element<V>>, contents: seq<Item<V>>)
    requires Shaped(order, byKey) && Mirrors(order, contents)
    ensures DistinctKeys(contents) && NoDuplicates(order)
  {
    forall i, j | 0 <= i < j < |order| ensures order[i] != order[j] { assert order[i].key != order[j].key; }
  }

  /** Both lists, with the entry at `i` moved to the front. */
  lemma MovedLists<V>(order: seq<Element<V>>, contents: seq<Item<V>>, i: nat)
    requires i < |order| && NoDuplicates(order) && DistinctKeys(contents) && Mirrors(order, contents)
    ensures ToFront(order, order[i]) == Moved(order, i)
    ensures [contents[i]] + WithoutKey(contents, contents[i].key) == Moved(contents, i)
    ensures Find(contents, contents[i].key) == Some(contents[i])
    ensures Total(Moved(contents, i)) == Total(contents)
  {
    RemoveAt(order, i, order[i]);
    WithoutKeyAt(contents, i);
    GetKeepsTotal(contents, contents[i].key);
  }

  /** Moving an element to the front of the list is moving its entry to the front of the contents. */
  lemma MoveFacts<V>(order: seq<Element<V>>, byKey: map<string, Element<V>>, contents: seq<Item<V>>, el: Element<V>)
    requires Shaped(order, byKey) && Mirrors(order, contents) && el in order
    ensures var item := Item(el.key, el.val, el.cost);
            var contents' := [item] + WithoutKey(contents, el.key);
            && Find(contents, el.key) == Some(item)
            && Shaped(ToFront(order, el), byKey) && Mirrors(ToFront(order, el), contents')
            && Total(contents') == Total(contents)
    ensures forall e :: e in ToFront(order, el) ==> e in order
  {
    var i :| 0 <= i < |order| && order[i] == el;
    KeysDiffer(order, byKey, contents);
    MovedLists(order, contents, i);
    MoveShaped(order, byKey, i);
    MoveMirrors(order, contents, i);
    forall e | e in ToFront(order, el) ensures e in order { InRemove(order, el, e); }
  }

  lemma PushShaped<V>(order: seq<Element<V>>, byKey: map<string, Element<V>>, el: Element<V>)
    requires Shaped(order, byKey) && el.key !in byKey
    ensures Shaped([el] + order, byKey[el.key := el])
  {
    var order', byKey' := [el] + order, byKey[el.key := el];
    forall j | 0 <= j < |order| ensures order[j].key != el.key { assert order[j] in order; }
    forall k | k in byKey' ensures byKey'[k] in order' {
      if k != el.key {
        assert byKey[k] in order;
      }
    }
  }

  lemma PushMirrors<V>(order: seq<Element<V>>, contents: seq<Item<V>>, el: Element<V>)
    requires Mirrors(order, contents)
    ensures Mirrors([el] + order, [Item(el.key, el.val, el.cost)] + contents)
  {
  }

  class ByteLru<V> {
    const max: int
    const maxEntry: int
    const costOf: V -> int
    var size: int
    var order: seq<Element<V>>
    var byKey: map<string, Element<V>>
    var hits: nat
    ghost var contents: seq<Item<V>>
    ghost var repr: set<Element<V>>

    /** The list is `contents`, the map names its elements, and size is the sum of their costs. */
    ghost predicate Valid()
      reads this, repr
    {
      (forall e :: e in order ==> e in repr) && Shaped(order, byKey) && Mirrors(order, contents) && size == Total(contents)
    }

    /** newCostLRU. */
    constructor (maxBytes: int, maxEntryBytes: int, cost: V -> int)
      ensures Valid() && contents == [] && hits == 0 && repr == {}
      ensures max == maxBytes && maxEntry == maxEntryBytes && costOf == cost
    {
      max, maxEntry, costOf := maxBytes, maxEntryBytes, cost;
      size, order, byKey, hits, contents, repr := 0, [], map[], 0, [], {};
    }

    lemma Absent(key: string)
      requires Valid() && key !in byKey
      ensures Find(contents, key) == None && WithoutKey(contents, key) == contents
    {
      forall j | 0 <= j < |contents| ensures contents[j].key != key { assert order[j] in order; }
      NothingToDrop(contents, key);
    }

    method Get(key: string) returns (r: Option<V>)
      requires Valid()
      modifies this
      ensures repr == old(repr)
      ensures Valid() && contents == AfterGet(old(contents), key)
      ensures r == match Find(old(contents), key) case Some(item) => Some(item.val) case None => None
      ensures hits == old(hits) + if r.Some? then 1 else 0
    {
      if key !in byKey {
        Absent(key);
        return None;
      }
      var el := byKey[key];
      MoveToFront(el);
      hits := hits + 1;
      return Some(el.val);
    }

    /** list.MoveToFront. */
    method MoveToFront(el: Element<V>)
      requires Valid() && el in order
      modifies this`order, this`contents
      ensures Valid() && order != [] && order[0] == el
      ensures Find(old(contents), el.key) == Some(Item(el.key, el.val, el.cost))
      ensures contents == [Item(el.key, el.val, el.cost)] + WithoutKey(old(contents), el.key)
    {
      MoveFacts(order, byKey, contents, el);
      order := ToFront(order, el);
      contents := [Item(el.key, el.val, el.cost)] + WithoutKey(contents, el.key);
    }

    /** put: the value is priced by its cost, its key and a fixed overhead. */
    method Put(key: string, v: V)
      requires Valid()
      modifies this, repr
      ensures fresh(repr - old(repr))
      ensures Valid() && contents == AfterPut(old(contents), Item(key, v, costOf(v) + |key| + 64), max, maxEntry)
      ensures hits == old(hits)
    {
      PutPriced(key, v, costOf(v) + |key| + 64);
    }

    method PutPriced(key: string, v: V, cost: int)
      requires Valid()
      modifies this, repr
      ensures fresh(repr - old(repr))
      ensures Valid() && contents == AfterPut(old(contents), Item(key, v, cost), max, maxEntry)
      ensures hits == old(hits)
    {
      if cost > maxEntry {
        return;
      }
      if key in byKey {
        Reprice(byKey[key], v, cost);
      } else {
        PushFront(key, v, cost);
      }
      Evict();
    }

    /** An entry already stored: moved to the front, its value and cost replaced in place. */
    method Reprice(el: Element<V>, v: V, cost: int)
      requires Valid() && el in order
      modifies this, repr
      ensures fresh(repr - old(repr))
      ensures Valid() && hits == old(hits)
      ensures contents == [Item(el.key, v, cost)] + WithoutKey(old(contents), el.key)
    {
      MoveToFront(el);
      HeadReplaced(Item(el.key, el.val, el.cost), WithoutKey(old(contents), el.key), Item(el.key, v, cost));
      ReplaceHead(el, v, cost);
    }

    method ReplaceHead(el: Element<V>, v: V, cost: int)
      requires Valid() && order != [] && order[0] == el
      modifies this`size, this`contents, el
      ensures Valid() && contents == old(contents)[0 := Item(el.key, v, cost)]
    {
      HeadIsAlone(order, byKey);
      HeadCost(contents, Item(el.key, v, cost));
      size := size + (cost - el.cost);
      el.Overwrite(v, cost, order, contents);
      contents := contents[0 := Item(el.key, v, cost)];
    }

    method PushFront(key: string, v: V, cost: int)
      requires Valid() && key !in byKey
      modifies this
      ensures fresh(repr - old(repr))
      ensures Valid() && hits == old(hits)
      ensures contents == [Item(key, v, cost)] + WithoutKey(old(contents), key)
    {
      Absent(key);
      TotalConcat([Item(key, v, cost)], contents);
      TotalOfOne(Item(key, v, cost));
      var el := new Element(key, v, cost);
      PushShaped(order, byKey, el);
      PushMirrors(order, contents, el);
      order := [el] + order;
      repr := repr + {el};
      byKey := byKey[key := el];
      size := size + cost;
      contents := [Item(key, v, cost)] + contents;
    }

    /** The eviction loop; its nil-tail exit is reached only under a negative budget. */
    method Evict()
      requires Valid()
      modifies this
      ensures repr == old(repr)
      ensures Valid() && contents == Trim(old(contents), max) && hits == old(hits)
    {
      while size > max
        invariant Valid() && hits == old(hits)
        invariant Trim(contents, max) == Trim(old(contents), max)
        invariant repr == old(repr)
        decreases |order|
      {
        if order == [] {
          assert max < 0;
          break;
        }
        DropTail();
      }
    }

    /** The coldest element leaves the list, the map and the size together. */
    method DropTail()
      requires Valid() && order != []
      modifies `order, `byKey, `size, `contents
      ensures Valid() && order == old(order)[..|old(order)| - 1]
      ensures contents == old(contents)[..|old(contents)| - 1]
    {
      var n := |order| - 1;
      var tail := order[n];
      DropShaped(order, byKey);
      order := order[..n];
      byKey := byKey - {tail.key};
      size := size - tail.cost;
      contents := contents[..n];
    }
  }

  lemma HeadIsAlone<V>(order: seq<Element<V>>, byKey: map<string, Element<V>>)
    requires order != [] && Shaped(order, byKey)
    ensures forall j :: 0 < j < |order| ==> order[j] != order[0]
  {
    forall j | 0 < j < |order| ensures order[j] != order[0] { assert order[j].key != order[0].key; }
  }

  lemma HeadReplaced<V>(head: Item<V>, others: seq<Item<V>>, item: Item<V>)
    ensures ([head] + others)[0 := item] == [item] + others
  {
  }

  lemma HeadCost<V>(list: seq<Item<V>>, item: Item<V>)
    requires list != []
    ensures Total(list[0 := item]) == Total(list) + (item.cost - list[0].cost)
  {
    var head, others := list[0], list[1..];
    assert list == [head] + others && list[0 := item] == [item] + others;
    TotalConcat([head], others);
    TotalConcat([item], others);
    TotalOfOne(head);
    TotalOfOne(item);
  }

  lemma DropShaped<V>(order: seq<Element<V>>, byKey: map<string, Element<V>>)
    requires Shaped(order, byKey) && order != []
    ensures Shaped(order[..|order| - 1], byKey - {order[|order| - 1].key})
  {
    var n := |order| - 1;
    assert order == order[..n] + [order[n]];
  }
}
