/** The byte-bounded LRU of git/lru.go (git/diffcache.go keeps the same structure): a map, a list of
    elements and a running size, refining a plain most-recent-first list of priced entries. */
module CostLru {
  import opened Strings

  // ---- The simple list ----

  datatype Item<V> = Item(key: string, val: V, cost: int)

  function Total<V>(list: seq<Item<V>>): int {
    if list == [] then 0 else Total(list[..|list| - 1]) + list[|list| - 1].cost
  }

  function WithoutKey<V>(list: seq<Item<V>>, key: string): seq<Item<V>> {
    if list == [] then []
    else if list[0].key == key then WithoutKey(list[1..], key)
    else [list[0]] + WithoutKey(list[1..], key)
  }

  function Find<V>(list: seq<Item<V>>, key: string): Option<Item<V>> {
    if list == [] then None else if list[0].key == key then Some(list[0]) else Find(list[1..], key)
  }

  /** The longest prefix whose total is at most `max`. */
  function Trim<V>(list: seq<Item<V>>, max: int): seq<Item<V>> {
    if list == [] || Total(list) <= max then list else Trim(list[..|list| - 1], max)
  }

  /** get: a hit moves the entry to the front. */
  function AfterGet<V>(list: seq<Item<V>>, key: string): seq<Item<V>> {
    match Find(list, key)
    case Some(item) => [item] + WithoutKey(list, key)
    case None => list
  }

  /** put: an entry over the cap is not stored at all; any other goes to the front, and the coldest
      go until the budget holds. */
  function AfterPut<V>(list: seq<Item<V>>, item: Item<V>, max: int, maxEntry: int): seq<Item<V>> {
    if item.cost > maxEntry then list else Trim([item] + WithoutKey(list, item.key), max)
  }

  // ---- What the simple list promises ----

  lemma {:induction false} TrimIsLongestPrefix<V>(list: seq<Item<V>>, max: int)
    ensures Trim(list, max) <= list
    ensures max >= 0 ==> Total(Trim(list, max)) <= max
    ensures forall k :: |Trim(list, max)| < k <= |list| ==> Total(list[..k]) > max
  {
    if list != [] && Total(list) > max {
      var front := list[..|list| - 1];
      TrimIsLongestPrefix(front, max);
      forall k | |Trim(list, max)| < k <= |list| ensures Total(list[..k]) > max {
        if k == |list| {
          assert list[..k] == list;
        } else {
          assert front[..k] == list[..k];
        }
      }
    }
  }

  lemma TotalOfOne<V>(item: Item<V>)
    ensures Total([item]) == item.cost
  {
    var one := [item];
    assert one[..0] == [];
  }

  /** An admitted entry survives its own put whenever the cap is within the budget. */
  lemma AdmittedSurvives<V>(list: seq<Item<V>>, item: Item<V>, max: int, maxEntry: int)
    requires item.cost <= maxEntry <= max
    ensures var after := AfterPut(list, item, max, maxEntry);
            after != [] && after[0] == item
  {
    var full := [item] + WithoutKey(list, item.key);
    TrimIsLongestPrefix(full, max);
    TotalOfOne(item);
    assert full[..1] == [item];
  }

  ghost predicate DistinctKeys<V>(list: seq<Item<V>>) {
    forall i, j :: 0 <= i < j < |list| ==> list[i].key != list[j].key
  }

  lemma {:induction false} WithoutKeyKeeps<V>(list: seq<Item<V>>, key: string)
    requires DistinctKeys(list)
    ensures DistinctKeys(WithoutKey(list, key))
    ensures forall i :: 0 <= i < |WithoutKey(list, key)| ==> WithoutKey(list, key)[i].key != key && WithoutKey(list, key)[i] in list
  {
    if list != [] {
      assert DistinctKeys(list[1..]);
      WithoutKeyKeeps(list[1..], key);
      var rest := WithoutKey(list[1..], key);
      if list[0].key != key {
        forall j | 0 <= j < |rest| ensures list[0].key != rest[j].key {
          assert rest[j] in list[1..];
        }
      }
    }
  }

  lemma {:induction false} FindIn<V>(list: seq<Item<V>>, key: string)
    ensures Find(list, key).Some? ==> Find(list, key).value in list && Find(list, key).value.key == key
    ensures Find(list, key).None? ==> forall i :: 0 <= i < |list| ==> list[i].key != key
  {
    if list != [] && list[0].key != key {
      FindIn(list[1..], key);
      forall i | 0 <= i < |list| && Find(list, key).None? ensures list[i].key != key {
        if i > 0 {
          assert list[1..][i - 1] == list[i];
        }
      }
    }
  }

  lemma GetKeepsDistinct<V>(list: seq<Item<V>>, key: string)
    requires DistinctKeys(list)
    ensures DistinctKeys(AfterGet(list, key))
  {
    FindIn(list, key);
    WithoutKeyKeeps(list, key);
  }

  lemma PutKeepsDistinct<V>(list: seq<Item<V>>, item: Item<V>, max: int, maxEntry: int)
    requires DistinctKeys(list)
    ensures DistinctKeys(AfterPut(list, item, max, maxEntry))
  {
    WithoutKeyKeeps(list, item.key);
    TrimIsLongestPrefix([item] + WithoutKey(list, item.key), max);
  }

  // ---- Whole histories ----

  datatype Op<V> = Get(key: string) | Put(item: Item<V>)

  function AfterOp<V>(list: seq<Item<V>>, op: Op<V>, max: int, maxEntry: int): seq<Item<V>> {
    match op
    case Get(key) => AfterGet(list, key)
    case Put(item) => AfterPut(list, item, max, maxEntry)
  }

  function AfterOps<V>(ops: seq<Op<V>>, max: int, maxEntry: int): seq<Item<V>> {
    if ops == [] then [] else AfterOp(AfterOps(ops[..|ops| - 1], max, maxEntry), ops[|ops| - 1], max, maxEntry)
  }

  /** The last put of the key the cap admitted. */
  function LastAdmitted<V>(ops: seq<Op<V>>, key: string, maxEntry: int): Option<Item<V>> {
    if ops == [] then None
    else
      var last := ops[|ops| - 1];
      if last.Put? && last.item.key == key && last.item.cost <= maxEntry then Some(last.item)
      else LastAdmitted(ops[..|ops| - 1], key, maxEntry)
  }

  /** After any history: one entry a key, each the last one admitted under that key, and the whole
      within the budget. */
  lemma {:induction false} HistorySound<V>(ops: seq<Op<V>>, max: int, maxEntry: int)
    ensures var list := AfterOps(ops, max, maxEntry);
            && DistinctKeys(list)
            && (max >= 0 ==> Total(list) <= max)
            && forall item :: item in list ==> LastAdmitted(ops, item.key, maxEntry) == Some(item)
  {
    if ops != [] {
      var front, op := ops[..|ops| - 1], ops[|ops| - 1];
      var before := AfterOps(front, max, maxEntry);
      HistorySound(front, max, maxEntry);
      match op {
        case Get(key) =>
          GetKeepsDistinct(before, key);
          FindIn(before, key);
          WithoutKeyKeeps(before, key);
          GetKeepsTotal(before, key);
        case Put(item) =>
          PutKeepsDistinct(before, item, max, maxEntry);
          WithoutKeyKeeps(before, item.key);
          TrimIsLongestPrefix([item] + WithoutKey(before, item.key), max);
      }
    }
  }

  lemma {:induction false} TotalConcat<V>(a: seq<Item<V>>, b: seq<Item<V>>)
    ensures Total(a + b) == Total(a) + Total(b)
  {
    if b == [] {
      assert a + b == a;
    } else {
      assert (a + b)[..|a + b| - 1] == a + b[..|b| - 1];
      TotalConcat(a, b[..|b| - 1]);
    }
  }

  lemma {:induction false} TotalWithoutKey<V>(list: seq<Item<V>>, key: string)
    requires DistinctKeys(list)
    ensures Total(WithoutKey(list, key)) + (match Find(list, key) case Some(x) => x.cost case None => 0) == Total(list)
  {
    if list != [] {
      assert DistinctKeys(list[1..]);
      TotalWithoutKey(list[1..], key);
      assert list == [list[0]] + list[1..];
      TotalConcat([list[0]], list[1..]);
      TotalOfOne(list[0]);
      if list[0].key == key {
        FindIn(list[1..], key);
        assert Find(list[1..], key).None? by {
          forall i | 0 <= i < |list[1..]| ensures list[1..][i].key != key { assert list[1..][i] == list[i + 1]; }
        }
      } else {
        TotalConcat([list[0]], WithoutKey(list[1..], key));
      }
    }
  }

  lemma GetKeepsTotal<V>(list: seq<Item<V>>, key: string)
    requires DistinctKeys(list)
    ensures Total(AfterGet(list, key)) == Total(list)
  {
    if Find(list, key).Some? {
      TotalWithoutKey(list, key);
      TotalConcat([Find(list, key).value], WithoutKey(list, key));
      TotalOfOne(Find(list, key).value);
    }
  }

  /** Dropping the key of the entry at `i` removes just that entry. */
  lemma {:induction false} WithoutKeyAt<V>(list: seq<Item<V>>, i: nat)
    requires DistinctKeys(list) && i < |list|
    ensures WithoutKey(list, list[i].key) == list[..i] + list[i + 1..]
    ensures Find(list, list[i].key) == Some(list[i])
  {
    assert DistinctKeys(list[1..]);
    if i == 0 {
      forall j | 0 <= j < |list[1..]| ensures list[1..][j].key != list[0].key { assert list[1..][j] == list[j + 1]; }
      NothingToDrop(list[1..], list[0].key);
    } else {
      assert list[1..][i - 1] == list[i];
      WithoutKeyAt(list[1..], i - 1);
      assert list[0].key != list[i].key;
      assert list[..i] == [list[0]] + list[1..][..i - 1];
    }
  }

  lemma {:induction false} NothingToDrop<V>(list: seq<Item<V>>, key: string)
    requires forall j :: 0 <= j < |list| ==> list[j].key != key
    ensures WithoutKey(list, key) == list && Find(list, key) == None
  {
    if list != [] {
      NothingToDrop(list[1..], key);
    }
  }

  // ---- Recency ----

  /** A use of a key: a lookup, or a put the cap admits. */
  predicate Uses<V>(op: Op<V>, key: string, maxEntry: int) {
    match op
    case Get(k) => k == key
    case Put(item) => item.key == key && item.cost <= maxEntry
  }

  /** One more than the index of the last use of the key; 0 if there is none. */
  function LastUse<V>(ops: seq<Op<V>>, key: string, maxEntry: int): (n: nat)
    ensures n <= |ops|
  {
    if ops == [] then 0
    else if Uses(ops[|ops| - 1], key, maxEntry) then |ops|
    else LastUse(ops[..|ops| - 1], key, maxEntry)
  }

  /** Among entries of other keys, dropping a key keeps the order. */
  lemma WithoutKeyOrder<V>(list: seq<Item<V>>, key: string, i: nat, j: nat) returns (i': nat, j': nat)
    requires DistinctKeys(list) && i < j < |WithoutKey(list, key)|
    ensures i' < j' < |list| && list[i'] == WithoutKey(list, key)[i] && list[j'] == WithoutKey(list, key)[j]
  {
    if k :| 0 <= k < |list| && list[k].key == key {
      WithoutKeyAt(list, k);
      i', j' := if i < k then i else i + 1, if j < k then j else j + 1;
    } else {
      NothingToDrop(list, key);
      i', j' := i, j;
    }
  }

  ghost predicate ByRecency<V>(ops: seq<Op<V>>, list: seq<Item<V>>, maxEntry: int) {
    forall i, j :: 0 <= i < j < |list| ==> LastUse(ops, list[i].key, maxEntry) > LastUse(ops, list[j].key, maxEntry)
  }

  lemma LastUseSnoc<V>(front: seq<Op<V>>, op: Op<V>, key: string, maxEntry: int)
    ensures LastUse(front + [op], key, maxEntry) == if Uses(op, key, maxEntry) then |front| + 1 else LastUse(front, key, maxEntry)
  {
    assert (front + [op])[..|front|] == front;
  }

  /** Entries of other keys keep their order when a key is used. */
  lemma OthersByRecency<V>(front: seq<Op<V>>, op: Op<V>, list: seq<Item<V>>, item: Item<V>, maxEntry: int)
    requires DistinctKeys(list) && ByRecency(front, list, maxEntry)
    requires forall key :: Uses(op, key, maxEntry) <==> key == item.key
    ensures ByRecency(front + [op], WithoutKey(list, item.key), maxEntry)
  {
    var others := WithoutKey(list, item.key);
    WithoutKeyKeeps(list, item.key);
    forall i, j | 0 <= i < j < |others|
      ensures LastUse(front + [op], others[i].key, maxEntry) > LastUse(front + [op], others[j].key, maxEntry)
    {
      LastUseSnoc(front, op, others[i].key, maxEntry);
      LastUseSnoc(front, op, others[j].key, maxEntry);
      var k, l := WithoutKeyOrder(list, item.key, i, j);
    }
  }

  /** Using a key and putting its entry first keeps the order by recency. */
  lemma FrontIsLatest<V>(front: seq<Op<V>>, op: Op<V>, list: seq<Item<V>>, item: Item<V>, maxEntry: int)
    requires DistinctKeys(list) && ByRecency(front, list, maxEntry)
    requires forall key :: Uses(op, key, maxEntry) <==> key == item.key
    ensures ByRecency(front + [op], [item] + WithoutKey(list, item.key), maxEntry)
  {
    var ops, others := front + [op], WithoutKey(list, item.key);
    OthersByRecency(front, op, list, item, maxEntry);
    WithoutKeyKeeps(list, item.key);
    LastUseSnoc(front, op, item.key, maxEntry);
    forall j | 0 <= j < |others| ensures LastUse(ops, item.key, maxEntry) > LastUse(ops, others[j].key, maxEntry) {
      LastUseSnoc(front, op, others[j].key, maxEntry);
    }
    LatestFirst(ops, item, others, maxEntry);
  }

  lemma LatestFirst<V>(ops: seq<Op<V>>, item: Item<V>, others: seq<Item<V>>, maxEntry: int)
    requires ByRecency(ops, others, maxEntry)
    requires forall j :: 0 <= j < |others| ==> LastUse(ops, item.key, maxEntry) > LastUse(ops, others[j].key, maxEntry)
    ensures ByRecency(ops, [item] + others, maxEntry)
  {
  }

  lemma UnusedKeeps<V>(front: seq<Op<V>>, op: Op<V>, list: seq<Item<V>>, maxEntry: int)
    requires ByRecency(front, list, maxEntry) && forall i :: 0 <= i < |list| ==> !Uses(op, list[i].key, maxEntry)
    ensures ByRecency(front + [op], list, maxEntry)
  {
    assert (front + [op])[..|front|] == front;
  }

  /** After any history the entries stand by their last use, the latest first. */
  lemma {:induction false} HistoryByRecency<V>(ops: seq<Op<V>>, max: int, maxEntry: int)
    ensures ByRecency(ops, AfterOps(ops, max, maxEntry), maxEntry)
  {
    if ops != [] {
      var front, op := ops[..|ops| - 1], ops[|ops| - 1];
      var before := AfterOps(front, max, maxEntry);
      assert ops == front + [op];
      HistoryByRecency(front, max, maxEntry);
      HistorySound(front, max, maxEntry);
      match op {
        case Get(key) =>
          FindIn(before, key);
          if Find(before, key).Some? {
            FrontIsLatest(front, op, before, Find(before, key).value, maxEntry);
          } else {
            UnusedKeeps(front, op, before, maxEntry);
          }
        case Put(item) =>
          if item.cost <= maxEntry {
            FrontIsLatest(front, op, before, item, maxEntry);
            TrimIsLongestPrefix([item] + WithoutKey(before, item.key), max);
          } else {
            UnusedKeeps(front, op, before, maxEntry);
          }
      }
    }
  }

  // ---- What one operation leaves ----

  /** A lookup answers with the last admitted entry when it is stored, and loses none. */
  lemma GetExactly<V>(list: seq<Item<V>>, key: string, item: Item<V>)
    requires DistinctKeys(list)
    ensures Find(list, key) == Some(item) <==> item in list && item.key == key
    ensures item in AfterGet(list, key) <==> item in list
  {
    FindIn(list, key);
    if item in list && item.key == key {
      var i :| 0 <= i < |list| && list[i] == item;
      WithoutKeyAt(list, i);
    }
    InWithoutKey(list, key, item);
  }

  lemma {:induction false} InWithoutKey<V>(list: seq<Item<V>>, key: string, item: Item<V>)
    ensures item in WithoutKey(list, key) <==> item in list && item.key != key
  {
    if list != [] {
      InWithoutKey(list[1..], key, item);
      assert item in list <==> item == list[0] || item in list[1..];
    }
  }

  /** A put over the cap changes nothing. Any other puts its entry before those of other keys, in their
      order, and keeps the longest prefix of that within the budget. */
  lemma PutExactly<V>(list: seq<Item<V>>, item: Item<V>, max: int, maxEntry: int)
    ensures item.cost > maxEntry ==> AfterPut(list, item, max, maxEntry) == list
    ensures item.cost <= maxEntry ==>
              var full, after := [item] + WithoutKey(list, item.key), AfterPut(list, item, max, maxEntry);
              && after <= full && (max >= 0 ==> Total(after) <= max)
              && forall k :: |after| < k <= |full| ==> Total(full[..k]) > max
  {
    TrimIsLongestPrefix([item] + WithoutKey(list, item.key), max);
  }
}
