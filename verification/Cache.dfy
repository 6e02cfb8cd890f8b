/**
 The least-recently-used value cache: a map to list elements and a list of elements, newest first.
 */
module Cache {
  import opened Bytes
  import opened Order

  datatype Cached = Cached(key: Bytes, value: Bytes)

  // --------------------------------------------------------------- a recency list, as a value

  /** Newest first, no key twice. */
  type Recency = seq<Cached>

  predicate KeysDiffer(q: Recency) {
    forall i, j :: 0 <= i < j < |q| ==> q[i].key != q[j].key
  }

  predicate Holds(q: Recency, key: Bytes) {
    exists i :: 0 <= i < |q| && q[i].key == key
  }

  function Without(q: Recency, key: Bytes): Recency {
    if |q| == 0 then [] else if q[0].key == key then q[1..] else [q[0]] + Without(q[1..], key)
  }

  function Lookup(q: Recency, key: Bytes): Option<Bytes> {
    if |q| == 0 then None else if q[0].key == key then Some(q[0].value) else Lookup(q[1..], key)
  }

  function AtMost(q: Recency, n: nat): Recency {
    if |q| <= n then q else q[..n]
  }

  /** Dropping the oldest; there is nothing to drop from an empty list. */
  function Evict(q: Recency): Recency {
    if |q| == 0 then q else q[..|q| - 1]
  }

  /** A read moves a held key to the front. */
  function AfterGet(q: Recency, key: Bytes): Recency {
    match Lookup(q, key)
    case None => q
    case Some(v) => [Cached(key, v)] + Without(q, key)
  }

  /** A write puts the key in front, dropping the oldest to make room when it is new. */
  function AfterPut(q: Recency, capacity: nat, key: Bytes, value: Bytes): Recency {
    [Cached(key, value)] +
    (if Lookup(q, key).Some? then Without(q, key) else AtMost(q, if capacity == 0 then 0 else capacity - 1))
  }

  lemma {:induction false} LookupAt(q: Recency, i: nat)
    requires KeysDiffer(q) && i < |q|
    ensures Lookup(q, q[i].key) == Some(q[i].value)
    ensures Without(q, q[i].key) == q[..i] + q[i + 1..]
  {
    if i > 0 {
      assert q[0].key != q[i].key;
      TailDiffers(q);
      var rest := q[1..];
      assert rest[i - 1] == q[i];
      hide KeysDiffer, Lookup, Without;
      LookupAt(rest, i - 1);
      LookupPast(q, q[i].key);
      ConsSlices(q, i);
      ConsAssociative(q[0], rest[..i - 1], rest[i..]);
    } else {
      LookupFirst(q);
    }
  }

  lemma LookupFirst(q: Recency)
    requires |q| > 0
    ensures Lookup(q, q[0].key) == Some(q[0].value) && Without(q, q[0].key) == q[..0] + q[1..]
  {
    assert q[..0] == [];
  }

  lemma LookupPast(q: Recency, key: Bytes)
    requires |q| > 0 && q[0].key != key
    ensures Lookup(q, key) == Lookup(q[1..], key) && Without(q, key) == [q[0]] + Without(q[1..], key)
  {
  }

  lemma ConsSlices(q: Recency, i: nat)
    requires 0 < i < |q|
    ensures q[..i] == [q[0]] + q[1..][..i - 1] && q[i + 1..] == q[1..][i..]
  {
  }

  lemma ConsAssociative(c: Cached, a: Recency, b: Recency)
    ensures [c] + (a + b) == ([c] + a) + b
  {
  }

  lemma TailDiffers(q: Recency)
    requires KeysDiffer(q) && |q| > 0
    ensures KeysDiffer(q[1..])
  {
  }

  lemma {:induction false} LookupIff(q: Recency, key: Bytes)
    ensures Lookup(q, key).Some? <==> Holds(q, key)
    ensures !Holds(q, key) ==> Without(q, key) == q
  {
    if |q| > 0 && q[0].key != key {
      LookupIff(q[1..], key);
      assert forall i :: 0 <= i < |q| - 1 ==> q[1..][i] == q[i + 1];
      assert q == [q[0]] + q[1..];
    }
  }

  // --------------------------------------------------------------- the cache

  /** One list element; its value is updated in place. */
  class Element {
    const key: Bytes
    var value: Bytes

    constructor (key: Bytes, value: Bytes)
      ensures this.key == key && this.value == value
    {
      this.key := key;
      this.value := value;
    }
  }

  function RemoveAt<T>(q: seq<T>, i: nat): seq<T>
    requires i < |q|
  {
    q[..i] + q[i + 1..]
  }

  lemma RemoveAtMembers<T>(q: seq<T>, i: nat)
    requires NoRepeats(q) && i < |q|
    ensures NoRepeats(RemoveAt(q, i)) && q[i] !in RemoveAt(q, i)
    ensures forall x :: x in q <==> x == q[i] || x in RemoveAt(q, i)
  {
    var r := RemoveAt(q, i);
    assert forall k :: 0 <= k < |r| ==> r[k] == (if k < i then q[k] else q[k + 1]);
    assert q == q[..i] + [q[i]] + q[i + 1..];
  }

  /** The map and the list hold the same elements, each under its own key and only once. */
  ghost predicate Linked(items: map<Bytes, Element>, order: seq<Element>) {
    && (forall k :: k in items ==> items[k] in order && items[k].key == k)
    && (forall e :: e in order ==> e.key in items && items[e.key] == e)
    && NoRepeats(order)
  }

  lemma LinkedMove(items: map<Bytes, Element>, order: seq<Element>, i: nat)
    requires Linked(items, order) && i < |order|
    ensures Linked(items, [order[i]] + RemoveAt(order, i))
    ensures forall e :: e in [order[i]] + RemoveAt(order, i) <==> e in order
  {
    RemoveAtMembers(order, i);
    hide RemoveAt;
    var r := RemoveAt(order, i);
    assert forall e :: e in [order[i]] + r <==> e in order;
  }

  lemma LinkedRemove(items: map<Bytes, Element>, order: seq<Element>, i: nat)
    requires Linked(items, order) && i < |order|
    ensures Linked(items - {order[i].key}, RemoveAt(order, i))
  {
    RemoveAtMembers(order, i);
    hide RemoveAt, NoRepeats;
    var e, r := order[i], RemoveAt(order, i);
    assert e in order;
  }

  lemma LinkedPush(items: map<Bytes, Element>, order: seq<Element>, e: Element)
    requires Linked(items, order) && e.key !in items
    ensures Linked(items[e.key := e], [e] + order)
  {
    assert e !in order;
    assert forall x :: x in [e] + order <==> x == e || x in order;
  }

  class LruCache {
    var capacity: nat
    var items: map<Bytes, Element>
    var order: seq<Element>

    ghost predicate Valid()
      reads this
    {
      Linked(items, order) && |order| <= (if capacity == 0 then 1 else capacity)
    }

    ghost function Contents(): (q: Recency)
      reads this, order
      ensures |q| == |order|
      ensures forall i :: 0 <= i < |order| ==> q[i] == Cached(order[i].key, order[i].value)
    {
      seq(|order|, i requires 0 <= i < |order| reads this, order => Cached(order[i].key, order[i].value))
    }

    lemma ContentsDiffer()
      requires Valid()
      ensures KeysDiffer(Contents())
    {
    }

    lemma HoldsIff(key: Bytes)
      requires Valid()
      ensures key in items <==> Holds(Contents(), key)
      ensures key in items <==> Lookup(Contents(), key).Some?
    {
      hide Lookup, Contents;
      LookupIff(Contents(), key);
      if key in items {
        var i :| 0 <= i < |order| && order[i] == items[key];
        assert Contents()[i].key == key;
      }
    }

    constructor (capacity: nat)
      ensures Valid() && this.capacity == capacity && order == []
    {
      this.capacity := capacity;
      items := map[];
      order := [];
    }

    /** Where the element of a held key stands in the list. */
    method Position(key: Bytes) returns (i: nat)
      requires Valid() && key in items
      ensures i < |order| && order[i] == items[key] && order[i].key == key
      ensures Lookup(Contents(), key) == Some(order[i].value)
      ensures Without(Contents(), key) == RemoveAt(Contents(), i)
    {
      hide Lookup, Without;
      i := 0;
      while order[i] != items[key]
        invariant i < |order| && items[key] !in order[..i]
        decreases |order| - i
      {
        i := i + 1;
      }
      ContentsDiffer();
      LookupAt(Contents(), i);
    }

    lemma AfterMove(before: Recency, prior: seq<Element>, i: nat)
      requires i < |prior| && |before| == |prior| && order == [prior[i]] + RemoveAt(prior, i)
      requires forall k :: 0 <= k < |prior| ==> before[k] == Cached(prior[k].key, prior[k].value)
      ensures Contents() == [before[i]] + RemoveAt(before, i)
    {
      hide Contents;
      assert Contents()[1..] == RemoveAt(before, i);
    }

    /** Moves the element of a held key to the front of the list. */
    method MoveToFront(key: Bytes)
      requires Valid() && key in items
      modifies this`order
      ensures Valid() && |order| == old(|order|) > 0 && order[0] == items[key]
      ensures forall e :: e in order ==> e in old(order)
      ensures Lookup(old(Contents()), key) == Some(items[key].value)
      ensures Contents() == [Cached(key, items[key].value)] + Without(old(Contents()), key)
    {
      hide Lookup, Without, Linked, Contents;
      var i := Position(key);
      LinkedMove(items, order, i);
      ghost var before, prior := Contents(), order;
      order := [order[i]] + RemoveAt(order, i);
      AfterMove(before, prior, i);
    }

    /** The value held for `key`, if any. */
    method Get(key: Bytes) returns (r: Option<Bytes>)
      requires Valid()
      modifies this`order
      ensures Valid() && Contents() == AfterGet(old(Contents()), key)
      ensures forall e :: e in order ==> e in old(order)
      ensures r.None? ==> order == old(order)
      ensures r == Lookup(old(Contents()), key)
    {
      hide Lookup, Without, Linked, Contents;
      HoldsIff(key);
      if key !in items {
        return None;
      }
      MoveToFront(key);
      return Some(items[key].value);
    }

    /** Drops the least recently used element, if there is one. */
    method EvictOldest()
      requires Valid()
      modifies this`items, this`order
      ensures Valid() && order == old(order)[..if old(|order|) == 0 then 0 else old(|order|) - 1]
      ensures Contents() == Evict(old(Contents()))
      ensures forall k :: k in items ==> k in old(items)
    {
      hide Linked;
      if |order| == 0 {
        return;
      }
      var n := |order| - 1;
      LinkedRemove(items, order, n);
      assert RemoveAt(order, n) == order[..n];
      items := items - {order[n].key};
      order := order[..n];
    }

    lemma HeadUnique()
      requires Valid() && |order| > 0
      ensures order[0].key in items && items[order[0].key] == order[0]
      ensures forall j :: 1 <= j < |order| ==> order[j] != order[0]
    {
    }

    /** Replaces the value of a held key in place and makes it the newest. */
    method Refresh(key: Bytes, value: Bytes)
      requires Valid() && key in items
      modifies this`order, items[key]
      ensures Valid() && forall e :: e in order ==> e in old(order)
      ensures Contents() == [Cached(key, value)] + Without(old(Contents()), key)
    {
      hide Lookup, Without, Contents, Linked;
      MoveToFront(key);
      ghost var moved := Contents();
      var e := items[key];
      HeadUnique();
      e.value := value;
      assert Contents()[0] == Cached(key, value);
      assert Contents()[1..] == moved[1..];
    }

    /** Puts a new key in front. */
    method PushFront(key: Bytes, value: Bytes)
      requires Valid() && key !in items && (|order| < capacity || |order| == 0)
      modifies this`items, this`order
      ensures Valid() && forall e :: e in order ==> e in old(order) || fresh(e)
      ensures Contents() == [Cached(key, value)] + old(Contents())
    {
      hide Linked, Contents;
      ghost var before := Contents();
      var e := new Element(key, value);
      LinkedPush(items, order, e);
      order := [e] + order;
      items := items[key := e];
      assert Contents()[1..] == before;
    }

    /** Caches a value under `key`. */
    method Put(key: Bytes, value: Bytes)
      requires Valid()
      modifies this, order
      ensures Valid() && capacity == old(capacity)
      ensures forall e :: e in order ==> e in old(order) || fresh(e)
      ensures Contents() == AfterPut(old(Contents()), capacity, key, value)
    {
      hide Lookup, Without, Contents, Linked;
      HoldsIff(key);
      if key in items {
        assert items[key] in order by { ItemInOrder(key); }
        Refresh(key, value);
        return;
      }
      ghost var before := Contents();
      while |order| >= capacity && |order| > 0
        invariant Valid() && key !in items
        invariant |order| <= old(|order|) && order == old(order)[..|order|]
        invariant |order| < old(|order|) ==> |order| + 1 >= capacity
        invariant capacity == old(capacity)
        decreases |order|
        modifies this`items, this`order
      {
        EvictOldest();
      }
      assert Contents() == before[..|order|];
      PushFront(key, value);
    }

    lemma ItemInOrder(key: Bytes)
      requires Valid() && key in items
      ensures items[key] in order
    {
    }

    /** Drops `key`, if held. */
    method Remove(key: Bytes)
      requires Valid()
      modifies this`items, this`order
      ensures Valid() && Contents() == Without(old(Contents()), key)
      ensures forall e :: e in order ==> e in old(order)
    {
      hide Lookup, Without, Contents, Linked;
      HoldsIff(key);
      LookupIff(Contents(), key);
      if key in items {
        var i := Position(key);
        LinkedRemove(items, order, i);
        order := RemoveAt(order, i);
        items := items - {key};
      }
    }

    method Clear()
      modifies this`items, this`order
      ensures Valid() && order == []
    {
      items := map[];
      order := [];
    }

    /** Changes the capacity, evicting the oldest beyond it. */
    method SetCapacity(newCapacity: nat)
      requires Valid()
      modifies this
      ensures Valid() && capacity == newCapacity
      ensures Contents() == AtMost(old(Contents()), newCapacity)
    {
      hide Linked;
      if newCapacity > capacity {
        capacity := newCapacity;
      }
      while |order| > newCapacity
        invariant Valid() && capacity >= newCapacity
        invariant |order| <= old(|order|) && order == old(order)[..|order|]
        invariant |order| < old(|order|) ==> |order| >= newCapacity
        decreases |order|
      {
        EvictOldest();
      }
      capacity := newCapacity;
    }

    /** The held keys, newest first. */
    method Keys() returns (keys: seq<Bytes>)
      requires Valid()
      ensures keys == KeysOf(Contents())
    {
      keys := [];
      for i := 0 to |order|
        invariant |keys| == i && forall j :: 0 <= j < i ==> keys[j] == order[j].key
      {
        keys := keys + [order[i].key];
      }
    }
  }

  // --------------------------------------------------------------- what the policy keeps

  /** The list after `n` evictions. */
  function Evictions(q: Recency, n: nat): Recency {
    if n == 0 then q else Evict(Evictions(q, n - 1))
  }

  lemma {:induction false} EvictionsLength(q: Recency, n: nat)
    ensures |Evictions(q, n)| == if |q| <= n then 0 else |q| - n
  {
    if n > 0 {
      EvictionsLength(q, n - 1);
    }
  }

  /** Evicting until the list fits a new capacity comes to an end exactly for capacities that are not negative. */
  lemma ShrinkEndsIff(q: Recency, capacity: int)
    ensures (exists n: nat :: |Evictions(q, n)| <= capacity) <==> capacity >= 0
  {
    EvictionsLength(q, |q|);
    if capacity >= 0 {
      assert |Evictions(q, |q|)| <= capacity;
    }
  }

  /** One read through the store: a hit refreshes the key, a miss loads it. */
  function Access(q: Recency, capacity: nat, key: Bytes, value: Bytes): Recency {
    if Lookup(q, key).Some? then AfterGet(q, key) else AfterPut(q, capacity, key, value)
  }

  function KeysOf(q: Recency): (keys: seq<Bytes>)
    ensures |keys| == |q|
  {
    seq(|q|, i requires 0 <= i < |q| => q[i].key)
  }

  function Drop(keys: seq<Bytes>, key: Bytes): seq<Bytes> {
    if |keys| == 0 then [] else if keys[0] == key then Drop(keys[1..], key) else [keys[0]] + Drop(keys[1..], key)
  }

  /** What the store does with its cache: reads through it, and drops or resizes it. */
  datatype CacheOp = Read(key: Bytes) | RemoveKey(key: Bytes) | RemoveAll | Resize(capacity: nat)

  datatype Lru = Lru(capacity: nat, held: Recency)

  function AfterOp(l: Lru, op: CacheOp, value: Bytes -> Bytes): Lru {
    match op
    case Read(key) => Lru(l.capacity, Access(l.held, l.capacity, key, value(key)))
    case RemoveKey(key) => Lru(l.capacity, Without(l.held, key))
    case RemoveAll => Lru(l.capacity, [])
    case Resize(capacity) => Lru(capacity, AtMost(l.held, capacity))
  }

  function AfterOps(capacity: nat, ops: seq<CacheOp>, value: Bytes -> Bytes): Lru {
    if |ops| == 0 then Lru(capacity, [])
    else AfterOp(AfterOps(capacity, ops[..|ops| - 1], value), ops[|ops| - 1], value)
  }

  /** The keys read and not forgotten since, most recently read first: no capacity plays a part. */
  function Recent(ops: seq<CacheOp>): seq<Bytes> {
    if |ops| == 0 then []
    else
      var before := Recent(ops[..|ops| - 1]);
      match ops[|ops| - 1]
      case Read(key) => [key] + Drop(before, key)
      case RemoveKey(key) => Drop(before, key)
      case RemoveAll => []
      case Resize(_) => before
  }

  function Min(a: nat, b: nat): nat { if a <= b then a else b }

  /** The capacity now; a cache of capacity 0 still holds the last key read. */
  function Room(capacity: nat, ops: seq<CacheOp>): nat {
    if |ops| == 0 then capacity
    else if ops[|ops| - 1].Resize? then ops[|ops| - 1].capacity
    else Room(capacity, ops[..|ops| - 1])
  }

  /** How many of the recent keys are held. */
  function HeldCount(capacity: nat, ops: seq<CacheOp>): nat {
    if |ops| == 0 then 0
    else
      var init := ops[..|ops| - 1];
      var n := HeldCount(capacity, init);
      match ops[|ops| - 1]
      case Read(key) =>
        if key in FirstKeys(Recent(init), n) then n
        else Min(n, if Room(capacity, init) == 0 then 0 else Room(capacity, init) - 1) + 1
      case RemoveKey(key) => if key in FirstKeys(Recent(init), n) && n > 0 then n - 1 else n
      case RemoveAll => 0
      case Resize(c) => Min(n, c)
  }

  lemma {:induction false} DropMembers(keys: seq<Bytes>, key: Bytes, k: Bytes)
    ensures k in Drop(keys, key) <==> k in keys && k != key
  {
    if |keys| > 0 {
      DropMembers(keys[1..], key, k);
      assert keys == [keys[0]] + keys[1..];
    }
  }

  lemma {:induction false} DropDiffer(keys: seq<Bytes>, key: Bytes)
    requires NoRepeats(keys)
    ensures NoRepeats(Drop(keys, key))
  {
    if |keys| > 0 {
      DropDiffer(keys[1..], key);
      var d := Drop(keys[1..], key);
      forall i | 0 <= i < |d|
        ensures d[i] != keys[0]
      {
        DropMembers(keys[1..], key, d[i]);
        assert d[i] in d;
        assert forall j :: 0 < j < |keys| ==> keys[j] == keys[1..][j - 1];
      }
    }
  }

  lemma {:induction false} RecentDiffer(ops: seq<CacheOp>)
    ensures NoRepeats(Recent(ops))
  {
    if |ops| > 0 {
      var before, last := Recent(ops[..|ops| - 1]), ops[|ops| - 1];
      RecentDiffer(ops[..|ops| - 1]);
      if last.Read? || last.RemoveKey? {
        DropDiffer(before, last.key);
        DropGone(before, last.key);
      }
    }
  }

  lemma DropGone(keys: seq<Bytes>, key: Bytes)
    ensures forall i :: 0 <= i < |Drop(keys, key)| ==> Drop(keys, key)[i] != key
  {
    forall i | 0 <= i < |Drop(keys, key)|
      ensures Drop(keys, key)[i] != key
    {
      DropMembers(keys, key, Drop(keys, key)[i]);
    }
  }

  /** Operation `i` is the last read of the key, and nothing has dropped it from the cache since. */
  predicate ReadLast(ops: seq<CacheOp>, key: Bytes, i: nat) {
    && i < |ops| && ops[i] == Read(key)
    && forall j :: i < j < |ops| ==> ops[j] != Read(key) && ops[j] != RemoveKey(key) && ops[j] != RemoveAll
  }

  lemma ReadLastInit(ops: seq<CacheOp>, key: Bytes, i: nat)
    requires |ops| > 0
    ensures var init, last := ops[..|ops| - 1], ops[|ops| - 1];
      ReadLast(ops, key, i) <==>
        if i == |ops| - 1 then last == Read(key)
        else ReadLast(init, key, i) && last != Read(key) && last != RemoveKey(key) && last != RemoveAll
  {
    var init := ops[..|ops| - 1];
    assert forall j :: 0 <= j < |init| ==> init[j] == ops[j];
  }

  /** The recent keys are those that were read and not dropped since. */
  lemma {:induction false} RecentIff(ops: seq<CacheOp>, key: Bytes)
    ensures key in Recent(ops) <==> exists i: nat :: ReadLast(ops, key, i)
  {
    hide ReadLast, Drop;
    if |ops| == 0 {
      forall i: nat
        ensures !ReadLast(ops, key, i)
      {
        NothingRead(key, i);
      }
    } else {
      var init, last := ops[..|ops| - 1], ops[|ops| - 1];
      RecentIff(init, key);
      forall i: nat {
        ReadLastInit(ops, key, i);
      }
      if last.Read? || last.RemoveKey? {
        DropMembers(Recent(init), last.key, key);
      }
      assert ReadLast(ops, key, |ops| - 1) <==> last == Read(key);
      if i: nat :| ReadLast(init, key, i) {
        ReadLastBefore(init, key, i);
        assert ReadLast(ops, key, i) <==> last != Read(key) && last != RemoveKey(key) && last != RemoveAll;
      }
    }
  }

  lemma NothingRead(key: Bytes, i: nat)
    ensures !ReadLast([], key, i)
  {
  }

  lemma ReadLastBefore(ops: seq<CacheOp>, key: Bytes, i: nat)
    requires ReadLast(ops, key, i)
    ensures i < |ops|
  {
  }

  lemma {:induction false} DropOrder(keys: seq<Bytes>, key: Bytes, a: nat, b: nat) returns (a': nat, b': nat)
    requires a < b < |Drop(keys, key)|
    ensures a' < b' < |keys| && keys[a'] == Drop(keys, key)[a] && keys[b'] == Drop(keys, key)[b]
  {
    if keys[0] == key {
      a', b' := DropOrder(keys[1..], key, a, b);
      a', b' := a' + 1, b' + 1;
    } else if a > 0 {
      a', b' := DropOrder(keys[1..], key, a - 1, b - 1);
      a', b' := a' + 1, b' + 1;
    } else {
      DropMembers(keys[1..], key, Drop(keys[1..], key)[b - 1]);
      assert Drop(keys, key)[b] in keys[1..];
      b' :| 0 < b' < |keys| && keys[b'] == Drop(keys, key)[b];
      a' := 0;
    }
  }

  /** And of two recent keys the one read later comes first. */
  lemma {:induction false} RecentOrder(ops: seq<CacheOp>, a: nat, b: nat, i: nat, j: nat)
    requires a < b < |Recent(ops)| && ReadLast(ops, Recent(ops)[a], i) && ReadLast(ops, Recent(ops)[b], j)
    ensures j < i
  {
    hide ReadLast, Drop;
    ReadLastBefore(ops, Recent(ops)[a], i);
    ReadLastBefore(ops, Recent(ops)[b], j);
    var init, last := ops[..|ops| - 1], ops[|ops| - 1];
    ReadLastInit(ops, Recent(ops)[a], i);
    ReadLastInit(ops, Recent(ops)[b], j);
    match last
    case Resize(_) => RecentOrder(init, a, b, i, j);
    case RemoveKey(key) =>
      var a', b' := DropOrder(Recent(init), key, a, b);
      RecentOrder(init, a', b', i, j);
    case Read(key) =>
      DropGone(Recent(init), key);
      assert Recent(ops)[b] == Drop(Recent(init), key)[b - 1] != key;
      if a > 0 {
        var a', b' := DropOrder(Recent(init), key, a - 1, b - 1);
        assert Recent(ops)[a] == Drop(Recent(init), key)[a - 1] != key;
        RecentOrder(init, a', b', i, j);
      } else {
        assert ReadLast(ops, key, i);
        ReadLastInit(ops, key, i);
      }
    case RemoveAll =>
  }

  function FirstKeys(keys: seq<Bytes>, n: nat): seq<Bytes> {
    if |keys| <= n then keys else keys[..n]
  }

  lemma FirstOfCons(head: Bytes, tail: seq<Bytes>, n: nat)
    requires n >= 1
    ensures FirstKeys([head] + tail, n) == [head] + FirstKeys(tail, n - 1)
  {
  }

  lemma DropOfCons(head: Bytes, tail: seq<Bytes>, key: Bytes)
    requires head != key
    ensures Drop([head] + tail, key) == [head] + Drop(tail, key)
  {
    assert ([head] + tail)[1..] == tail;
  }

  lemma DropFirstHead(keys: seq<Bytes>, n: nat)
    requires NoRepeats(keys) && n >= 1 && |keys| > 0
    ensures keys[0] in FirstKeys(keys, n)
    ensures FirstKeys(Drop(keys, keys[0]), n - 1) == Drop(FirstKeys(keys, n), keys[0])
  {
    var head, tail := keys[0], keys[1..];
    assert keys == [head] + tail;
    assert head !in tail && head !in FirstKeys(tail, n - 1);
    hide Drop, FirstKeys, NoRepeats;
    FirstOfCons(head, tail, n);
    DropOfHead(head, tail);
    DropOfHead(head, FirstKeys(tail, n - 1));
    DropNothing(tail, head);
    DropNothing(FirstKeys(tail, n - 1), head);
  }

  lemma DropOfHead(head: Bytes, tail: seq<Bytes>)
    ensures Drop([head] + tail, head) == Drop(tail, head)
  {
    assert ([head] + tail)[1..] == tail;
  }

  /** Dropping a key and keeping the first n - 1, when the key is (or is not) among the first n. */
  lemma {:induction false} DropFirst(keys: seq<Bytes>, key: Bytes, n: nat)
    requires NoRepeats(keys) && n >= 1
    ensures key in FirstKeys(keys, n) ==> FirstKeys(Drop(keys, key), n - 1) == Drop(FirstKeys(keys, n), key)
    ensures key !in FirstKeys(keys, n) ==> FirstKeys(Drop(keys, key), n - 1) == FirstKeys(keys, n - 1)
    decreases |keys|
  {
    if |keys| > 0 {
      var tail := keys[1..];
      assert keys == [keys[0]] + tail;
      if keys[0] == key {
        DropFirstHead(keys, n);
      } else if n == 1 {
        assert FirstKeys(keys, 1) == [keys[0]];
        assert FirstKeys(Drop(keys, key), 0) == [] == FirstKeys(keys, 0);
      } else {
        DropFirst(tail, key, n - 1);
        FirstOfCons(keys[0], tail, n);
        FirstOfCons(keys[0], tail, n - 1);
        FirstOfCons(keys[0], Drop(tail, key), n - 1);
        DropOfCons(keys[0], tail, key);
        DropOfCons(keys[0], FirstKeys(tail, n - 1), key);
        hide FirstKeys, Drop;
      }
    }
  }

  lemma {:induction false} DropNothing(keys: seq<Bytes>, key: Bytes)
    requires key !in keys
    ensures Drop(keys, key) == keys
  {
    if |keys| > 0 {
      DropNothing(keys[1..], key);
    }
  }

  lemma {:induction false} KeysOfWithout(q: Recency, key: Bytes)
    requires KeysDiffer(q)
    ensures KeysOf(Without(q, key)) == Drop(KeysOf(q), key)
    decreases |q|
  {
    if |q| > 0 {
      assert KeysOf(q)[1..] == KeysOf(q[1..]);
      if q[0].key == key {
        assert key !in KeysOf(q[1..]);
        DropNothing(KeysOf(q[1..]), key);
      } else {
        KeysOfWithout(q[1..], key);
        assert KeysOf(Without(q, key)) == [q[0].key] + KeysOf(Without(q[1..], key));
      }
    }
  }

  lemma {:induction false} WithoutDiffer(q: Recency, key: Bytes)
    requires KeysDiffer(q)
    ensures KeysDiffer(Without(q, key)) && !Holds(Without(q, key), key)
    decreases |q|
  {
    KeysOfWithout(q, key);
    var w := Without(q, key);
    assert NoRepeats(KeysOf(q));
    DropDiffer(KeysOf(q), key);
    forall i | 0 <= i < |w|
      ensures w[i].key != key
    {
      DropMembers(KeysOf(q), key, w[i].key);
      assert KeysOf(w)[i] == w[i].key;
    }
    forall i, j | 0 <= i < j < |w|
      ensures w[i].key != w[j].key
    {
      assert KeysOf(w)[i] == w[i].key && KeysOf(w)[j] == w[j].key;
    }
  }

  lemma AccessDiffers(q: Recency, capacity: nat, key: Bytes, value: Bytes)
    requires KeysDiffer(q)
    ensures KeysDiffer(Access(q, capacity, key, value))
  {
    hide Lookup, Without;
    LookupIff(q, key);
    if Lookup(q, key).Some? {
      WithoutDiffer(q, key);
    }
  }

  /** Dropping a key that is not among the first `m` does not change the first `m`. */
  lemma {:induction false} DropBeyond(keys: seq<Bytes>, key: Bytes, m: nat)
    requires key !in FirstKeys(keys, m)
    ensures FirstKeys(Drop(keys, key), m) == FirstKeys(keys, m)
    decreases |keys|
  {
    if |keys| > 0 && m > 0 {
      var tail := keys[1..];
      assert keys == [keys[0]] + tail;
      FirstOfCons(keys[0], tail, m);
      assert keys[0] == FirstKeys(keys, m)[0];
      assert key !in FirstKeys(tail, m - 1);
      DropBeyond(tail, key, m - 1);
      DropOfCons(keys[0], tail, key);
      FirstOfCons(keys[0], Drop(tail, key), m);
    }
  }

  lemma FirstOfFirst(keys: seq<Bytes>, n: nat, m: nat)
    ensures FirstKeys(FirstKeys(keys, n), m) == FirstKeys(keys, Min(n, m))
  {
  }

  /** `q` holds the first `n` of the recent keys, and no more. */
  predicate HoldsFirst(q: Recency, recent: seq<Bytes>, n: nat) {
    KeysDiffer(q) && |q| == n && KeysOf(q) == FirstKeys(recent, n)
  }

  lemma ReadKeeps(q: Recency, recent: seq<Bytes>, n: nat, capacity: nat, key: Bytes, value: Bytes)
    requires HoldsFirst(q, recent, n) && NoRepeats(recent)
    ensures var room := if capacity == 0 then 0 else capacity - 1;
      HoldsFirst(Access(q, capacity, key, value), [key] + Drop(recent, key),
                 if key in FirstKeys(recent, n) then n else Min(n, room) + 1)
  {
    hide Lookup, Without, Drop, KeysDiffer, NoRepeats, Holds, KeysOf, FirstKeys, Access;
    AccessDiffers(q, capacity, key, value);
    LookupIff(q, key);
    HoldsIffKey(q, key);
    AccessKeys(q, capacity, key, value);
    if key in FirstKeys(recent, n) {
      KeysOfWithout(q, key);
      NonEmpty(recent, n, key);
      DropFirst(recent, key, n);
      FirstOfCons(key, Drop(recent, key), n);
      HitLength(q, capacity, key, value);
    } else {
      var m := Min(n, if capacity == 0 then 0 else capacity - 1);
      FirstOfFirst(recent, n, if capacity == 0 then 0 else capacity - 1);
      NotInFewer(recent, n, m, key);
      DropBeyond(recent, key, m);
      FirstOfCons(key, Drop(recent, key), m + 1);
    }
  }

  lemma NonEmpty(keys: seq<Bytes>, n: nat, key: Bytes)
    requires key in FirstKeys(keys, n)
    ensures n >= 1
  {
  }

  lemma NotInFewer(keys: seq<Bytes>, n: nat, m: nat, key: Bytes)
    requires key !in FirstKeys(keys, n) && m <= n
    ensures key !in FirstKeys(keys, m)
  {
  }

  lemma HitLength(q: Recency, capacity: nat, key: Bytes, value: Bytes)
    requires Holds(q, key) && KeysDiffer(q)
    ensures |Access(q, capacity, key, value)| == |q| && |Without(q, key)| + 1 == |q|
  {
    hide Lookup, Without;
    LookupIff(q, key);
    var i :| 0 <= i < |q| && q[i].key == key;
    LookupAt(q, i);
  }

  lemma ForgetKeeps(q: Recency, recent: seq<Bytes>, n: nat, key: Bytes)
    requires HoldsFirst(q, recent, n) && NoRepeats(recent)
    ensures HoldsFirst(Without(q, key), Drop(recent, key), if key in FirstKeys(recent, n) && n > 0 then n - 1 else n)
  {
    hide Lookup, Without, Drop, KeysDiffer, NoRepeats, Holds, KeysOf, FirstKeys;
    LookupIff(q, key);
    HoldsIffKey(q, key);
    WithoutDiffer(q, key);
    KeysOfWithout(q, key);
    if key in FirstKeys(recent, n) {
      NonEmpty(recent, n, key);
      HitLength(q, 1, key, []);
      DropFirst(recent, key, n);
    } else {
      DropBeyond(recent, key, n);
    }
  }

  lemma ResizeKeeps(q: Recency, recent: seq<Bytes>, n: nat, capacity: nat)
    requires HoldsFirst(q, recent, n)
    ensures HoldsFirst(AtMost(q, capacity), recent, Min(n, capacity))
  {
    FirstOfFirst(recent, n, capacity);
    assert KeysOf(AtMost(q, capacity)) == FirstKeys(KeysOf(q), capacity);
  }

  /**
   The policy keeps what it is named for: after any history of reads, removals, clearings and changes
   of capacity, the cache holds exactly the first of the recently read keys, newest first, and as many
   as the capacities of the history left room for.
   */
  lemma {:induction false} KeepsMostRecent(capacity: nat, ops: seq<CacheOp>, value: Bytes -> Bytes)
    ensures AfterOps(capacity, ops, value).capacity == Room(capacity, ops)
    ensures HoldsFirst(AfterOps(capacity, ops, value).held, Recent(ops), HeldCount(capacity, ops))
  {
    hide Lookup, Without, Drop, Access, NoRepeats, HoldsFirst, FirstKeys, AtMost;
    NothingHeld([]);
    if |ops| > 0 {
      var init, last := ops[..|ops| - 1], ops[|ops| - 1];
      KeepsMostRecent(capacity, init, value);
      RecentDiffer(init);
      var l, recent, n := AfterOps(capacity, init, value), Recent(init), HeldCount(capacity, init);
      match last
      case Read(key) => ReadKeeps(l.held, recent, n, l.capacity, key, value(key));
      case RemoveKey(key) => ForgetKeeps(l.held, recent, n, key);
      case RemoveAll => NothingHeld([]);
      case Resize(c) => ResizeKeeps(l.held, recent, n, c);
    }
  }

  lemma NothingHeld(recent: seq<Bytes>)
    ensures HoldsFirst([], recent, 0)
  {
  }

  /** With reads only, and room for at least one, nothing is dropped before the cache is full. */
  lemma {:induction false} ReadsFill(capacity: nat, ops: seq<CacheOp>)
    requires capacity >= 1 && forall op :: op in ops ==> op.Read?
    ensures Room(capacity, ops) == capacity && HeldCount(capacity, ops) == Min(|Recent(ops)|, capacity)
  {
    hide Drop, NoRepeats;
    if |ops| > 0 {
      var init, last := ops[..|ops| - 1], ops[|ops| - 1];
      assert last in ops;
      ReadsFill(capacity, init);
      RecentDiffer(init);
      DropLength(Recent(init), last.key);
      if last.key !in FirstKeys(Recent(init), HeldCount(capacity, init)) && |Recent(init)| <= capacity {
        assert FirstKeys(Recent(init), |Recent(init)|) == Recent(init);
      }
    }
  }

  lemma {:induction false} DropLength(keys: seq<Bytes>, key: Bytes)
    requires NoRepeats(keys)
    ensures |Drop(keys, key)| == if key in keys then |keys| - 1 else |keys|
  {
    if |keys| > 0 {
      DropLength(keys[1..], key);
      assert keys == [keys[0]] + keys[1..];
      if keys[0] == key {
        assert key !in keys[1..];
      }
    }
  }

  lemma HoldsIffKey(q: Recency, key: Bytes)
    ensures Holds(q, key) <==> key in KeysOf(q)
  {
    if Holds(q, key) {
      var i :| 0 <= i < |q| && q[i].key == key;
      assert KeysOf(q)[i] == key;
    }
  }

  lemma AccessKeys(q: Recency, capacity: nat, key: Bytes, value: Bytes)
    ensures KeysOf(Access(q, capacity, key, value))
         == [key] + (if Lookup(q, key).Some? then KeysOf(Without(q, key))
                     else FirstKeys(KeysOf(q), if capacity == 0 then 0 else capacity - 1))
    ensures Lookup(q, key).None? ==> |Access(q, capacity, key, value)| == Min(|q|, if capacity == 0 then 0 else capacity - 1) + 1
  {
    hide Lookup, Without;
  }
}
