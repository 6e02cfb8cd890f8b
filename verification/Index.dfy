/**
 The in-memory index: entries by key, secondary indexes over chosen attributes, and a memo of the
 keys in file order.
 */
module Index {
  import opened Bytes
  import opened Order
  import opened Attributes
  import opened LogMap
  import opened KeyOrder

  /** The keys bucketed by one attribute's value. */
  type Buckets = map<Bytes, set<Bytes>>

  predicate Carries(e: Entry, field: Bytes, value: Bytes) {
    field in e.attributes && e.attributes[field] == value
  }

  /** The keys whose attributes map `field` to `value`. */
  function Matching(m: Entries, field: Bytes, value: Bytes): set<Bytes> {
    set k | k in m && Carries(m[k], field, value)
  }

  /** The buckets hold exactly the matching keys, and none of them is empty. */
  ghost predicate Agree(b: Buckets, m: Entries, field: Bytes) {
    forall value :: (value in b <==> Matching(m, field, value) != {})
                 && (value in b ==> b[value] == Matching(m, field, value))
  }

  function RemoveKey(b: Buckets, value: Bytes, key: Bytes): Buckets {
    if value !in b then b
    else
      var keys := b[value] - {key};
      if keys == {} then b - {value} else b[value := keys]
  }

  function AddKey(b: Buckets, value: Bytes, key: Bytes): Buckets {
    b[value := (if value in b then b[value] else {}) + {key}]
  }

  /** What removing an entry does to one field's buckets. */
  function Unindex(b: Buckets, field: Bytes, key: Bytes, e: Entry): Buckets {
    if field in e.attributes then RemoveKey(b, e.attributes[field], key) else b
  }

  /** What adding an entry does to one field's buckets. */
  function Enindex(b: Buckets, field: Bytes, key: Bytes, e: Entry): Buckets {
    if field in e.attributes then AddKey(b, e.attributes[field], key) else b
  }

  lemma MatchingWithout(m: Entries, field: Bytes, value: Bytes, key: Bytes)
    ensures Matching(m - {key}, field, value) == Matching(m, field, value) - {key}
  {
  }

  lemma MatchingWith(m: Entries, field: Bytes, value: Bytes, key: Bytes, e: Entry)
    ensures Matching(m[key := e], field, value)
         == Matching(m, field, value) - {key} + (if Carries(e, field, value) then {key} else {})
  {
  }

  lemma UnindexAgrees(b: Buckets, m: Entries, field: Bytes, key: Bytes)
    requires Agree(b, m, field) && key in m
    ensures Agree(Unindex(b, field, key, m[key]), m - {key}, field)
  {
    hide Matching;
    var b' := Unindex(b, field, key, m[key]);
    forall value
      ensures value in b' <==> Matching(m - {key}, field, value) != {}
      ensures value in b' ==> b'[value] == Matching(m - {key}, field, value)
    {
      MatchingWithout(m, field, value, key);
      MatchingKey(m, field, value, key);
      if !Carries(m[key], field, value) {
        assert Matching(m, field, value) - {key} == Matching(m, field, value);
      }
    }
  }

  lemma MatchingKey(m: Entries, field: Bytes, value: Bytes, key: Bytes)
    requires key in m
    ensures key in Matching(m, field, value) <==> Carries(m[key], field, value)
  {
  }

  lemma EnindexAgrees(b: Buckets, m: Entries, field: Bytes, key: Bytes, e: Entry)
    requires Agree(b, m, field) && key !in m
    ensures Agree(Enindex(b, field, key, e), m[key := e], field)
  {
    hide Matching;
    var b' := Enindex(b, field, key, e);
    forall value
      ensures value in b' <==> Matching(m[key := e], field, value) != {}
      ensures value in b' ==> b'[value] == Matching(m[key := e], field, value)
    {
      MatchingWith(m, field, value, key, e);
      assert key !in Matching(m, field, value) by { MatchingAbsent(m, field, value, key); }
      assert Matching(m, field, value) - {key} == Matching(m, field, value);
    }
  }

  lemma MatchingAbsent(m: Entries, field: Bytes, value: Bytes, key: Bytes)
    requires key !in m
    ensures key !in Matching(m, field, value)
  {
  }

  class Index {
    var entries: Entries
    const indexedFields: set<Bytes>
    var byAttribute: map<Bytes, Buckets>
    var sortedKeys: seq<Bytes>
    var sortedDirty: bool

    /** The secondary indexes agree with the entries on every indexed field. */
    ghost predicate SecondaryAgrees()
      reads this
    {
      byAttribute.Keys == indexedFields && forall f :: f in indexedFields ==> Agree(byAttribute[f], entries, f)
    }

    ghost predicate Valid()
      reads this
    {
      SecondaryAgrees() && (!sortedDirty ==> IsOffsetOrder(entries, sortedKeys))
    }

    constructor (fields: seq<Bytes>)
      ensures Valid() && entries == map[]
      ensures indexedFields == set f | f in fields && f != []
    {
      entries := map[];
      var chosen := set f | f in fields && f != [];
      indexedFields := chosen;
      byAttribute := map f | f in chosen :: map[];
      sortedKeys := [];
      sortedDirty := false;
    }

    /** Takes `key` out of the buckets its entry put it in. */
    method RemoveFromSecondary(key: Bytes, e: Entry)
      requires byAttribute.Keys == indexedFields
      modifies this`byAttribute
      ensures byAttribute.Keys == indexedFields
      ensures forall f :: f in indexedFields ==> byAttribute[f] == Unindex(old(byAttribute)[f], f, key, e)
    {
      hide Unindex;
      var rest := indexedFields;
      while rest != {}
        invariant rest <= indexedFields && byAttribute.Keys == indexedFields
        invariant forall f :: f in rest ==> byAttribute[f] == old(byAttribute)[f]
        invariant forall f :: f in indexedFields - rest ==> byAttribute[f] == Unindex(old(byAttribute)[f], f, key, e)
      {
        var f :| f in rest;
        byAttribute := byAttribute[f := Unindex(byAttribute[f], f, key, e)];
        rest := rest - {f};
      }
    }

    /** Puts `key` into the bucket of each indexed attribute its entry carries. */
    method AddToSecondary(key: Bytes, e: Entry)
      requires byAttribute.Keys == indexedFields
      modifies this`byAttribute
      ensures byAttribute.Keys == indexedFields
      ensures forall f :: f in indexedFields ==> byAttribute[f] == Enindex(old(byAttribute)[f], f, key, e)
    {
      hide Enindex;
      var rest := indexedFields;
      while rest != {}
        invariant rest <= indexedFields && byAttribute.Keys == indexedFields
        invariant forall f :: f in rest ==> byAttribute[f] == old(byAttribute)[f]
        invariant forall f :: f in indexedFields - rest ==> byAttribute[f] == Enindex(old(byAttribute)[f], f, key, e)
      {
        var f :| f in rest;
        byAttribute := byAttribute[f := Enindex(byAttribute[f], f, key, e)];
        rest := rest - {f};
      }
    }

    /** Replaces the entry of `key`. */
    method Put(key: Bytes, e: Entry)
      requires Valid()
      modifies this
      ensures Valid() && entries == old(entries)[key := e]
    {
      hide Agree, Unindex, Enindex;
      ghost var without := entries - {key};
      if key in entries {
        RemoveFromSecondary(key, entries[key]);
        forall f | f in indexedFields
          ensures Agree(byAttribute[f], without, f)
        {
          UnindexAgrees(old(byAttribute)[f], entries, f, key);
        }
      } else {
        assert without == entries;
      }
      ghost var mid := byAttribute;
      entries := entries[key := e];
      AddToSecondary(key, e);
      sortedDirty := true;
      assert entries == without[key := e];
      forall f | f in indexedFields
        ensures Agree(byAttribute[f], entries, f)
      {
        EnindexAgrees(mid[f], without, f, key, e);
      }
    }

    /** Removes `key`, if it is there. */
    method Delete(key: Bytes)
      requires Valid()
      modifies this
      ensures Valid() && entries == old(entries) - {key}
    {
      hide Agree, Unindex;
      if key in entries {
        RemoveFromSecondary(key, entries[key]);
        forall f | f in indexedFields
          ensures Agree(byAttribute[f], entries - {key}, f)
        {
          UnindexAgrees(old(byAttribute)[f], entries, f, key);
        }
        sortedDirty := true;
        entries := entries - {key};
      } else {
        assert entries - {key} == entries;
      }
    }

    /** The keys in file order, from the memo when it is current. */
    method KeysSortedByOffset() returns (keys: seq<Bytes>)
      requires Valid() && DistinctOffsets(entries)
      modifies this`sortedKeys, this`sortedDirty
      ensures Valid() && keys == KeysByOffset(entries)
      ensures IsOffsetOrder(entries, keys)
    {
      hide KeysByOffset, Agree;
      if !sortedDirty && |sortedKeys| == |entries| {
        OffsetOrderUnique(entries, sortedKeys, KeysByOffset(entries));
        return sortedKeys;
      }
      OffsetPairsOrdered(entries);
      var pairs := SortSet(OffsetLess, OffsetPairs(entries));
      SortingIsOffsetOrder(entries, pairs);
      sortedKeys := KeysOf(pairs);
      sortedDirty := false;
      OffsetOrderUnique(entries, sortedKeys, KeysByOffset(entries));
      return sortedKeys;
    }

    /** The keys with an indexed attribute equal to `value`; nothing for a field that is not indexed. */
    method KeysBy(field: Bytes, value: Bytes) returns (keys: seq<Bytes>)
      requires Valid()
      ensures forall k :: k in keys <==> field in indexedFields && k in entries && Carries(entries[k], field, value)
      ensures forall i, j :: 0 <= i < j < |keys| ==> keys[i] != keys[j]
    {
      keys := [];
      if field !in byAttribute || value !in byAttribute[field] {
        assert field in indexedFields ==> Matching(entries, field, value) == {};
        assert field in indexedFields ==> forall k :: k in entries ==> k !in Matching(entries, field, value);
        return;
      }
      var rest := byAttribute[field][value];
      assert rest == Matching(entries, field, value);
      while rest != {}
        invariant rest <= byAttribute[field][value]
        invariant forall k :: k in keys <==> k in byAttribute[field][value] - rest
        invariant forall i, j :: 0 <= i < j < |keys| ==> keys[i] != keys[j]
      {
        var k :| k in rest;
        keys := keys + [k];
        rest := rest - {k};
      }
    }

    /** The values present for an indexed field, in increasing order. */
    method AttributeValues(field: Bytes) returns (values: seq<Bytes>)
      requires Valid()
      ensures IsSorting(LexLess, set k | k in entries && field in indexedFields && field in entries[k].attributes
                                     :: entries[k].attributes[field], values)
    {
      hide LexLess;
      if field !in byAttribute {
        return [];
      }
      var b := byAttribute[field];
      LexOrder(b.Keys);
      values := SortSet(LexLess, b.Keys);
      forall value
        ensures value in b.Keys <==> exists k :: k in entries && Carries(entries[k], field, value)
      {
        if value in b.Keys {
          var k :| k in Matching(entries, field, value);
        } else {
          assert Matching(entries, field, value) == {};
          assert forall k :: k in entries ==> k !in Matching(entries, field, value);
        }
      }
      ghost var present := set k | k in entries && field in indexedFields && field in entries[k].attributes
        :: entries[k].attributes[field];
      forall value
        ensures value in present <==> exists k :: k in entries && Carries(entries[k], field, value)
      {
      }
      assert present == b.Keys;
    }

    /** The stored size of all entries. */
    method StoredTotal() returns (total: int)
      ensures total == TotalSize(entries)
    {
      hide Sum;
      total := 0;
      var rest := entries.Keys;
      while rest != {}
        invariant rest <= entries.Keys
        invariant total + Sum(rest, SizeOf(entries)) == TotalSize(entries)
      {
        var k :| k in rest;
        SumRemove(rest, SizeOf(entries), k);
        total := total + entries[k].storedSize;
        rest := rest - {k};
      }
      SumEmpty(SizeOf(entries));
    }
  }
}
