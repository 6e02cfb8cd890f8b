/**
 The keys of an index in the order their records lie in the file.
 */
module KeyOrder {
  import opened Bytes
  import opened Order
  import Record
  import opened LogMap

  datatype KeyOffset = KeyOffset(key: Bytes, offset: nat)

  predicate OffsetLess(a: KeyOffset, b: KeyOffset) { a.offset < b.offset }

  /** No two entries start at the same place. */
  predicate DistinctOffsets(m: Entries) {
    forall k, l :: k in m && l in m && k != l ==> m[k].recordOffset != m[l].recordOffset
  }

  function OffsetPairs(m: Entries): set<KeyOffset> {
    set k | k in m :: KeyOffset(k, m[k].recordOffset)
  }

  /** `keys` lists the keys of `m`, each once, by strictly increasing record offset. */
  ghost predicate IsOffsetOrder(m: Entries, keys: seq<Bytes>) {
    && (forall k :: k in keys <==> k in m)
    && (forall i, j :: 0 <= i < j < |keys| ==> m[keys[i]].recordOffset < m[keys[j]].recordOffset)
  }

  lemma OffsetPairsOrdered(m: Entries)
    requires DistinctOffsets(m)
    ensures StrictOrderOn(OffsetLess, OffsetPairs(m))
  {
  }

  function KeysOf(pairs: seq<KeyOffset>): (keys: seq<Bytes>)
    ensures |keys| == |pairs| && forall i :: 0 <= i < |keys| ==> keys[i] == pairs[i].key
  {
    seq(|pairs|, i requires 0 <= i < |pairs| => pairs[i].key)
  }

  lemma SortingIsOffsetOrder(m: Entries, pairs: seq<KeyOffset>)
    requires IsSorting(OffsetLess, OffsetPairs(m), pairs)
    ensures IsOffsetOrder(m, KeysOf(pairs))
  {
    var keys := KeysOf(pairs);
    assert forall i :: 0 <= i < |pairs| ==> pairs[i] in pairs && pairs[i] in OffsetPairs(m);
    forall k
      ensures k in keys <==> k in m
    {
      if k in m {
        assert KeyOffset(k, m[k].recordOffset) in pairs;
        var i :| 0 <= i < |pairs| && pairs[i] == KeyOffset(k, m[k].recordOffset);
        assert keys[i] == k;
      }
    }
    forall i, j | 0 <= i < j < |keys|
      ensures m[keys[i]].recordOffset < m[keys[j]].recordOffset
    {
      assert OffsetLess(pairs[i], pairs[j]);
    }
  }

  /** The keys in file order. */
  ghost function KeysByOffset(m: Entries): (keys: seq<Bytes>)
    requires DistinctOffsets(m)
    ensures IsOffsetOrder(m, keys)
  {
    OffsetPairsOrdered(m);
    var pairs := Sorting(OffsetLess, OffsetPairs(m));
    SortingIsOffsetOrder(m, pairs);
    KeysOf(pairs)
  }

  /** There is only one file order. */
  lemma OffsetOrderUnique(m: Entries, p: seq<Bytes>, q: seq<Bytes>)
    requires IsOffsetOrder(m, p) && IsOffsetOrder(m, q)
    ensures p == q
  {
    var less := (k: Bytes, l: Bytes) => k in m && l in m && m[k].recordOffset < m[l].recordOffset;
    assert IsSorting(less, m.Keys, p) && IsSorting(less, m.Keys, q);
    forall k, l | k in m.Keys && l in m.Keys && k != l
      ensures less(k, l) || less(l, k)
    {
      OffsetsDiffer(m, p, k, l);
    }
    SortingUnique(less, m.Keys, p, q);
  }

  lemma OffsetsDiffer(m: Entries, p: seq<Bytes>, k: Bytes, l: Bytes)
    requires IsOffsetOrder(m, p) && k in m && l in m && k != l
    ensures m[k].recordOffset != m[l].recordOffset
  {
    assert k in p && l in p;
    var i :| 0 <= i < |p| && p[i] == k;
    var j :| 0 <= j < |p| && p[j] == l;
    assert i < j || j < i;
  }

  /** In the index of tiled records no two keys share an offset. */
  lemma IndexOffsetsDistinct(rs: seq<Record.LogRecord>, from: nat, to: nat)
    requires Tiles(rs, from, to)
    ensures DistinctOffsets(IndexOf(rs))
  {
    hide IndexOf, Tiles;
    var m := IndexOf(rs);
    forall k, l | k in m && l in m && k != l
      ensures m[k].recordOffset != m[l].recordOffset
    {
      ExtentsDisjoint(rs, from, to, k, l);
      ExtentsDisjoint(rs, from, to, l, k);
    }
  }

  lemma KeysDistinct(m: Entries, keys: seq<Bytes>, i: nat, j: nat)
    requires IsOffsetOrder(m, keys) && i < j < |keys|
    ensures keys[i] != keys[j]
  {
    assert keys[i] in m && keys[j] in m;
    assert m[keys[i]].recordOffset < m[keys[j]].recordOffset;
  }
}
