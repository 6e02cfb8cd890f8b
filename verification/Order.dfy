/**
 Sorting a set by a strict order, the byte-wise order of strings, and sums over sets.
 Go's map iteration visits keys in no fixed order, so code that ranges over a map is
 specified by results that do not depend on that order.
 */
module Order {
  import opened Bytes

  /** `less` is a strict total order on the elements of `s`. */
  ghost predicate StrictOrderOn<T(!new)>(less: (T, T) -> bool, s: set<T>) {
    && (forall x :: x in s ==> !less(x, x))
    && (forall x, y :: x in s && y in s && x != y ==> less(x, y) || less(y, x))
    && (forall x, y, z :: x in s && y in s && z in s && less(x, y) && less(y, z) ==> less(x, z))
  }

  predicate NoRepeats<T(==)>(q: seq<T>) {
    forall i, j :: 0 <= i < j < |q| ==> q[i] != q[j]
  }

  ghost predicate Sorted<T>(less: (T, T) -> bool, q: seq<T>) {
    forall i, j :: 0 <= i < j < |q| ==> less(q[i], q[j])
  }

  /** `q` lists exactly the elements of `s`, each once, in increasing order. */
  ghost predicate IsSorting<T(!new)>(less: (T, T) -> bool, s: set<T>, q: seq<T>) {
    && Sorted(less, q)
    && (forall x :: x in q <==> x in s)
  }

  /** There is only one way to list a set in increasing order. */
  lemma {:induction false} SortingUnique<T(!new)>(less: (T, T) -> bool, s: set<T>, p: seq<T>, q: seq<T>)
    requires StrictOrderOn(less, s)
    requires IsSorting(less, s, p) && IsSorting(less, s, q)
    ensures p == q
    decreases |p|
  {
    SortingLength(less, s, p);
    SortingLength(less, s, q);
    if |p| > 0 {
      HeadsAgree(less, s, p, q);
      DropHead(less, s, p);
      DropHead(less, s, q);
      SortingUnique(less, s - {p[0]}, p[1..], q[1..]);
      assert p == [p[0]] + p[1..] && q == [q[0]] + q[1..];
    }
  }

  lemma HeadsAgree<T(!new)>(less: (T, T) -> bool, s: set<T>, p: seq<T>, q: seq<T>)
    requires StrictOrderOn(less, s)
    requires IsSorting(less, s, p) && IsSorting(less, s, q)
    requires |p| > 0 && |q| > 0
    ensures p[0] == q[0]
  {
    assert p[0] in s && q[0] in s;
    var i :| 0 <= i < |q| && q[i] == p[0];
    var j :| 0 <= j < |p| && p[j] == q[0];
  }

  lemma DropHead<T(!new)>(less: (T, T) -> bool, s: set<T>, p: seq<T>)
    requires StrictOrderOn(less, s) && IsSorting(less, s, p) && |p| > 0
    ensures IsSorting(less, s - {p[0]}, p[1..])
  {
    forall x
      ensures x in p[1..] <==> x in s - {p[0]}
    {
      assert p == [p[0]] + p[1..];
      if x in p[1..] {
        var i :| 0 <= i < |p| - 1 && p[1..][i] == x;
        assert less(p[0], p[i + 1]) && p[i + 1] in s && p[0] in s;
      }
    }
  }

  /** Puts `x` before the first element of `q` that is not less than it. */
  function Insert<T>(less: (T, T) -> bool, q: seq<T>, x: T): seq<T> {
    if |q| == 0 || less(x, q[0]) then [x] + q else [q[0]] + Insert(less, q[1..], x)
  }

  lemma {:induction false} InsertMembers<T>(less: (T, T) -> bool, q: seq<T>, x: T, y: T)
    ensures y in Insert(less, q, x) <==> y == x || y in q
  {
    if |q| > 0 {
      InsertMembers(less, q[1..], x, y);
      assert q == [q[0]] + q[1..];
    }
  }

  lemma {:induction false} InsertSorted<T(!new)>(less: (T, T) -> bool, s: set<T>, q: seq<T>, x: T)
    requires StrictOrderOn(less, s + {x}) && x !in s && IsSorting(less, s, q)
    ensures IsSorting(less, s + {x}, Insert(less, q, x))
    decreases |q|
  {
    var r := Insert(less, q, x);
    forall y
      ensures y in r <==> y in s + {x}
    {
      InsertMembers(less, q, x, y);
    }
    if |q| == 0 {
    } else if less(x, q[0]) {
      forall i, j | 0 <= i < j < |r|
        ensures less(r[i], r[j])
      {
        assert r[j] == q[j - 1] && q[j - 1] in s && q[0] in s;
        if i == 0 {
          assert j == 1 || less(q[0], q[j - 1]);
        } else {
          assert r[i] == q[i - 1];
        }
      }
    } else {
      assert q[0] in s;
      assert less(q[0], x);
      DropHead(less, s, q);
      InsertSorted(less, s - {q[0]}, q[1..], x);
      InsertAfterHead(less, q, x);
    }
  }

  lemma InsertAfterHead<T(!new)>(less: (T, T) -> bool, q: seq<T>, x: T)
    requires |q| > 0 && Sorted(less, q) && less(q[0], x) && !less(x, q[0]) && Sorted(less, Insert(less, q[1..], x))
    ensures Sorted(less, Insert(less, q, x))
  {
    var r, t := Insert(less, q, x), Insert(less, q[1..], x);
    forall i, j | 0 <= i < j < |r|
      ensures less(r[i], r[j])
    {
      assert r[j] == t[j - 1] && t[j - 1] in t;
      if i == 0 {
        InsertMembers(less, q[1..], x, t[j - 1]);
        if t[j - 1] in q[1..] {
          var k :| 0 <= k < |q| - 1 && q[1..][k] == t[j - 1];
          assert less(q[0], q[k + 1]);
        }
      } else {
        assert r[i] == t[i - 1];
      }
    }
  }

  /** The elements of `s` in increasing order. */
  ghost function Sorting<T(!new)>(less: (T, T) -> bool, s: set<T>): (q: seq<T>)
    requires StrictOrderOn(less, s)
    ensures IsSorting(less, s, q)
  {
    if s == {} then [] else
      var x :| x in s;
      var q := Sorting(less, s - {x});
      assert (s - {x}) + {x} == s;
      InsertSorted(less, s - {x}, q, x);
      Insert(less, q, x)
  }

  lemma {:induction false} SortingLength<T(!new)>(less: (T, T) -> bool, s: set<T>, q: seq<T>)
    requires StrictOrderOn(less, s) && IsSorting(less, s, q)
    ensures |q| == |s|
    decreases |q|
  {
    if |q| == 0 {
      assert s == {};
    } else {
      assert q[0] in s;
      DropHead(less, s, q);
      SortingLength(less, s - {q[0]}, q[1..]);
    }
  }

  /** Sorts a set, whatever order its elements are visited in. */
  method SortSet<T(==,!new)>(less: (T, T) -> bool, s: set<T>) returns (q: seq<T>)
    requires StrictOrderOn(less, s)
    ensures q == Sorting(less, s)
  {
    q := [];
    var rest := s;
    while rest != {}
      invariant rest <= s
      invariant IsSorting(less, s - rest, q)
    {
      var x :| x in rest;
      assert s - (rest - {x}) == (s - rest) + {x};
      InsertSorted(less, s - rest, q, x);
      q := Insert(less, q, x);
      rest := rest - {x};
    }
    assert s - rest == s;
    SortingUnique(less, s, q, Sorting(less, s));
  }

  // --------------------------------------------------------------- byte-wise string order

  /** The order `sort.Strings` sorts by. */
  predicate LexLess(a: Bytes, b: Bytes) {
    if |b| == 0 then false
    else if |a| == 0 then true
    else if a[0] != b[0] then a[0] < b[0]
    else LexLess(a[1..], b[1..])
  }

  /** The strings first differ at `i`, and there `a` has the smaller byte. */
  predicate SmallerAt(a: Bytes, b: Bytes, i: nat) {
    i < |a| && i < |b| && a[..i] == b[..i] && a[i] < b[i]
  }

  /** One string is before another exactly when it is a proper prefix or the first byte that differs is smaller. */
  lemma {:induction false} LexLessIff(a: Bytes, b: Bytes)
    ensures LexLess(a, b) <==> a < b || exists i: nat :: SmallerAt(a, b, i)
  {
    if |a| > 0 && |b| > 0 && a[0] == b[0] {
      LexLessIff(a[1..], b[1..]);
      assert a == [a[0]] + a[1..] && b == [b[0]] + b[1..];
      forall i: nat
        ensures SmallerAt(a, b, i + 1) <==> SmallerAt(a[1..], b[1..], i)
      {
        SmallerBehind(a, b, i);
      }
      forall i: nat | SmallerAt(a, b, i)
        ensures exists j: nat :: SmallerAt(a[1..], b[1..], j)
      {
        assert SmallerAt(a[1..], b[1..], i - 1);
      }
    } else if |a| > 0 && |b| > 0 && a[0] < b[0] {
      assert SmallerAt(a, b, 0);
    } else if |a| > 0 && |b| > 0 {
      forall i: nat
        ensures !SmallerAt(a, b, i)
      {
        assert i > 0 && i < |a| && i < |b| ==> a[..i][0] != b[..i][0];
      }
    }
  }

  lemma SmallerBehind(a: Bytes, b: Bytes, i: nat)
    requires |a| > 0 && |b| > 0 && a[0] == b[0]
    ensures SmallerAt(a, b, i + 1) <==> SmallerAt(a[1..], b[1..], i)
  {
    if i + 1 < |a| && i + 1 < |b| {
      assert a[..i + 1] == [a[0]] + a[1..][..i] && b[..i + 1] == [b[0]] + b[1..][..i];
      assert a[..i + 1][1..] == a[1..][..i] && b[..i + 1][1..] == b[1..][..i];
    }
  }

  lemma {:induction false} LexIrreflexive(a: Bytes)
    ensures !LexLess(a, a)
  {
    if |a| > 0 { LexIrreflexive(a[1..]); }
  }

  lemma {:induction false} LexTotal(a: Bytes, b: Bytes)
    ensures a == b || LexLess(a, b) || LexLess(b, a)
  {
    if |a| > 0 && |b| > 0 && a[0] == b[0] {
      LexTotal(a[1..], b[1..]);
      assert a == [a[0]] + a[1..] && b == [b[0]] + b[1..];
    }
  }

  lemma {:induction false} LexTransitive(a: Bytes, b: Bytes, c: Bytes)
    requires LexLess(a, b) && LexLess(b, c)
    ensures LexLess(a, c)
  {
    if |a| > 0 && a[0] == b[0] == c[0] {
      LexTransitive(a[1..], b[1..], c[1..]);
    }
  }

  lemma LexOrder(s: set<Bytes>)
    ensures StrictOrderOn(LexLess, s)
  {
    forall x | x in s
      ensures !LexLess(x, x)
    {
      LexIrreflexive(x);
    }
    forall x, y | x in s && y in s && x != y
      ensures LexLess(x, y) || LexLess(y, x)
    {
      LexTotal(x, y);
    }
    forall x, y, z | x in s && y in s && z in s && LexLess(x, y) && LexLess(y, z)
      ensures LexLess(x, z)
    {
      LexTransitive(x, y, z);
    }
  }

  // --------------------------------------------------------------- sums over sets

  ghost function Sum<T(!new)>(s: set<T>, f: T -> int): int {
    if s == {} then 0 else
      var x :| x in s;
      f(x) + Sum(s - {x}, f)
  }

  lemma SumEmpty<T(!new)>(f: T -> int)
    ensures Sum({}, f) == 0
  {
  }

  /** A sum may be taken in any order. */
  lemma {:induction false} SumRemove<T(!new)>(s: set<T>, f: T -> int, x: T)
    requires x in s
    ensures Sum(s, f) == f(x) + Sum(s - {x}, f)
    decreases |s|
  {
    var y :| y in s && Sum(s, f) == f(y) + Sum(s - {y}, f);
    if y != x {
      SumRemove(s - {y}, f, x);
      SumRemove(s - {x}, f, y);
      assert s - {y} - {x} == s - {x} - {y};
    }
  }

  lemma {:induction false} SumSame<T(!new)>(s: set<T>, f: T -> int, g: T -> int)
    requires forall x :: x in s ==> f(x) == g(x)
    ensures Sum(s, f) == Sum(s, g)
    decreases |s|
  {
    if s != {} {
      var x :| x in s;
      SumRemove(s, f, x);
      SumRemove(s, g, x);
      SumSame(s - {x}, f, g);
    }
  }

  lemma {:induction false} SumBounded<T(!new)>(s: set<T>, f: T -> int, bound: int)
    requires forall x :: x in s ==> f(x) <= bound
    ensures Sum(s, f) <= |s| * bound
    decreases |s|
  {
    if s != {} {
      var x :| x in s;
      SumRemove(s, f, x);
      SumBounded(s - {x}, f, bound);
      assert |s| * bound == (|s| - 1) * bound + bound;
    }
  }
}
