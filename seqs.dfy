/**
 * The sequence operations the JavaScript code takes from its standard
 * library: `Array.prototype.filter`, a `map` followed by a `filter`, and the
 * stable `Array.prototype.sort` with a comparator.
 */
module Seqs {

  /** `s.filter(p)`: the elements that satisfy `p`, in their original order. */
  function Filter<T(!new)>(s: seq<T>, p: T -> bool): (r: seq<T>)
    ensures |r| <= |s|
    ensures forall x :: x in r <==> x in s && p(x)
  {
    if s == [] then [] else (if p(s[0]) then [s[0]] else []) + Filter(s[1..], p)
  }

  /** `s.map(f)` flattened, in order; with `f` giving at most one element each, a `map` followed by a `filter`. */
  function FlatMap<A, B>(s: seq<A>, f: A -> seq<B>): (r: seq<B>)
    ensures (forall x :: x in s ==> |f(x)| <= 1) ==> |r| <= |s|
  {
    if s == [] then [] else f(s[0]) + FlatMap(s[1..], f)
  }

  lemma {:induction false} FlatMapAppend<A, B>(a: seq<A>, b: seq<A>, f: A -> seq<B>)
    ensures FlatMap(a + b, f) == FlatMap(a, f) + FlatMap(b, f)
  {
    if a == [] {
      assert a + b == b;
    } else {
      assert (a + b)[0] == a[0];
      assert (a + b)[1..] == a[1..] + b;
      FlatMapAppend(a[1..], b, f);
    }
  }

  lemma {:induction false} FilterAppend<T(!new)>(s: seq<T>, x: T, p: T -> bool)
    ensures Filter(s + [x], p) == Filter(s, p) + (if p(x) then [x] else [])
  {
    if s != [] {
      assert (s + [x])[1..] == s[1..] + [x];
      FilterAppend(s[1..], x, p);
    }
  }

  lemma {:induction false} FilterAll<T(!new)>(s: seq<T>, p: T -> bool)
    requires forall x :: x in s ==> p(x)
    ensures Filter(s, p) == s
  {
    if s != [] {
      FilterAll(s[1..], p);
    }
  }

  lemma {:induction false} FilterNone<T(!new)>(s: seq<T>, p: T -> bool)
    requires forall x :: x in s ==> !p(x)
    ensures Filter(s, p) == []
  {
    if s != [] {
      FilterNone(s[1..], p);
    }
  }

  /** Keys strictly increase along `s`. */
  ghost predicate Increasing<T(!new)>(s: seq<T>, key: T -> int) {
    forall i, j :: 0 <= i < j < |s| ==> key(s[i]) < key(s[j])
  }

  /** Keys never decrease along `s`. */
  ghost predicate Ascending<T(!new)>(s: seq<T>, key: T -> int) {
    forall i, j :: 0 <= i < j < |s| ==> key(s[i]) <= key(s[j])
  }

  /** Filtering keeps a strictly increasing order. */
  lemma {:induction false} FilterIncreasing<T(!new)>(s: seq<T>, p: T -> bool, key: T -> int)
    requires Increasing(s, key)
    ensures Increasing(Filter(s, p), key)
  {
    if s != [] {
      FilterIncreasing(s[1..], p, key);
      var rest := Filter(s[1..], p);
      forall y | y in rest ensures key(s[0]) < key(y) {
        var j :| 0 <= j < |s[1..]| && s[1..][j] == y;
        assert s[j + 1] == y;
      }
    }
  }

  /**
   * One step of a stable insertion sort: `x` goes after every element the
   * comparator does not rank above it.
   */
  function Insert<T(!new)>(s: seq<T>, x: T, cmp: (T, T) -> int): (r: seq<T>)
    ensures |r| == |s| + 1
    ensures multiset(r) == multiset(s) + multiset{x}
  {
    if s == [] then [x]
    else if cmp(s[|s| - 1], x) > 0 then
      assert s == s[..|s| - 1] + [s[|s| - 1]];
      Insert(s[..|s| - 1], x, cmp) + [s[|s| - 1]]
    else s + [x]
  }

  /** `s.sort(cmp)` as a stable sort; the result is always a permutation of `s`. */
  function Sort<T(!new)>(s: seq<T>, cmp: (T, T) -> int): (r: seq<T>)
    ensures |r| == |s|
    ensures multiset(r) == multiset(s)
  {
    if s == [] then []
    else
      assert s == s[..|s| - 1] + [s[|s| - 1]];
      Insert(Sort(s[..|s| - 1], cmp), s[|s| - 1], cmp)
  }

  /** On the elements of `s`, the comparator ranks by `key`. */
  ghost predicate RanksBy<T(!new)>(s: seq<T>, cmp: (T, T) -> int, key: T -> int) {
    forall a, b :: a in s && b in s ==> (cmp(a, b) > 0 <==> key(a) > key(b))
  }

  lemma AscendingSnoc<T(!new)>(s: seq<T>, y: T, key: T -> int)
    requires Ascending(s, key)
    requires forall a :: a in s ==> key(a) <= key(y)
    ensures Ascending(s + [y], key)
  {
    forall i, j | 0 <= i < j < |s + [y]| ensures key((s + [y])[i]) <= key((s + [y])[j]) {
      assert (s + [y])[i] == s[i];
      if j == |s| {
        assert s[i] in s;
      }
    }
  }

  lemma {:induction false} InsertAscending<T(!new)>(s: seq<T>, x: T, cmp: (T, T) -> int, key: T -> int)
    requires Ascending(s, key)
    requires forall a :: a in s ==> (cmp(a, x) > 0 <==> key(a) > key(x))
    ensures Ascending(Insert(s, x, cmp), key)
  {
    if s != [] {
      var last := s[|s| - 1];
      var init := s[..|s| - 1];
      assert last in s;
      forall a | a in s ensures key(a) <= key(last) {
        var j :| 0 <= j < |s| && s[j] == a;
      }
      if cmp(last, x) > 0 {
        assert forall a :: a in init ==> a in s;
        InsertAscending(init, x, cmp, key);
        var r := Insert(init, x, cmp);
        forall y | y in r ensures key(y) <= key(last) {
          assert y in multiset(r);
          if y != x {
            assert y in init;
          }
        }
        AscendingSnoc(r, last, key);
      } else {
        AscendingSnoc(s, x, key);
      }
    }
  }

  /** When the comparator ranks by a key, sorting orders by that key. */
  lemma {:induction false} SortAscending<T(!new)>(s: seq<T>, cmp: (T, T) -> int, key: T -> int)
    requires RanksBy(s, cmp, key)
    ensures Ascending(Sort(s, cmp), key)
  {
    if s != [] {
      var init := s[..|s| - 1];
      var x := s[|s| - 1];
      assert forall a :: a in init ==> a in s;
      SortAscending(init, cmp, key);
      var sorted := Sort(init, cmp);
      forall a | a in sorted ensures (cmp(a, x) > 0 <==> key(a) > key(x)) {
        assert a in multiset(sorted);
        assert a in init;
      }
      InsertAscending(sorted, x, cmp, key);
    }
  }
}
