/**
 * The statement shapes the data-access layer uses, over a table held as a sequence
 * of rows:
 *   SELECT ... WHERE c          Filter(s, c)
 *   DELETE ... WHERE c          Filter(s, row => !c(row))
 *   UPDATE ... SET a WHERE c    UpdateWhere(s, c, a)
 *   fetch() of one row          FetchFirst(s, c)
 *   MAX(...) / MIN(...)         MaxOf / MinOf, None standing for SQL NULL
 *   ORDER BY key ASC            SortBy(s, key)
 */
module Query {
  import opened Rows

  /** The rows of `s` that satisfy `keep`, in table order, each as often as in `s`. */
  function Filter<T(!new)>(s: seq<T>, keep: T -> bool): (r: seq<T>)
    ensures |r| <= |s|
    ensures forall x :: x in r <==> x in s && keep(x)
  {
    if s == [] then []
    else
      assert s == [s[0]] + s[1..];
      (if keep(s[0]) then [s[0]] else []) + Filter(s[1..], keep)
  }

  /** Every row satisfying `cond` is replaced by `assign` of it; the other rows and the row count stay. */
  function UpdateWhere<T>(s: seq<T>, cond: T -> bool, assign: T -> T): (r: seq<T>)
    ensures |r| == |s|
    ensures forall i :: 0 <= i < |s| && cond(s[i]) ==> r[i] == assign(s[i])
    ensures forall i :: 0 <= i < |s| && !cond(s[i]) ==> r[i] == s[i]
  {
    if s == [] then []
    else [if cond(s[0]) then assign(s[0]) else s[0]] + UpdateWhere(s[1..], cond, assign)
  }

  /** The position of the first row satisfying `cond`, or None when no row does. */
  function FirstIndex<T>(s: seq<T>, cond: T -> bool): (r: Option<nat>)
    ensures r.None? <==> forall i :: 0 <= i < |s| ==> !cond(s[i])
    ensures r.Some? ==> r.value < |s| && cond(s[r.value]) && forall j :: 0 <= j < r.value ==> !cond(s[j])
  {
    if s == [] then None
    else if cond(s[0]) then Some(0)
    else match FirstIndex(s[1..], cond)
      case None => None
      case Some(i) => Some(i + 1)
  }

  /** The first row satisfying `cond`, or None when no row does (PDO's fetch returning false). */
  function FetchFirst<T>(s: seq<T>, cond: T -> bool): (r: Option<T>)
    ensures r.None? <==> forall i :: 0 <= i < |s| ==> !cond(s[i])
    ensures r.Some? ==> exists i :: 0 <= i < |s| && s[i] == r.value && cond(s[i])
                                    && forall j :: 0 <= j < i ==> !cond(s[j])
  {
    match FirstIndex(s, cond)
    case None => None
    case Some(i) => Some(s[i])
  }

  /** SQL MAX over a column: None (NULL) for no rows, otherwise the largest value. */
  function MaxOf(s: seq<int>): (r: Option<int>)
    ensures r.None? <==> s == []
    ensures r.Some? ==> r.value in s && forall x :: x in s ==> x <= r.value
  {
    if s == [] then None
    else
      assert s == [s[0]] + s[1..];
      match MaxOf(s[1..])
      case None => Some(s[0])
      case Some(m) => Some(if s[0] >= m then s[0] else m)
  }

  /** SQL MIN over a column: None (NULL) for no rows, otherwise the smallest value. */
  function MinOf(s: seq<int>): (r: Option<int>)
    ensures r.None? <==> s == []
    ensures r.Some? ==> r.value in s && forall x :: x in s ==> r.value <= x
  {
    if s == [] then None
    else
      assert s == [s[0]] + s[1..];
      match MinOf(s[1..])
      case None => Some(s[0])
      case Some(m) => Some(if s[0] <= m then s[0] else m)
  }

  ghost predicate SortedBy<T>(s: seq<T>, key: T -> int) {
    forall i, j {:trigger key(s[i]), key(s[j])} :: 0 <= i < j < |s| ==> key(s[i]) <= key(s[j])
  }

  /** A row whose key is at most every key of a sorted table may go in front of it. */
  lemma ConsSorted<T>(x: T, s: seq<T>, key: T -> int)
    requires SortedBy(s, key)
    requires forall j :: 0 <= j < |s| ==> key(x) <= key(s[j])
    ensures SortedBy([x] + s, key)
  {
    var r := [x] + s;
    forall i, j | 0 <= i < j < |r| ensures key(r[i]) <= key(r[j]) {
      assert r[j] == s[j - 1];
      if i > 0 { assert r[i] == s[i - 1]; }
    }
  }
  /** A lower bound on the keys of `s` and of `x` bounds every row of a permutation of `s` plus `x`. */
  lemma BoundedByMultiset<T>(x: T, s: seq<T>, lo: T, rest: seq<T>, key: T -> int)
    requires multiset(rest) == multiset(s) + multiset{x}
    requires key(lo) <= key(x)
    requires forall j :: 0 <= j < |s| ==> key(lo) <= key(s[j])
    ensures forall j :: 0 <= j < |rest| ==> key(lo) <= key(rest[j])
  {
    forall j | 0 <= j < |rest| ensures key(lo) <= key(rest[j]) {
      assert rest[j] in multiset(rest);
      if rest[j] != x {
        assert rest[j] in multiset(s);
        var k :| 0 <= k < |s| && s[k] == rest[j];
      }
    }
  }
  /** `x` placed in front of the first row of the sorted `s` whose key is not smaller. */
  function InsertBy<T>(x: T, s: seq<T>, key: T -> int): (r: seq<T>)
    requires SortedBy(s, key)
    ensures SortedBy(r, key)
    ensures multiset(r) == multiset(s) + multiset{x}
  {
    if s == [] then [x]
    else if key(x) <= key(s[0]) then
      ConsSorted(x, s, key);
      [x] + s
    else
      var rest := InsertBy(x, s[1..], key);
      assert s == [s[0]] + s[1..];
      BoundedByMultiset(x, s[1..], s[0], rest, key);
      ConsSorted(s[0], rest, key);
      [s[0]] + rest
  }

  /** ORDER BY key ASC: a permutation of `s` whose keys ascend (rows with equal keys keep their table order). */
  function SortBy<T>(s: seq<T>, key: T -> int): (r: seq<T>)
    ensures SortedBy(r, key)
    ensures multiset(r) == multiset(s)
  {
    if s == [] then []
    else
      assert s == [s[0]] + s[1..];
      InsertBy(s[0], SortBy(s[1..], key), key)
  }
  /** Sorting keeps exactly the rows of the table. */
  lemma SortedMembers<T>(s: seq<T>, key: T -> int)
    ensures forall x :: x in SortBy(s, key) <==> x in s
  {
    var r := SortBy(s, key);
    forall x ensures x in r <==> x in s {
      assert x in r <==> x in multiset(r);
      assert x in s <==> x in multiset(s);
    }
  }


  /** `ok` holds of every two rows at distinct positions, the earlier one first. */
  ghost predicate Pairwise<T>(s: seq<T>, ok: (T, T) -> bool) {
    forall i, j {:trigger ok(s[i], s[j])} :: 0 <= i < j < |s| ==> ok(s[i], s[j])
  }

  /** A relation that holds pairwise in a table still does after a DELETE or a SELECT. */
  lemma {:induction false} FilterPairwise<T(!new)>(s: seq<T>, keep: T -> bool, ok: (T, T) -> bool)
    requires Pairwise(s, ok)
    ensures Pairwise(Filter(s, keep), ok)
  {
    if s != [] {
      var rest := Filter(s[1..], keep);
      FilterPairwise(s[1..], keep, ok);
      if keep(s[0]) {
        var r := [s[0]] + rest;
        forall i, j | 0 <= i < j < |r| ensures ok(r[i], r[j]) {
          if i == 0 {
            assert r[j] == rest[j - 1] && rest[j - 1] in rest;
            var k :| 0 <= k < |s[1..]| && s[1..][k] == rest[j - 1];
            assert s[k + 1] == r[j];
          } else {
            assert r[i] == rest[i - 1] && r[j] == rest[j - 1];
          }
        }
      }
    }
  }

  /** A relation that an assignment cannot break still holds pairwise after an UPDATE. */
  lemma UpdatePairwise<T>(s: seq<T>, cond: T -> bool, assign: T -> T, ok: (T, T) -> bool)
    requires Pairwise(s, ok)
    requires forall x, y :: ok(x, y) ==> ok(assign(x), y) && ok(x, assign(y)) && ok(assign(x), assign(y))
    ensures Pairwise(UpdateWhere(s, cond, assign), ok)
  {
    var r := UpdateWhere(s, cond, assign);
    forall i, j | 0 <= i < j < |r| ensures ok(r[i], r[j]) {
      assert ok(s[i], s[j]);
    }
  }

  /** An INSERT of a row that `ok` relates to every existing row keeps `ok` pairwise. */
  lemma AppendPairwise<T>(s: seq<T>, x: T, ok: (T, T) -> bool)
    requires Pairwise(s, ok)
    requires forall y :: y in s ==> ok(y, x)
    ensures Pairwise(s + [x], ok)
  {
    var r := s + [x];
    forall i, j | 0 <= i < j < |r| ensures ok(r[i], r[j]) {
      if j < |s| {
        assert r[i] == s[i] && r[j] == s[j];
      } else {
        assert r[i] == s[i] && s[i] in s;
      }
    }
  }

  /** Selecting after an append is selecting before it, plus the new row if it qualifies. */
  lemma {:induction false} FilterAppend<T(!new)>(s: seq<T>, x: T, keep: T -> bool)
    ensures Filter(s + [x], keep) == Filter(s, keep) + (if keep(x) then [x] else [])
  {
    if s == [] {
      assert s + [x] == [x];
    } else {
      var t := s + [x];
      assert t[0] == s[0] && t[1..] == s[1..] + [x];
      FilterAppend(s[1..], x, keep);
      var h := if keep(s[0]) then [s[0]] else [];
      var e := if keep(x) then [x] else [];
      assert Filter(t, keep) == h + Filter(t[1..], keep);
      assert h + (Filter(s[1..], keep) + e) == (h + Filter(s[1..], keep)) + e;
    }
  }

  /** An UPDATE that cannot change whether a row is selected commutes with the selection. */
  lemma {:induction false} FilterUpdateCommute<T(!new)>(s: seq<T>, keep: T -> bool, cond: T -> bool, assign: T -> T)
    requires forall x :: cond(x) ==> keep(assign(x)) == keep(x)
    ensures Filter(UpdateWhere(s, cond, assign), keep) == UpdateWhere(Filter(s, keep), cond, assign)
  {
    if s != [] {
      var u := UpdateWhere(s, cond, assign);
      assert u[1..] == UpdateWhere(s[1..], cond, assign);
      FilterUpdateCommute(s[1..], keep, cond, assign);
    }
  }

  /** Two successive selections are one selection by the conjunction of their conditions. */
  lemma {:induction false} FilterFilter<T(!new)>(s: seq<T>, f: T -> bool, g: T -> bool, both: T -> bool)
    requires forall x :: both(x) == (f(x) && g(x))
    ensures Filter(Filter(s, f), g) == Filter(s, both)
  {
    if s != [] {
      FilterFilter(s[1..], f, g, both);
      var inner := Filter(s[1..], f);
      if f(s[0]) {
        var fs := [s[0]] + inner;
        assert Filter(s, f) == fs;
        assert fs[0] == s[0] && fs[1..] == inner;
        assert Filter(fs, g) == (if g(s[0]) then [s[0]] else []) + Filter(inner, g);
      } else {
        assert Filter(s, f) == inner;
      }
    }
  }

  /** The set of keys (a column, or a tuple of columns) that the rows of a table hold. */
  ghost function Keys<T, K>(s: seq<T>, key: T -> K): set<K>
  {
    set x | x in s :: key(x)
  }

  /** Two tables holding the same keys row by row hold the same set of keys. */
  lemma SameKeysAt<T, K>(s: seq<T>, r: seq<T>, key: T -> K)
    requires |r| == |s|
    requires forall i :: 0 <= i < |s| ==> key(r[i]) == key(s[i])
    ensures Keys(r, key) == Keys(s, key)
  {
    forall k | k in Keys(r, key) ensures k in Keys(s, key) {
      var y :| y in r && key(y) == k;
      var i :| 0 <= i < |r| && r[i] == y;
      assert s[i] in s;
    }
    forall k | k in Keys(s, key) ensures k in Keys(r, key) {
      var x :| x in s && key(x) == k;
      var i :| 0 <= i < |s| && s[i] == x;
      assert r[i] in r;
    }
  }

  /** An UPDATE that keeps the key of the rows it changes keeps the set of keys. */
  lemma UpdateKeepsKeys<T, K>(s: seq<T>, cond: T -> bool, assign: T -> T, key: T -> K)
    requires forall x :: cond(x) ==> key(assign(x)) == key(x)
    ensures Keys(UpdateWhere(s, cond, assign), key) == Keys(s, key)
  {
    var r := UpdateWhere(s, cond, assign);
    forall i | 0 <= i < |s| ensures key(r[i]) == key(s[i]) {
      if cond(s[i]) {
        assert r[i] == assign(s[i]);
      }
    }
    SameKeysAt(s, r, key);
  }

  /** An INSERT adds the key of the new row. */
  lemma AppendKeys<T, K>(s: seq<T>, x: T, key: T -> K)
    ensures Keys(s + [x], key) == Keys(s, key) + {key(x)}
  {
    assert x in s + [x];
    forall k | k in Keys(s, key) ensures k in Keys(s + [x], key) {
      var y :| y in s && key(y) == k;
      assert y in s + [x];
    }
  }

  /** A DELETE whose condition depends on the key alone keeps exactly the keys that pass it. */
  lemma FilterKeys<T(!new), K>(s: seq<T>, keep: T -> bool, key: T -> K, keepKey: K -> bool)
    requires forall x :: keep(x) == keepKey(key(x))
    ensures Keys(Filter(s, keep), key) == set k | k in Keys(s, key) && keepKey(k)
  {
    var r := Filter(s, keep);
    forall k | k in Keys(s, key) && keepKey(k) ensures k in Keys(r, key) {
      var x :| x in s && key(x) == k;
      assert x in r;
    }
  }

  /** A DELETE of the rows holding one key removes exactly that key. */
  lemma FilterKeysWithout<T(!new), K>(s: seq<T>, keep: T -> bool, key: T -> K, k: K)
    requires forall x :: keep(x) == (key(x) != k)
    ensures Keys(Filter(s, keep), key) == Keys(s, key) - {k}
  {
    FilterKeys(s, keep, key, (j: K) => j != k);
  }

  /** A DELETE keeps only keys the table held. */
  lemma FilterKeysShrink<T(!new), K>(s: seq<T>, keep: T -> bool, key: T -> K)
    ensures Keys(Filter(s, keep), key) <= Keys(s, key)
  {
  }

  /**
   * A row property that holds of every row the UPDATE leaves alone, and of the
   * replacement of every row it matches, holds of every row afterwards.
   */
  lemma UpdateKeepsAll<T>(s: seq<T>, cond: T -> bool, assign: T -> T, P: T -> bool)
    requires forall x :: x in s && !cond(x) ==> P(x)
    requires forall x :: x in s && cond(x) ==> P(assign(x))
    ensures forall y :: y in UpdateWhere(s, cond, assign) ==> P(y)
  {
    var r := UpdateWhere(s, cond, assign);
    forall y | y in r ensures P(y) {
      var i :| 0 <= i < |r| && r[i] == y;
      assert s[i] in s;
    }
  }

  /** Every row's key is among the table's keys. */
  lemma KeysOfRows<T, K>(s: seq<T>, key: T -> K)
    ensures forall x :: x in s ==> key(x) in Keys(s, key)
  {
  }

  /**
   * A primary key: rows are pairwise `distinct`, which compares their `id`s, and every
   * id is below `bound`, the next value the id counter hands out.
   */
  ghost predicate KeyedBelow<T>(s: seq<T>, distinct: (T, T) -> bool, id: T -> int, bound: int)
  {
    Pairwise(s, distinct) && forall k :: k in Keys(s, id) ==> k < bound
  }

  /** An INSERT with the counter's value as id keeps the key, with the counter advanced. */
  lemma KeyedBelowAppend<T(!new)>(s: seq<T>, x: T, distinct: (T, T) -> bool, id: T -> int, bound: int)
    requires KeyedBelow(s, distinct, id, bound)
    requires forall a, b :: distinct(a, b) == (id(a) != id(b))
    requires id(x) == bound
    ensures KeyedBelow(s + [x], distinct, id, bound + 1)
  {
    KeysOfRows(s, id);
    AppendPairwise(s, x, distinct);
    AppendKeys(s, x, id);
  }

  /** A DELETE keeps the key. */
  lemma KeyedBelowFilter<T(!new)>(s: seq<T>, keep: T -> bool, distinct: (T, T) -> bool, id: T -> int, bound: int)
    requires KeyedBelow(s, distinct, id, bound)
    ensures KeyedBelow(Filter(s, keep), distinct, id, bound)
  {
    FilterPairwise(s, keep, distinct);
    FilterKeysShrink(s, keep, id);
  }

  /** An UPDATE that does not touch the id column keeps the key. */
  lemma KeyedBelowUpdate<T(!new)>(s: seq<T>, cond: T -> bool, assign: T -> T, distinct: (T, T) -> bool, id: T -> int,
                            bound: int)
    requires KeyedBelow(s, distinct, id, bound)
    requires forall a, b :: distinct(a, b) == (id(a) != id(b))
    requires forall x :: id(assign(x)) == id(x)
    ensures KeyedBelow(UpdateWhere(s, cond, assign), distinct, id, bound)
  {
    forall x, y | distinct(x, y)
      ensures distinct(assign(x), y) && distinct(x, assign(y)) && distinct(assign(x), assign(y))
    {
      assert id(assign(x)) == id(x) && id(assign(y)) == id(y);
    }
    UpdatePairwise(s, cond, assign, distinct);
    UpdateKeepsKeys(s, cond, assign, id);
  }

  /** A lookup by key finds a row exactly when the key is held. */
  lemma FetchByKey<T, K>(s: seq<T>, cond: T -> bool, key: T -> K, k: K)
    requires forall x :: cond(x) == (key(x) == k)
    ensures FetchFirst(s, cond).None? <==> k !in Keys(s, key)
  {
    if k in Keys(s, key) {
      var x :| x in s && key(x) == k;
      var i :| 0 <= i < |s| && s[i] == x;
      assert cond(s[i]);
    }
  }

  /** A DELETE whose condition no row meets leaves the table as it is. */
  lemma {:induction false} FilterKeepsAll<T(!new)>(s: seq<T>, keep: T -> bool)
    requires forall x :: x in s ==> keep(x)
    ensures Filter(s, keep) == s
  {
    if s != [] {
      assert s[0] in s;
      assert forall x :: x in s[1..] ==> x in s;
      FilterKeepsAll(s[1..], keep);
      assert s == [s[0]] + s[1..];
    }
  }

  /** An UPDATE whose condition matches no row leaves the table as it is. */
  lemma UpdateNoMatch<T>(s: seq<T>, cond: T -> bool, assign: T -> T)
    requires forall i :: 0 <= i < |s| ==> !cond(s[i])
    ensures UpdateWhere(s, cond, assign) == s
  {
  }
}
