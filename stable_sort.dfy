/**
 * LINQ's `OrderBy(...)` / `ThenBy(...)`: a STABLE sort by a total preorder.
 * It is modelled as an insertion sort; what the rest of the model relies on is
 * stated as lemmas: the result is a permutation of the input, it is sorted,
 * and elements the preorder ranks level keep their relative order.
 */
module StableSort {

  ghost predicate TotalPreorder<T(!new)>(le: (T, T) -> bool) {
    && (forall a, b :: le(a, b) || le(b, a))
    && (forall a, b, c :: le(a, b) && le(b, c) ==> le(a, c))
  }

  ghost predicate SortedBy<T>(s: seq<T>, le: (T, T) -> bool) {
    forall i, j :: 0 <= i < j < |s| ==> le(s[i], s[j])
  }

  /** The elements of `s` that `le` ranks level with `k`, in their order in `s`. */
  function Level<T>(s: seq<T>, k: T, le: (T, T) -> bool): seq<T> {
    if s == [] then []
    else (if le(s[0], k) && le(k, s[0]) then [s[0]] else []) + Level(s[1..], k, le)
  }

  /** Places `x` just before the first element of `s` that it does not rank above. */
  function Insert<T>(x: T, s: seq<T>, le: (T, T) -> bool): (r: seq<T>)
    ensures |r| == |s| + 1
    ensures multiset(r) == multiset(s) + multiset{x}
  {
    if s == [] || le(x, s[0]) then [x] + s
    else
      assert s == [s[0]] + s[1..];
      [s[0]] + Insert(x, s[1..], le)
  }

  function SortBy<T>(s: seq<T>, le: (T, T) -> bool): (r: seq<T>)
    ensures |r| == |s|
    ensures multiset(r) == multiset(s)
  {
    if s == [] then []
    else
      assert s == [s[0]] + s[1..];
      Insert(s[0], SortBy(s[1..], le), le)
  }

  lemma {:induction false} InsertSorted<T(!new)>(x: T, s: seq<T>, le: (T, T) -> bool)
    requires TotalPreorder(le) && SortedBy(s, le)
    ensures SortedBy(Insert(x, s, le), le)
  {
    if s != [] && !le(x, s[0]) {
      InsertSorted(x, s[1..], le);
      var r := Insert(x, s[1..], le);
      forall i | 0 <= i < |r| ensures le(s[0], r[i]) {
        assert r[i] in multiset(r);
        assert r[i] == x || r[i] in multiset(s[1..]);
        if r[i] != x {
          var j :| 0 <= j < |s[1..]| && s[1..][j] == r[i];
          assert s[j + 1] == r[i];
        }
      }
    }
  }

  /** The sort orders its output. */
  lemma {:induction false} SortBySorted<T(!new)>(s: seq<T>, le: (T, T) -> bool)
    requires TotalPreorder(le)
    ensures SortedBy(SortBy(s, le), le)
  {
    if s != [] {
      SortBySorted(s[1..], le);
      InsertSorted(s[0], SortBy(s[1..], le), le);
    }
  }

  lemma {:induction false} LevelAppend<T>(a: seq<T>, b: seq<T>, k: T, le: (T, T) -> bool)
    ensures Level(a + b, k, le) == Level(a, k, le) + Level(b, k, le)
  {
    if a != [] {
      assert (a + b)[1..] == a[1..] + b;
      LevelAppend(a[1..], b, k, le);
    } else {
      assert a + b == b;
    }
  }

  lemma {:induction false} LevelInsert<T(!new)>(x: T, s: seq<T>, k: T, le: (T, T) -> bool)
    requires TotalPreorder(le) && SortedBy(s, le)
    ensures Level(Insert(x, s, le), k, le) == Level([x], k, le) + Level(s, k, le)
  {
    if s == [] || le(x, s[0]) {
      LevelAppend([x], s, k, le);
    } else {
      var head := Level([s[0]], k, le);
      var mid := Level([x], k, le);
      LevelInsert(x, s[1..], k, le);
      LevelAppend([s[0]], Insert(x, s[1..], le), k, le);
      LevelAppend([s[0]], s[1..], k, le);
      assert [s[0]] + s[1..] == s;
      assert head == [] || mid == [];
    }
  }

  /** Stability: among elements ranked level with any `k`, the input order survives. */
  lemma {:induction false} SortByStable<T(!new)>(s: seq<T>, k: T, le: (T, T) -> bool)
    requires TotalPreorder(le)
    ensures Level(SortBy(s, le), k, le) == Level(s, k, le)
  {
    if s != [] {
      SortByStable(s[1..], k, le);
      SortBySorted(s[1..], le);
      LevelInsert(s[0], SortBy(s[1..], le), k, le);
      LevelAppend([s[0]], s[1..], k, le);
      assert [s[0]] + s[1..] == s;
    }
  }
}
