/** Rust's `slice::sort_by`, as far as its result goes: a stable sort by a
    comparison that is a total preorder. The file tree and the RSS feed both
    sort with it. The merge sort the standard library runs is not modelled; the
    result is given by insertion, which a stable sort's result is equal to. */
module Sorting {

  /** `le(a, b)`: `a` may come before `b` (`cmp` is not `Greater`). */
  ghost predicate TotalPreorder<T(!new)>(le: (T, T) -> bool) {
    (forall a, b :: le(a, b) || le(b, a)) &&
    (forall a, b, c :: le(a, b) && le(b, c) ==> le(a, c))
  }

  predicate SortedBy<T>(s: seq<T>, le: (T, T) -> bool) {
    forall i, j :: 0 <= i < j < |s| ==> le(s[i], s[j])
  }

  /** `x` goes after every element it is not smaller than. */
  function Insert<T>(sorted: seq<T>, x: T, le: (T, T) -> bool): seq<T>
    decreases |sorted|
  {
    if sorted == [] then [x]
    else if le(sorted[|sorted| - 1], x) then sorted + [x]
    else Insert(sorted[..|sorted| - 1], x, le) + [sorted[|sorted| - 1]]
  }

  function SortBy<T>(s: seq<T>, le: (T, T) -> bool): seq<T>
    decreases |s|
  {
    if s == [] then []
    else Insert(SortBy(s[..|s| - 1], le), s[|s| - 1], le)
  }

  /** The elements of `s` whose key is the key of `k`, in order. */
  function SameKey<T>(s: seq<T>, k: T, le: (T, T) -> bool): seq<T>
    decreases |s|
  {
    if s == [] then []
    else
      var x := s[|s| - 1];
      SameKey(s[..|s| - 1], k, le) + (if le(x, k) && le(k, x) then [x] else [])
  }

  lemma {:induction false} InsertPermutes<T>(sorted: seq<T>, x: T, le: (T, T) -> bool)
    ensures multiset(Insert(sorted, x, le)) == multiset(sorted) + multiset{x}
    decreases |sorted|
  {
    if sorted != [] && !le(sorted[|sorted| - 1], x) {
      var pre := sorted[..|sorted| - 1];
      InsertPermutes(pre, x, le);
      assert sorted == pre + [sorted[|sorted| - 1]];
    }
  }

  /** The inserted sequence is the old one with `x` put in somewhere. */
  lemma {:induction false} InsertShape<T>(sorted: seq<T>, x: T, le: (T, T) -> bool)
    ensures var r := Insert(sorted, x, le);
            |r| == |sorted| + 1 &&
            exists p :: 0 <= p <= |sorted| && r == sorted[..p] + [x] + sorted[p..]
    decreases |sorted|
  {
    var r := Insert(sorted, x, le);
    if sorted == [] {
      assert r == sorted[..0] + [x] + sorted[0..];
    } else if le(sorted[|sorted| - 1], x) {
      assert r == sorted[..|sorted|] + [x] + sorted[|sorted|..];
    } else {
      var n := |sorted| - 1;
      var pre := sorted[..n];
      InsertShape(pre, x, le);
      var p :| 0 <= p <= n && Insert(pre, x, le) == pre[..p] + [x] + pre[p..];
      assert sorted[..p] == pre[..p];
      assert sorted[p..] == pre[p..] + [sorted[n]];
      assert r == sorted[..p] + [x] + sorted[p..];
    }
  }

  lemma {:induction false} InsertSorted<T(!new)>(sorted: seq<T>, x: T, le: (T, T) -> bool)
    requires TotalPreorder(le) && SortedBy(sorted, le)
    ensures SortedBy(Insert(sorted, x, le), le)
    decreases |sorted|
  {
    if sorted != [] {
      var n := |sorted| - 1;
      var last := sorted[n];
      if le(last, x) {
        var r := sorted + [x];
        forall i, j | 0 <= i < j < |r| ensures le(r[i], r[j]) {
          if j == n + 1 && i < n {
            assert le(sorted[i], last);
          }
        }
      } else {
        var pre := sorted[..n];
        assert SortedBy(pre, le);
        InsertSorted(pre, x, le);
        var ins := Insert(pre, x, le);
        InsertShape(pre, x, le);
        var p :| 0 <= p <= n && ins == pre[..p] + [x] + pre[p..];
        assert le(x, last);
        forall y <- ins ensures le(y, last) {
          if y != x {
            assert y in pre;
            var i :| 0 <= i < n && pre[i] == y;
            assert le(sorted[i], sorted[n]);
          }
        }
        var r := ins + [last];
        forall i, j | 0 <= i < j < |r| ensures le(r[i], r[j]) {
          if j == |ins| {
            assert r[i] in ins;
          } else {
            assert r[i] == ins[i] && r[j] == ins[j];
          }
        }
      }
    }
  }

  /** Inserting `x` adds it to the end of its key's group. */
  lemma {:induction false} InsertSameKey<T(!new)>(sorted: seq<T>, x: T, k: T, le: (T, T) -> bool)
    requires TotalPreorder(le)
    ensures SameKey(Insert(sorted, x, le), k, le) ==
            SameKey(sorted, k, le) + (if le(x, k) && le(k, x) then [x] else [])
    decreases |sorted|
  {
    if sorted == [] {
      assert [x][..0] == [];
    } else {
      var n := |sorted| - 1;
      var last := sorted[n];
      var pre := sorted[..n];
      if le(last, x) {
        assert (sorted + [x])[..|sorted|] == sorted;
      } else {
        InsertSameKey(pre, x, k, le);
        var ins := Insert(pre, x, le);
        assert (ins + [last])[..|ins|] == ins;
        if le(x, k) && le(k, x) {
          assert !(le(last, k) && le(k, last));
        }
      }
    }
  }

  /** The result is sorted. */
  lemma {:induction false} SortBySorted<T(!new)>(s: seq<T>, le: (T, T) -> bool)
    requires TotalPreorder(le)
    ensures SortedBy(SortBy(s, le), le)
    decreases |s|
  {
    if s != [] {
      SortBySorted(s[..|s| - 1], le);
      InsertSorted(SortBy(s[..|s| - 1], le), s[|s| - 1], le);
    }
  }

  /** The result holds the same elements. */
  lemma {:induction false} SortByPermutes<T>(s: seq<T>, le: (T, T) -> bool)
    ensures multiset(SortBy(s, le)) == multiset(s)
    decreases |s|
  {
    if s != [] {
      var pre := s[..|s| - 1];
      SortByPermutes(pre, le);
      InsertPermutes(SortBy(pre, le), s[|s| - 1], le);
      assert s == pre + [s[|s| - 1]];
    }
  }

  /** The sort is stable: elements with the same key keep their order. */
  lemma {:induction false} SortByStable<T(!new)>(s: seq<T>, k: T, le: (T, T) -> bool)
    requires TotalPreorder(le)
    ensures SameKey(SortBy(s, le), k, le) == SameKey(s, k, le)
    decreases |s|
  {
    if s != [] {
      var pre := s[..|s| - 1];
      SortByStable(pre, k, le);
      InsertSameKey(SortBy(pre, le), s[|s| - 1], k, le);
    }
  }
}
