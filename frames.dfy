/**
 * The handful of pandas operations the dashboard pages use, over a table
 * modelled as a sequence of rows: a boolean mask `df[mask]`, a column,
 * `dropna().unique()` as a set, `nunique()`, `sort_values(ascending=False)`,
 * `sort_values(...).head(n)` and a column sum.
 */
module Frames {
  import opened Wrappers
  import opened Arith

  /** `df[mask]`: the rows satisfying `p`, in their original order. */
  function Where<T(!new)>(rows: seq<T>, p: T -> bool): (r: seq<T>)
    ensures |r| <= |rows|
    ensures forall x :: x in r <==> x in rows && p(x)
  {
    if rows == [] then []
    else (if p(rows[0]) then [rows[0]] else []) + Where(rows[1..], p)
  }

  /** `a` is obtained from `b` by deleting elements, keeping the order of the rest. */
  predicate IsSubseq<T(==,!new)>(a: seq<T>, b: seq<T>)
    decreases |b|
  {
    if a == [] then true
    else if b == [] then false
    else (a[0] == b[0] && IsSubseq(a[1..], b[1..])) || IsSubseq(a, b[1..])
  }

  /** A mask keeps rows in their original order. */
  lemma {:induction false} WhereIsSubseq<T(!new)>(rows: seq<T>, p: T -> bool)
    ensures IsSubseq(Where(rows, p), rows)
  {
    WhereIsMonotone(rows, p, x => true);
    WhereAll(rows, x => true);
  }

  lemma {:induction false} WhereAll<T(!new)>(rows: seq<T>, p: T -> bool)
    requires forall x :: x in rows ==> p(x)
    ensures Where(rows, p) == rows
  {
    if rows != [] {
      WhereAll(rows[1..], p);
    }
  }

  lemma {:induction false} WhereNone<T(!new)>(rows: seq<T>, p: T -> bool)
    requires forall x :: x in rows ==> !p(x)
    ensures Where(rows, p) == []
  {
    if rows != [] {
      WhereNone(rows[1..], p);
    }
  }

  /** A weaker mask keeps every row a stronger one keeps, in the same order. */
  lemma {:induction false} WhereIsMonotone<T(!new)>(rows: seq<T>, p: T -> bool, q: T -> bool)
    requires forall x :: x in rows && p(x) ==> q(x)
    ensures IsSubseq(Where(rows, p), Where(rows, q))
  {
    if rows != [] {
      var a, b := Where(rows, p), Where(rows, q);
      WhereIsMonotone(rows[1..], p, q);
      var a', b' := Where(rows[1..], p), Where(rows[1..], q);
      if p(rows[0]) {
        assert a == [rows[0]] + a' && b == [rows[0]] + b';
        assert a[1..] == a' && b[1..] == b';
      } else if q(rows[0]) {
        assert a == a' && b == [rows[0]] + b' && b[1..] == b';
        if a' != [] {
          assert a'[0] in a';
        }
      } else {
        assert a == a' && b == b';
      }
    }
  }

  /** Masking twice with the same mask changes nothing. */
  lemma {:induction false} WhereIdempotent<T(!new)>(rows: seq<T>, p: T -> bool)
    ensures Where(Where(rows, p), p) == Where(rows, p)
  {
    WhereAll(Where(rows, p), p);
  }

  /** A row occurs in the result exactly as often as in the table when it passes the mask, otherwise never. */
  lemma {:induction false} WhereMultiplicity<T(!new)>(rows: seq<T>, p: T -> bool, x: T)
    ensures multiset(Where(rows, p))[x] == if p(x) then multiset(rows)[x] else 0
  {
    if rows != [] {
      WhereMultiplicity(rows[1..], p, x);
      assert rows == [rows[0]] + rows[1..];
    }
  }

  /** Two masks that agree on every row select the same rows. */
  lemma {:induction false} WhereExtensional<T(!new)>(rows: seq<T>, p: T -> bool, q: T -> bool)
    requires forall x :: x in rows ==> p(x) == q(x)
    ensures Where(rows, p) == Where(rows, q)
  {
    if rows != [] {
      WhereExtensional(rows[1..], p, q);
    }
  }

  /** Counting rows under a disjunction of two disjoint masks adds the two counts. */
  lemma {:induction false} WhereDisjointCount<T(!new)>(rows: seq<T>, p: T -> bool, q: T -> bool, pq: T -> bool)
    requires forall x :: pq(x) == (p(x) || q(x))
    requires forall x :: !(p(x) && q(x))
    ensures |Where(rows, pq)| == |Where(rows, p)| + |Where(rows, q)|
  {
    if rows != [] {
      WhereDisjointCount(rows[1..], p, q, pq);
    }
  }

  /** `df[col]`: one cell per row. */
  function Column<R, T>(rows: seq<R>, f: R -> T): (c: seq<T>)
    ensures |c| == |rows|
    ensures forall i :: 0 <= i < |rows| ==> c[i] == f(rows[i])
  {
    seq(|rows|, i requires 0 <= i < |rows| => f(rows[i]))
  }

  /** `col.dropna().unique()` as a set. */
  function Present<T(==,!new)>(col: seq<Option<T>>): (s: set<T>)
    ensures forall x :: x in s <==> Some(x) in col
  {
    set o | o in col && o.Some? :: o.value
  }

  /** `col.nunique()`: the number of distinct non-missing values. */
  function NUnique<T(==,!new)>(col: seq<Option<T>>): nat {
    |Present(col)|
  }

  lemma {:induction false} PresentBound<T(!new)>(col: seq<Option<T>>)
    ensures |Present(col)| <= |col|
  {
    if col != [] {
      var rest := Present(col[1..]);
      var head: set<T> := if col[0].Some? then {col[0].value} else {};
      assert col == [col[0]] + col[1..];
      assert Present(col) == head + rest;
      PresentBound(col[1..]);
    }
  }

  /** `nunique()` never exceeds the number of cells, and is positive once a cell is present. */
  lemma NUniqueBounds<T(!new)>(col: seq<Option<T>>)
    ensures NUnique(col) <= |col|
    ensures (exists i :: 0 <= i < |col| && col[i].Some?) ==> NUnique(col) >= 1
  {
    PresentBound(col);
    if i :| 0 <= i < |col| && col[i].Some? {
      assert col[i].value in Present(col);
    }
  }

  /** Elements pairwise different. */
  predicate NoDups<T(==,!new)>(s: seq<T>) {
    forall i, j :: 0 <= i < j < |s| ==> s[i] != s[j]
  }

  lemma {:induction false} NoDupsCard<T(!new)>(s: seq<T>)
    requires NoDups(s)
    ensures |set x | x in s| == |s|
  {
    if s != [] {
      NoDupsCard(s[1..]);
      assert s == [s[0]] + s[1..];
      assert (set x | x in s) == {s[0]} + (set x | x in s[1..]);
      assert s[0] !in s[1..];
    }
  }

  /** Non-increasing in `key`: the order `sort_values(key, ascending=False)` produces. */
  predicate NonIncreasing<T(!new)>(s: seq<T>, key: T -> int) {
    forall i, j :: 0 <= i < j < |s| ==> key(s[i]) >= key(s[j])
  }

  lemma NonIncreasingCons<T(!new)>(h: T, t: seq<T>, key: T -> int)
    requires NonIncreasing(t, key)
    requires forall y :: y in t ==> key(y) <= key(h)
    ensures NonIncreasing([h] + t, key)
  {
    forall i, j | 0 <= i < j < |[h] + t| ensures key(([h] + t)[i]) >= key(([h] + t)[j]) {
      if i > 0 {
        assert ([h] + t)[i] == t[i - 1] && ([h] + t)[j] == t[j - 1];
      } else {
        assert ([h] + t)[j] == t[j - 1] && t[j - 1] in t;
      }
    }
  }

  function InsertDesc<T(==,!new)>(x: T, s: seq<T>, key: T -> int): (r: seq<T>)
    requires NonIncreasing(s, key)
    ensures NonIncreasing(r, key)
    ensures |r| == |s| + 1
    ensures multiset(r) == multiset(s) + multiset{x}
  {
    if s == [] || key(x) >= key(s[0]) then
      NonIncreasingCons(x, s, key);
      [x] + s
    else
      var t := InsertDesc(x, s[1..], key);
      assert s == [s[0]] + s[1..];
      forall y | y in t ensures key(y) <= key(s[0]) {
        assert y in multiset(t);
        if y != x {
          var j :| 0 <= j < |s[1..]| && s[1..][j] == y;
          assert s[j + 1] == y;
        }
      }
      NonIncreasingCons(s[0], t, key);
      [s[0]] + t
  }

  /**
   * `sort_values(key, ascending=False)`: a permutation of the table, non-increasing in `key`.
   * The order among equal keys is not specified (pandas' default sort is not stable).
   */
  function SortDesc<T(==,!new)>(s: seq<T>, key: T -> int): (r: seq<T>)
    ensures NonIncreasing(r, key)
    ensures |r| == |s|
    ensures multiset(r) == multiset(s)
  {
    if s == [] then []
    else
      assert s == [s[0]] + s[1..];
      InsertDesc(s[0], SortDesc(s[1..], key), key)
  }

  /** Sorting keeps distinct rows distinct. */
  lemma {:induction false} SortDescNoDups<T(!new)>(s: seq<T>, key: T -> int)
    requires NoDups(s)
    ensures NoDups(SortDesc(s, key))
  {
    if s != [] {
      SortDescNoDups(s[1..], key);
      var t := SortDesc(s[1..], key);
      assert s[0] !in multiset(s[1..]);
      InsertDescNoDups(s[0], t, key);
    }
  }

  lemma {:induction false} InsertDescNoDups<T(!new)>(x: T, s: seq<T>, key: T -> int)
    requires NonIncreasing(s, key) && NoDups(s) && x !in s
    ensures NoDups(InsertDesc(x, s, key))
  {
    if s != [] && key(x) < key(s[0]) {
      InsertDescNoDups(x, s[1..], key);
      var t := InsertDesc(x, s[1..], key);
      assert s[0] !in multiset(t);
    }
  }

  /** The sum of a numeric column. */
  function SumBy<T(!new)>(s: seq<T>, key: T -> int): int {
    if s == [] then 0 else key(s[0]) + SumBy(s[1..], key)
  }

  lemma {:induction false} SumByInsertDesc<T(!new)>(x: T, s: seq<T>, key: T -> int)
    requires NonIncreasing(s, key)
    ensures SumBy(InsertDesc(x, s, key), key) == key(x) + SumBy(s, key)
  {
    if s != [] && key(x) < key(s[0]) {
      SumByInsertDesc(x, s[1..], key);
    }
  }

  /** Reordering by `sort_values` does not change a column sum. */
  lemma {:induction false} SumBySortDesc<T(!new)>(s: seq<T>, key: T -> int)
    ensures SumBy(SortDesc(s, key), key) == SumBy(s, key)
  {
    if s != [] {
      SumBySortDesc(s[1..], key);
      SumByInsertDesc(s[0], SortDesc(s[1..], key), key);
    }
  }

  /** Every element at least `lo` and at most `hi` bounds the sum by `lo * |s|` and `hi * |s|`. */
  lemma {:induction false} SumByBounds<T(!new)>(s: seq<T>, key: T -> int, lo: int, hi: int)
    requires forall x :: x in s ==> lo <= key(x) <= hi
    ensures lo * |s| <= SumBy(s, key) <= hi * |s|
  {
    if s != [] {
      assert s[0] in s;
      SumByBounds(s[1..], key, lo, hi);
      MulSucc(lo, |s[1..]|);
      MulSucc(hi, |s[1..]|);
    }
  }

  /** A prefix of a non-increasing sequence is non-increasing, and what it leaves out has no larger key than its last row. */
  lemma PrefixDominates<T(!new)>(sorted: seq<T>, k: nat, key: T -> int)
    requires NonIncreasing(sorted, key) && k <= |sorted|
    ensures NonIncreasing(sorted[..k], key)
    ensures multiset(sorted[..k]) <= multiset(sorted)
    ensures k > 0 ==> forall x :: x in multiset(sorted) - multiset(sorted[..k]) ==> key(x) <= key(sorted[k - 1])
  {
    var rest := sorted[k..];
    assert sorted == sorted[..k] + rest;
    assert multiset(sorted) - multiset(sorted[..k]) == multiset(rest);
    forall x | k > 0 && x in multiset(rest) ensures key(x) <= key(sorted[k - 1]) {
      var j :| 0 <= j < |rest| && rest[j] == x;
      assert sorted[k + j] == x;
    }
  }

  /** The first `k` rows of a sorted copy of `s` form a top-`k` selection of `s`. */
  lemma TopKPrefix<T(!new)>(s: seq<T>, sorted: seq<T>, k: nat, key: T -> int)
    requires NonIncreasing(sorted, key) && multiset(sorted) == multiset(s) && k <= |sorted|
    ensures NonIncreasing(sorted[..k], key)
    ensures multiset(sorted[..k]) <= multiset(s)
    ensures sorted[..k] != [] ==> forall x :: x in multiset(s) - multiset(sorted[..k]) ==> key(x) <= key(sorted[..k][|sorted[..k]| - 1])
  {
    PrefixDominates(sorted, k, key);
    if k > 0 {
      assert sorted[..k][k - 1] == sorted[k - 1];
    }
  }

  /**
   * `sort_values(key, ascending=False).head(n)`: at most `n` rows of the table, non-increasing
   * in `key`, and no row left out has a larger key than the smallest one kept.
   */
  function TopK<T(==,!new)>(s: seq<T>, key: T -> int, n: nat): (r: seq<T>)
    ensures |r| == Min(n, |s|)
    ensures NonIncreasing(r, key)
    ensures multiset(r) <= multiset(s)
    ensures r != [] ==> forall x :: x in multiset(s) - multiset(r) ==> key(x) <= key(r[|r| - 1])
  {
    var sorted := SortDesc(s, key);
    var k := Min(n, |s|);
    TopKPrefix(s, sorted, k, key);
    sorted[..k]
  }
}
