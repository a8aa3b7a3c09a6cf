/**
 * `df.groupby(key)[val].count()` and `df.groupby(key)[val].nunique()`, each
 * followed by `sort_values(val, ascending=False)`: one entry per non-missing
 * key, non-increasing in the statistic.
 */
module Groups {
  import opened Wrappers
  import opened Orders
  import opened Frames
  import opened Facets

  /** The rows of group `k`. */
  function Group<R(!new), K(==,!new)>(rows: seq<R>, key: R -> Option<K>, k: K): seq<R> {
    Where(rows, KeyIs(key, k))
  }

  function KeyIs<R, K(==)>(key: R -> Option<K>, k: K): R -> bool {
    r => key(r) == Some(k)
  }

  function KeyIsWithValue<R, K(==), V>(key: R -> Option<K>, val: R -> Option<V>, k: K): R -> bool {
    r => key(r) == Some(k) && val(r).Some?
  }

  function KeyInWithValue<R, K(==), V>(key: R -> Option<K>, val: R -> Option<V>, ks: seq<K>): R -> bool {
    r => key(r).Some? && key(r).value in ks && val(r).Some?
  }

  function HasKeyAndValue<R, K, V>(key: R -> Option<K>, val: R -> Option<V>): R -> bool {
    r => key(r).Some? && val(r).Some?
  }

  /** pandas `count()` of group `k`: its rows whose `val` is not missing. */
  function GroupCount<R(!new), K(==,!new), V>(rows: seq<R>, key: R -> Option<K>, val: R -> Option<V>, k: K): int {
    |Where(rows, KeyIsWithValue(key, val, k))|
  }

  /** pandas `nunique()` of group `k`: the distinct non-missing `val` in it. */
  function GroupNUnique<R(!new), K(==,!new), V(==,!new)>(rows: seq<R>, key: R -> Option<K>, val: R -> Option<V>, k: K): int {
    NUnique(Column(Group(rows, key, k), val))
  }

  function Stat<K>(e: (K, int)): int {
    e.1
  }

  function Tabulate<K>(ks: seq<K>, stat: K -> int): (t: seq<(K, int)>)
    ensures |t| == |ks|
    ensures forall i :: 0 <= i < |ks| ==> t[i] == (ks[i], stat(ks[i]))
  {
    seq(|ks|, i requires 0 <= i < |ks| => (ks[i], stat(ks[i])))
  }

  /**
   * The grouped table: its keys are exactly the non-missing keys of `rows`, each once; the
   * entry of key `k` carries `stat(k)`; entries are non-increasing in the statistic.
   */
  ghost predicate IsGroupTable<R(!new), K(!new)>(t: seq<(K, int)>, rows: seq<R>, key: R -> Option<K>, stat: K -> int) {
    && NonIncreasing(t, Stat)
    && (forall i :: 0 <= i < |t| ==> t[i].1 == stat(t[i].0))
    && (forall i, j :: 0 <= i < j < |t| ==> t[i].0 != t[j].0)
    && (forall k :: (exists r :: r in rows && key(r) == Some(k)) <==> (exists i :: 0 <= i < |t| && t[i].0 == k))
  }

  /** `groupby(key)` (keys ascending) with a statistic per group, then `sort_values(ascending=False)`. */
  function Aggregate<R(!new), K(==,!new)>(rows: seq<R>, key: R -> Option<K>, lt: (K, K) -> bool, stat: K -> int): (t: seq<(K, int)>)
    requires StrictTotalOrder(lt)
    ensures IsGroupTable(t, rows, key, stat)
  {
    var ks := Distinct(Column(rows, key), lt);
    var table := Tabulate(ks, stat);
    var t := SortDesc(table, Stat);
    ColumnHas(rows, key);
    AscendingNoDups(ks, lt);
    assert NoDups(table);
    SortDescNoDups(table, Stat);
    SortedTableEntries(table, t, rows, key, stat);
    SortedTableCovers(ks, table, t, rows, key, stat);
    t
  }

  /** Every entry of the sorted table comes from the tabulated keys. */
  lemma SortedTableEntries<R(!new), K(!new)>(table: seq<(K, int)>, t: seq<(K, int)>, rows: seq<R>, key: R -> Option<K>, stat: K -> int)
    requires multiset(t) == multiset(table)
    requires forall e :: e in table ==> e.1 == stat(e.0) && Some(e.0) in Column(rows, key)
    ensures forall i :: 0 <= i < |t| ==> t[i].1 == stat(t[i].0) && Some(t[i].0) in Column(rows, key)
  {
    forall i | 0 <= i < |t| ensures t[i].1 == stat(t[i].0) && Some(t[i].0) in Column(rows, key) {
      assert t[i] in multiset(table);
    }
  }

  /** Every key present in the rows has an entry in the sorted table. */
  lemma SortedTableCovers<R(!new), K(!new)>(ks: seq<K>, table: seq<(K, int)>, t: seq<(K, int)>, rows: seq<R>, key: R -> Option<K>, stat: K -> int)
    requires multiset(t) == multiset(table)
    requires table == Tabulate(ks, stat)
    requires forall k :: Some(k) in Column(rows, key) ==> k in ks
    ensures forall k :: Some(k) in Column(rows, key) ==> exists i :: 0 <= i < |t| && t[i].0 == k
  {
    forall k | Some(k) in Column(rows, key) ensures exists i :: 0 <= i < |t| && t[i].0 == k {
      var j :| 0 <= j < |ks| && ks[j] == k;
      assert table[j] in multiset(t);
      var i :| 0 <= i < |t| && t[i] == table[j];
    }
  }

  /** `groupby(key)[val].count()` sorted by the count, descending. */
  function CountBy<R(!new), K(==,!new), V>(rows: seq<R>, key: R -> Option<K>, val: R -> Option<V>, lt: (K, K) -> bool): (t: seq<(K, int)>)
    requires StrictTotalOrder(lt)
    ensures IsGroupTable(t, rows, key, k => GroupCount(rows, key, val, k))
  {
    Aggregate(rows, key, lt, k => GroupCount(rows, key, val, k))
  }

  /** `groupby(key)[val].nunique()` sorted by the count, descending. */
  function NUniqueBy<R(!new), K(==,!new), V(==,!new)>(rows: seq<R>, key: R -> Option<K>, val: R -> Option<V>, lt: (K, K) -> bool): (t: seq<(K, int)>)
    requires StrictTotalOrder(lt)
    ensures IsGroupTable(t, rows, key, k => GroupNUnique(rows, key, val, k))
  {
    Aggregate(rows, key, lt, k => GroupNUnique(rows, key, val, k))
  }

  /** Summing the per-key counts over distinct keys counts the rows whose key is one of them. */
  lemma {:induction false} TabulatedCountSum<R(!new), K(!new), V>(rows: seq<R>, key: R -> Option<K>, val: R -> Option<V>, ks: seq<K>)
    requires NoDups(ks)
    ensures SumBy(Tabulate(ks, k => GroupCount(rows, key, val, k)), Stat) == |Where(rows, KeyInWithValue(key, val, ks))|
  {
    var stat := k => GroupCount(rows, key, val, k);
    var t := Tabulate(ks, stat);
    if ks == [] {
      WhereNone(rows, KeyInWithValue(key, val, ks));
    } else {
      var rest := ks[1..];
      assert t[1..] == Tabulate(rest, stat);
      assert ks[0] !in rest;
      TabulatedCountSum(rows, key, val, rest);
      WhereDisjointCount(rows, KeyIsWithValue(key, val, ks[0]), KeyInWithValue(key, val, rest), KeyInWithValue(key, val, ks));
    }
  }

  /** The counts of a `count()` table add up to the rows whose key and value are both present. */
  lemma CountBySum<R(!new), K(!new), V>(rows: seq<R>, key: R -> Option<K>, val: R -> Option<V>, lt: (K, K) -> bool)
    requires StrictTotalOrder(lt)
    ensures SumBy(CountBy(rows, key, val, lt), Stat) == |Where(rows, HasKeyAndValue(key, val))|
  {
    var stat := k => GroupCount(rows, key, val, k);
    var ks := Distinct(Column(rows, key), lt);
    AscendingNoDups(ks, lt);
    SumBySortDesc(Tabulate(ks, stat), Stat);
    TabulatedCountSum(rows, key, val, ks);
    ColumnHas(rows, key);
    WhereExtensional(rows, KeyInWithValue(key, val, ks), HasKeyAndValue(key, val));
  }

  /**
   * A `nunique()` entry is at most the size of its group, and at least one when some row of
   * the group has a value.
   */
  lemma GroupNUniqueBounds<R(!new), K(!new), V(!new)>(rows: seq<R>, key: R -> Option<K>, val: R -> Option<V>, k: K)
    ensures 0 <= GroupNUnique(rows, key, val, k) <= |Group(rows, key, k)|
    ensures (exists r :: r in rows && key(r) == Some(k) && val(r).Some?) ==> GroupNUnique(rows, key, val, k) >= 1
  {
    var g := Group(rows, key, k);
    var c := Column(g, val);
    NUniqueBounds(c);
    if r :| r in rows && key(r) == Some(k) && val(r).Some? {
      assert r in g;
      var i :| 0 <= i < |g| && g[i] == r;
      assert c[i].Some?;
    }
  }

  /**
   * Every entry of a `nunique()` table is at most its group's size; when no row with a key
   * misses its value, every entry is at least one.
   */
  lemma NUniqueTableBounds<R(!new), K(!new), V(!new)>(t: seq<(K, int)>, rows: seq<R>, key: R -> Option<K>, val: R -> Option<V>)
    requires IsGroupTable(t, rows, key, k => GroupNUnique(rows, key, val, k))
    ensures forall i :: 0 <= i < |t| ==> 0 <= t[i].1 <= |Group(rows, key, t[i].0)|
    ensures (forall r :: r in rows && key(r).Some? ==> val(r).Some?) ==> forall i :: 0 <= i < |t| ==> t[i].1 >= 1
  {
    forall i | 0 <= i < |t| ensures 0 <= t[i].1 <= |Group(rows, key, t[i].0)|
      && ((forall r :: r in rows && key(r).Some? ==> val(r).Some?) ==> t[i].1 >= 1)
    {
      GroupNUniqueBounds(rows, key, val, t[i].0);
      assert exists j :: 0 <= j < |t| && t[j].0 == t[i].0;
    }
  }
}
