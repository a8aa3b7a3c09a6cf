/**
 * The Popularidade page (`Inferify/pages/Popularidade.py`): the popularity table
 * restricted to the selected artists, its two top-10 charts, the full ranking
 * laid out on a five-column grid, and the mean popularity per `tipo`.
 */
module Popularidade {
  import opened Wrappers
  import opened Arith
  import opened Orders
  import opened Frames
  import opened Tables
  import opened Facets
  import opened SongFilter
  import opened SideTables
  import Home

  /** Line 69: the popularity rows of the artists chosen in the sidebar, in table order. */
  function Restricted(pop: seq<PopRow>, sel: Selection): (r: seq<PopRow>)
    ensures forall p :: p in r <==> p in pop && p.nome in sel.artists
    ensures IsSubseq(r, pop)
  {
    PopularityOf(pop, sel.artists)
  }

  /**
   * The restriction reads only the artist set: the year range, albums and genres (and so
   * `df_filtrado`, which this page computes but never uses) have no effect on it.
   */
  lemma RestrictedIgnoresSongFilter(pop: seq<PopRow>, sel: Selection, other: Selection)
    requires sel.artists == other.artists
    ensures Restricted(pop, sel) == Restricted(pop, other)
  {
  }

  /**
   * The Home page keeps only artists that still have a song in the view, a subset of the
   * selected ones, so its table is a subsequence of this page's.
   */
  lemma HomePopularityWithinRestricted(songs: seq<Song>, pop: seq<PopRow>, sel: Selection)
    ensures IsSubseq(Home.HomePopularity(songs, pop, sel), Restricted(pop, sel))
  {
    var artists := Home.ArtistsOf(Filter(songs, sel));
    assert artists <= sel.artists by {
      forall a | a in artists ensures a in sel.artists {
        var s :| s in Filter(songs, sel) && s.artist == Some(a);
        assert Admits(sel, s);
      }
    }
    PopularityOfMonotone(pop, artists, sel.artists);
  }

  /** How many bars a top chart shows. */
  const TopCount := 10

  /** Line 78: the ten most popular restricted rows. */
  function TopByPopularity(rows: seq<PopRow>): (r: seq<PopRow>)
    ensures |r| == Min(TopCount, |rows|)
    ensures NonIncreasing(r, Popularity)
    ensures multiset(r) <= multiset(rows)
    ensures r != [] ==> forall p :: p in multiset(rows) - multiset(r) ==> p.popularidade <= r[|r| - 1].popularidade
  {
    TopK(rows, Popularity, TopCount)
  }

  /** Line 84: the ten restricted rows with most followers. */
  function TopByFollowers(rows: seq<PopRow>): (r: seq<PopRow>)
    ensures |r| == Min(TopCount, |rows|)
    ensures NonIncreasing(r, Followers)
    ensures multiset(r) <= multiset(rows)
    ensures r != [] ==> forall p :: p in multiset(rows) - multiset(r) ==> p.seguidores <= r[|r| - 1].seguidores
  {
    TopK(rows, Followers, TopCount)
  }

  /** Line 105: every restricted row once, most popular first. */
  function Ranking(rows: seq<PopRow>): (r: seq<PopRow>)
    ensures multiset(r) == multiset(rows)
    ensures NonIncreasing(r, Popularity)
  {
    SortDesc(rows, Popularity)
  }

  /** The number of columns of the ranking grid, `st.columns(5)`. */
  const GridWidth := 5

  /** Line 108: the column the `i`-th ranked row is drawn in. */
  function GridColumn(i: nat): (c: nat)
    ensures c < GridWidth
    ensures (i - c) % GridWidth == 0
  {
    i % GridWidth
  }

  /** Lines 106 to 109: the loop over the ranking, appending row `i` to column `GridColumn(i)`. */
  function Layout(ranking: seq<PopRow>): (cols: seq<seq<PopRow>>)
    ensures |cols| == GridWidth
  {
    if ranking == [] then [[], [], [], [], []]
    else
      var n := |ranking| - 1;
      var cols := Layout(ranking[..n]);
      var c := GridColumn(n);
      cols[c := cols[c] + [ranking[n]]]
  }

  /**
   * Column `c` holds the ranked rows `c`, `c + 5`, `c + 10`, ... in ranking order, so it
   * receives `n / 5` rows, or one more when `c < n % 5`.
   */
  lemma {:induction false} LayoutColumns(ranking: seq<PopRow>, c: nat)
    requires c < GridWidth
    ensures |Layout(ranking)[c]| == |ranking| / GridWidth + (if c < |ranking| % GridWidth then 1 else 0)
    ensures forall j :: 0 <= j < |Layout(ranking)[c]| ==>
              GridWidth * j + c < |ranking| && Layout(ranking)[c][j] == ranking[GridWidth * j + c]
  {
    if ranking != [] {
      var n := |ranking| - 1;
      var prev := ranking[..n];
      LayoutColumns(prev, c);
      var col := Layout(ranking)[c];
      ColumnCountStep(n, c);
      if GridColumn(n) == c {
        assert col == Layout(prev)[c] + [ranking[n]];
        forall j | 0 <= j < |col| ensures GridWidth * j + c < |ranking| && col[j] == ranking[GridWidth * j + c] {
          if j < |Layout(prev)[c]| {
            assert col[j] == Layout(prev)[c][j] == prev[GridWidth * j + c];
          }
        }
      } else {
        assert col == Layout(prev)[c];
        forall j | 0 <= j < |col| ensures GridWidth * j + c < |ranking| && col[j] == ranking[GridWidth * j + c] {
          assert col[j] == prev[GridWidth * j + c];
        }
      }
    }
  }

  /** Appending row `n` adds one to the row count of column `c` exactly when `n` lands in it. */
  lemma ColumnCountStep(n: nat, c: nat)
    requires c < GridWidth
    ensures (n + 1) / GridWidth + (if c < (n + 1) % GridWidth then 1 else 0)
            == n / GridWidth + (if c < n % GridWidth then 1 else 0) + (if n % GridWidth == c then 1 else 0)
    ensures n % GridWidth == c ==> n == GridWidth * (n / GridWidth) + c && n / GridWidth + (if c < n % GridWidth then 1 else 0) == n / GridWidth
  {
  }

  /** Each column of the grid receives the floor or the ceiling of a fifth of the ranking. */
  lemma LayoutBalanced(ranking: seq<PopRow>, c: nat)
    requires c < GridWidth
    ensures |ranking| / GridWidth <= |Layout(ranking)[c]| <= (|ranking| + GridWidth - 1) / GridWidth
  {
    LayoutColumns(ranking, c);
  }

  /**
   * numpy's `round` of `num / den` to an integer: the nearest integer, and the even one of
   * the two nearest when `num / den` lies exactly half-way.
   */
  function RoundHalfEven(num: int, den: int): (r: int)
    requires den > 0
    ensures -den <= 2 * (num - den * r) <= den
    ensures (2 * (num - den * r) == den || 2 * (num - den * r) == -den) ==> r % 2 == 0
  {
    var q, m := num / den, num % den;
    assert num == den * q + m && 0 <= m < den;
    if 2 * m < den then q
    else if 2 * m > den then q + 1
    else if q % 2 == 0 then q
    else q + 1
  }

  /**
   * The linear heart of uniqueness: `pr` and `ph` stand for `den * r` and `den * h`, two
   * candidates that both satisfy the rounding properties and are separated as multiples are.
   */
  lemma UniqueCore(num: int, den: int, r: int, h: int, pr: int, ph: int)
    requires den > 0
    requires -den <= 2 * (num - pr) <= den
    requires (2 * (num - pr) == den || 2 * (num - pr) == -den) ==> r % 2 == 0
    requires -den <= 2 * (num - ph) <= den
    requires (2 * (num - ph) == den || 2 * (num - ph) == -den) ==> h % 2 == 0
    requires h < r ==> pr - ph >= den && (h + 1 < r ==> pr - ph >= 2 * den)
    requires r < h ==> ph - pr >= den && (r + 1 < h ==> ph - pr >= 2 * den)
    ensures r == h
  {
  }

  /** The two properties of `RoundHalfEven` leave no other choice. */
  lemma RoundHalfEvenUnique(num: int, den: int, r: int)
    requires den > 0
    requires -den <= 2 * (num - den * r) <= den
    requires (2 * (num - den * r) == den || 2 * (num - den * r) == -den) ==> r % 2 == 0
    ensures r == RoundHalfEven(num, den)
  {
    var h := RoundHalfEven(num, den);
    if h < r {
      MulGap(den, h, r);
    } else if r < h {
      MulGap(den, r, h);
    }
    UniqueCore(num, den, r, h, den * r, den * h);
  }

  /** A rounded mean of values between `lo` and `hi` stays between them. */
  lemma RoundedMeanBetween(num: int, den: int, lo: int, hi: int)
    requires den > 0 && lo * den <= num <= hi * den
    ensures lo <= RoundHalfEven(num, den) <= hi
  {
    var r := RoundHalfEven(num, den);
    if hi < r {
      MulGap(den, hi, r);
    }
    if r < lo {
      MulGap(den, r, lo);
    }
    BetweenCore(num, den, r, lo, hi, den * r, den * lo, den * hi);
  }

  /** The linear heart of `RoundedMeanBetween`, with `pr`, `pl` and `ph` standing for the multiples of `den`. */
  lemma BetweenCore(num: int, den: int, r: int, lo: int, hi: int, pr: int, pl: int, ph: int)
    requires den > 0 && pl <= num <= ph
    requires -den <= 2 * (num - pr) <= den
    requires hi < r ==> pr - ph >= den
    requires r < lo ==> pl - pr >= den
    ensures lo <= r <= hi
  {
  }

  function TipoIs(t: string): PopRow -> bool {
    (p: PopRow) => p.tipo == t
  }

  /** The rows of type `t`. */
  function TypeGroup(rows: seq<PopRow>, t: string): seq<PopRow> {
    Where(rows, TipoIs(t))
  }

  /**
   * `mean().round(0)` of one group: the exact mean `sum / count`, rounded half to even,
   * which lies between the group's smallest and largest popularity.
   */
  function GroupMean(g: seq<PopRow>): (m: int)
    requires g != []
    ensures -|g| <= 2 * (SumBy(g, Popularity) - |g| * m) <= |g|
    ensures (2 * (SumBy(g, Popularity) - |g| * m) == |g| || 2 * (SumBy(g, Popularity) - |g| * m) == -|g|) ==> m % 2 == 0
    ensures exists p :: p in g && p.popularidade <= m
    ensures exists p :: p in g && m <= p.popularidade
  {
    var lo := MinPopularity(g);
    var hi := MaxPopularity(g);
    SumByBounds(g, Popularity, lo.popularidade, hi.popularidade);
    RoundedMeanBetween(SumBy(g, Popularity), |g|, lo.popularidade, hi.popularidade);
    RoundHalfEven(SumBy(g, Popularity), |g|)
  }

  function MinPopularity(g: seq<PopRow>): (p: PopRow)
    requires g != []
    ensures p in g && forall q :: q in g ==> p.popularidade <= q.popularidade
  {
    if |g| == 1 then g[0]
    else
      var m := MinPopularity(g[1..]);
      assert forall q :: q in g ==> q == g[0] || q in g[1..];
      if g[0].popularidade <= m.popularidade then g[0] else m
  }

  function MaxPopularity(g: seq<PopRow>): (p: PopRow)
    requires g != []
    ensures p in g && forall q :: q in g ==> q.popularidade <= p.popularidade
  {
    if |g| == 1 then g[0]
    else
      var m := MaxPopularity(g[1..]);
      assert forall q :: q in g ==> q == g[0] || q in g[1..];
      if g[0].popularidade >= m.popularidade then g[0] else m
  }

  function EntryType(e: (string, int)): string {
    e.0
  }

  /** The rounded mean popularity of the rows of type `t`, a type some row has. */
  function TypeMean(rows: seq<PopRow>, t: string): (m: int)
    requires exists p :: p in rows && p.tipo == t
    ensures TypeGroup(rows, t) != [] && m == GroupMean(TypeGroup(rows, t))
  {
    var p :| p in rows && p.tipo == t;
    assert p in TypeGroup(rows, t);
    GroupMean(TypeGroup(rows, t))
  }

  /** The (type, mean) rows for the types `ts`, each of which occurs in `rows`. */
  function MeansOf(rows: seq<PopRow>, ts: seq<string>): (r: seq<(string, int)>)
    requires forall t :: t in ts ==> exists p :: p in rows && p.tipo == t
    ensures |r| == |ts|
    ensures forall i :: 0 <= i < |r| ==> r[i].0 == ts[i] && TypeGroup(rows, ts[i]) != [] && r[i].1 == GroupMean(TypeGroup(rows, ts[i]))
  {
    seq(|ts|, i requires 0 <= i < |ts| => assert ts[i] in ts; (ts[i], TypeMean(rows, ts[i])))
  }

  /**
   * Line 113: one row per distinct `tipo`, types ascending as `groupby` orders them, each
   * with its rounded mean popularity.
   */
  function MeanByType(rows: seq<PopRow>): (r: seq<(string, int)>)
    ensures StrictlyAscending(Column(r, EntryType), StrLess)
    ensures forall t :: t in Column(r, EntryType) <==> exists p :: p in rows && p.tipo == t
    ensures forall i :: 0 <= i < |r| ==>
              var g := TypeGroup(rows, r[i].0);
              && g != []
              && r[i].1 == GroupMean(g)
              && -|g| <= 2 * (SumBy(g, Popularity) - |g| * r[i].1) <= |g|
              && ((2 * (SumBy(g, Popularity) - |g| * r[i].1) == |g| || 2 * (SumBy(g, Popularity) - |g| * r[i].1) == -|g|) ==> r[i].1 % 2 == 0)
              && (exists p :: p in g && p.popularidade <= r[i].1)
              && (exists p :: p in g && r[i].1 <= p.popularidade)
  {
    var tipos := Column(rows, (p: PopRow) => Some(p.tipo));
    var ts := Options(tipos);
    ColumnHas(rows, (p: PopRow) => Some(p.tipo));
    var r := MeansOf(rows, ts);
    assert Column(r, EntryType) == ts;
    r
  }
}
