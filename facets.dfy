/**
 * The option lists of the sidebar filters: `sorted(df[col].dropna().unique())`,
 * the year slider's bounds `min`/`max` of that list, and the multiselect
 * default `options[:5]`.
 */
module Facets {
  import opened Wrappers
  import opened Orders
  import opened Frames
  import opened Tables

  /** Every element is `lt`-smaller than every later one. */
  predicate StrictlyAscending<T(!new)>(s: seq<T>, lt: (T, T) -> bool) {
    forall i, j :: 0 <= i < j < |s| ==> lt(s[i], s[j])
  }

  /** Insert `x` into a strictly ascending list unless it is already there. */
  function InsertUnique<T(==,!new)>(x: T, s: seq<T>, lt: (T, T) -> bool): (r: seq<T>)
    requires StrictTotalOrder(lt) && StrictlyAscending(s, lt)
    ensures StrictlyAscending(r, lt)
    ensures forall y :: y in r <==> y == x || y in s
    ensures |r| <= |s| + 1
  {
    if s == [] then [x]
    else if lt(x, s[0]) then
      assert forall j :: 0 <= j < |s| ==> lt(x, s[j]) by {
        forall j | 0 <= j < |s| ensures lt(x, s[j]) {
          if j > 0 { assert lt(s[0], s[j]); }
        }
      }
      [x] + s
    else if x == s[0] then s
    else
      var t := InsertUnique(x, s[1..], lt);
      assert s == [s[0]] + s[1..];
      assert forall y :: y in t ==> lt(s[0], y) by {
        forall y | y in t ensures lt(s[0], y) {
          if y != x {
            var j :| 0 <= j < |s[1..]| && s[1..][j] == y;
            assert s[j + 1] == y;
          }
        }
      }
      AscendingCons(s[0], t, lt);
      [s[0]] + t
  }

  lemma AscendingCons<T(!new)>(h: T, t: seq<T>, lt: (T, T) -> bool)
    requires StrictlyAscending(t, lt)
    requires forall y :: y in t ==> lt(h, y)
    ensures StrictlyAscending([h] + t, lt)
  {
    forall i, j | 0 <= i < j < |[h] + t| ensures lt(([h] + t)[i], ([h] + t)[j]) {
      assert ([h] + t)[j] == t[j - 1] && t[j - 1] in t;
      if i > 0 {
        assert ([h] + t)[i] == t[i - 1];
      }
    }
  }

  /**
   * `sorted(col.dropna().unique())`: the non-missing values of the column, each once,
   * in strictly ascending order.
   */
  function Distinct<T(==,!new)>(col: seq<Option<T>>, lt: (T, T) -> bool): (r: seq<T>)
    requires StrictTotalOrder(lt)
    ensures StrictlyAscending(r, lt)
    ensures forall x :: x in r <==> Some(x) in col
    ensures |r| <= |col|
  {
    if col == [] then []
    else
      var rest := Distinct(col[1..], lt);
      assert col == [col[0]] + col[1..];
      match col[0]
      case None => rest
      case Some(x) => InsertUnique(x, rest, lt)
  }

  /** A strictly ascending list has no repeated element. */
  lemma AscendingNoDups<T(!new)>(s: seq<T>, lt: (T, T) -> bool)
    requires StrictTotalOrder(lt) && StrictlyAscending(s, lt)
    ensures NoDups(s)
  {
    forall i, j | 0 <= i < j < |s| ensures s[i] != s[j] {
      assert lt(s[i], s[j]);
    }
  }

  /** The sorted option list is the only strictly ascending enumeration of its values. */
  lemma {:induction false} AscendingUnique<T(!new)>(a: seq<T>, b: seq<T>, lt: (T, T) -> bool)
    requires StrictTotalOrder(lt)
    requires StrictlyAscending(a, lt) && StrictlyAscending(b, lt)
    requires forall x :: x in a <==> x in b
    ensures a == b
  {
    assert a != [] ==> a[0] in b;
    assert b != [] ==> b[0] in a;
    if a != [] && b != [] {
      assert a[0] == b[0];
      AscendingNoDups(a, lt);
      AscendingNoDups(b, lt);
      assert a == [a[0]] + a[1..] && b == [b[0]] + b[1..];
      forall x ensures x in a[1..] <==> x in b[1..] {
        if x in a[1..] {
          assert x != a[0];
          assert x in b;
        }
        if x in b[1..] {
          assert x != b[0];
          assert x in a;
        }
      }
      AscendingUnique(a[1..], b[1..], lt);
    }
  }

  /** The option list of a text column (artist, `Album`, genre). */
  function Options(col: seq<Option<string>>): (r: seq<string>)
    ensures StrictlyAscending(r, StrLess)
    ensures NoDups(r)
    ensures forall x :: x in r <==> Some(x) in col
    ensures |r| == NUnique(col)
  {
    StrLessIsStrictTotalOrder();
    var r := Distinct(col, StrLess);
    AscendingNoDups(r, StrLess);
    NoDupsCard(r);
    assert (set x | x in r) == Present(col);
    r
  }

  /** The option list of the `release_year` column. */
  function Years(col: seq<Option<int>>): (r: seq<int>)
    ensures StrictlyAscending(r, IntLess)
    ensures forall y :: y in r <==> Some(y) in col
  {
    IntLessIsStrictTotalOrder();
    Distinct(col, IntLess)
  }

  /**
   * `ano_min, ano_max = min(anos), max(anos)`; `min` of an empty list raises, which is `None`.
   * Otherwise both bounds are years of the column and every year of the column lies between them.
   */
  function YearBounds(col: seq<Option<int>>): (b: Option<(int, int)>)
    ensures b.None? <==> forall o :: o in col ==> o.None?
    ensures b.Some? ==> Some(b.value.0) in col && Some(b.value.1) in col
    ensures b.Some? ==> forall y :: Some(y) in col ==> b.value.0 <= y <= b.value.1
  {
    var years := Years(col);
    if years == [] then
      None
    else
      assert years[0] in years && years[|years| - 1] in years;
      assert forall y :: Some(y) in col ==> years[0] <= y <= years[|years| - 1] by {
        forall y | Some(y) in col ensures years[0] <= y <= years[|years| - 1] {
          var i :| 0 <= i < |years| && years[i] == y;
          assert i == 0 || IntLess(years[0], years[i]);
          assert i == |years| - 1 || IntLess(years[i], years[|years| - 1]);
        }
      }
      Some((years[0], years[|years| - 1]))
  }

  /** How many options a multiselect starts with. */
  const DefaultCount := 5

  /** `options[:5]`: a prefix of the options of length `min(5, |options|)`. */
  function Defaults<T>(options: seq<T>): (d: seq<T>)
    ensures |d| == Min(DefaultCount, |options|)
    ensures d == options[..|d|]
    ensures forall x :: x in d ==> x in options
  {
    options[..Min(DefaultCount, |options|)]
  }

  /** On an ascending option list, the defaults are the smallest options: each precedes every option left out. */
  lemma DefaultsSmallest<T(!new)>(options: seq<T>, lt: (T, T) -> bool)
    requires StrictlyAscending(options, lt)
    ensures forall x, y :: x in Defaults(options) && y in options && y !in Defaults(options) ==> lt(x, y)
  {
    var d := Defaults(options);
    forall x, y | x in d && y in options && y !in d ensures lt(x, y) {
      var i :| 0 <= i < |d| && d[i] == x;
      var j :| 0 <= j < |options| && options[j] == y;
      assert options[i] == x;
    }
  }

  /** The sidebar's option lists for songs, and the slider's bounds. */
  datatype FacetIndex = FacetIndex(
    yearMin: int, yearMax: int,
    artists: seq<string>, albums: seq<string>, genres: seq<string>)

  /**
   * Lines 20 to 56 of the page: the four option lists; `None` when the table has no
   * release year, where `min` raises.
   */
  function BuildFacets(songs: seq<Song>): (f: Option<FacetIndex>)
    ensures f.None? <==> forall s :: s in songs ==> s.releaseYear.None?
    ensures f.Some? ==> f.value.yearMin <= f.value.yearMax
    ensures f.Some? ==> exists s :: s in songs && s.releaseYear == Some(f.value.yearMin)
    ensures f.Some? ==> exists s :: s in songs && s.releaseYear == Some(f.value.yearMax)
    ensures f.Some? ==> forall s :: s in songs && s.releaseYear.Some? ==>
              f.value.yearMin <= s.releaseYear.value <= f.value.yearMax
    ensures f.Some? ==> forall a :: a in f.value.artists <==> exists s :: s in songs && s.artist == Some(a)
    ensures f.Some? ==> forall a :: a in f.value.albums <==> exists s :: s in songs && s.album == Some(a)
    ensures f.Some? ==> forall g :: g in f.value.genres <==> exists s :: s in songs && s.genre == Some(g)
    ensures f.Some? ==> && StrictlyAscending(f.value.artists, StrLess)
                        && StrictlyAscending(f.value.albums, StrLess)
                        && StrictlyAscending(f.value.genres, StrLess)
  {
    var years := Column(songs, ReleaseYear);
    var artists := Column(songs, Artist);
    var albums := Column(songs, Album);
    var genres := Column(songs, Genre);
    match YearBounds(years)
    case None =>
      assert forall s :: s in songs ==> s.releaseYear.None? by {
        forall s | s in songs ensures s.releaseYear.None? {
          var i :| 0 <= i < |songs| && songs[i] == s;
          assert years[i] in years;
        }
      }
      None
    case Some((lo, hi)) =>
      forall s | s in songs && s.releaseYear.Some? ensures lo <= s.releaseYear.value <= hi {
        var i :| 0 <= i < |songs| && songs[i] == s;
        assert years[i] in years;
      }
      ColumnHas(songs, ReleaseYear);
      ColumnHas(songs, Artist);
      ColumnHas(songs, Album);
      ColumnHas(songs, Genre);
      Some(FacetIndex(lo, hi, Options(artists), Options(albums), Options(genres)))
  }

  lemma ColumnHas<R(!new), T(!new)>(rows: seq<R>, f: R -> Option<T>)
    ensures forall x :: Some(x) in Column(rows, f) <==> exists r :: r in rows && f(r) == Some(x)
  {
    var c := Column(rows, f);
    forall x ensures Some(x) in c <==> exists r :: r in rows && f(r) == Some(x) {
      if Some(x) in c {
        var i :| 0 <= i < |c| && c[i] == Some(x);
        assert rows[i] in rows;
      }
      if r :| r in rows && f(r) == Some(x) {
        var i :| 0 <= i < |rows| && rows[i] == r;
        assert c[i] == Some(x);
      }
    }
  }
}
