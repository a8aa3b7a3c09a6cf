/**
 * The Home page (`Inferify/Home.py`): the filtered songs, the side tables
 * restricted to the artists left in them, the three KPI metrics and the four
 * grouped bar charts' tables.
 */
module Home {
  import opened Wrappers
  import opened Orders
  import opened Frames
  import opened Tables
  import opened SongFilter
  import opened SideTables
  import opened Groups

  /** `df_filtrado['artist'].unique()`: the artists that still have a song in the view. */
  function ArtistsOf(view: seq<Song>): (a: set<string>)
    ensures forall x :: x in a <==> exists s :: s in view && s.artist == Some(x)
  {
    Facets.ColumnHas(view, Artist);
    Present(Column(view, Artist))
  }

  /** `df_filtrado['Album'].unique()`: the albums named in the view. */
  function AlbumsOf(view: seq<Song>): (a: set<string>)
    ensures forall x :: x in a <==> exists s :: s in view && s.album == Some(x)
  {
    Facets.ColumnHas(view, Album);
    Present(Column(view, Album))
  }

  /** Lines 68 to 70: the popularity rows of the artists that have a song in the filtered view. */
  function HomePopularity(songs: seq<Song>, pop: seq<PopRow>, sel: Selection): (r: seq<PopRow>)
    ensures forall p :: p in r <==> p in pop && exists s :: s in Filter(songs, sel) && s.artist == Some(p.nome)
    ensures IsSubseq(r, pop)
  {
    PopularityOf(pop, ArtistsOf(Filter(songs, sel)))
  }

  /** The information row names the song's artist, as `nome` or as `banda`. */
  predicate InfoMatches(i: InfoRow, s: Song) {
    s.artist == Some(i.nome) || (i.banda.Some? && s.artist == i.banda)
  }

  /** Lines 72 to 75: the information rows whose `nome` or `banda` has a song in the filtered view. */
  function HomeInfo(songs: seq<Song>, info: seq<InfoRow>, sel: Selection): (r: seq<InfoRow>)
    ensures forall i :: i in r <==> i in info && exists s :: s in Filter(songs, sel) && InfoMatches(i, s)
    ensures IsSubseq(r, info)
  {
    var artists := ArtistsOf(Filter(songs, sel));
    var r := InfoOf(info, artists);
    assert forall i :: i in r <==> i in info && (i.nome in artists || IsIn(i.banda, artists));
    r
  }

  /** The three metrics of lines 84 to 86. */
  datatype Kpis = Kpis(artists: int, songs: int, albums: int)

  /**
   * `nunique` of artists (0 on an empty view), the number of songs and `nunique` of albums.
   * The guard on the empty view agrees with `nunique`, since an empty view has no artist.
   */
  function Metrics(view: seq<Song>): (k: Kpis)
    ensures k.songs == |view|
    ensures k.artists == |ArtistsOf(view)|
    ensures k.albums == |AlbumsOf(view)|
    ensures 0 <= k.artists <= k.songs && 0 <= k.albums <= k.songs
    ensures view == [] ==> k.artists == 0 && k.albums == 0
  {
    NUniqueBounds(Column(view, Artist));
    NUniqueBounds(Column(view, Album));
    Kpis(if view == [] then 0 else NUnique(Column(view, Artist)), |view|, NUnique(Column(view, Album)))
  }

  /** On a filtered view there is no artist and no album exactly when there is no song. */
  lemma FilteredMetrics(songs: seq<Song>, sel: Selection)
    ensures var k := Metrics(Filter(songs, sel));
            (k.artists == 0 <==> k.songs == 0) && (k.albums == 0 <==> k.songs == 0)
  {
    var view := Filter(songs, sel);
    if view != [] {
      assert view[0] in view;
      NUniqueBounds(Column(view, Artist));
      NUniqueBounds(Column(view, Album));
      assert Column(view, Artist)[0].Some? && Column(view, Album)[0].Some?;
    }
  }

  /** Line 98: titles per genre, by count descending; the counts add up to the songs with a genre and a title. */
  function TitlesPerGenre(view: seq<Song>): (t: seq<(string, int)>)
    ensures IsGroupTable(t, view, Genre, g => GroupCount(view, Genre, Title, g))
    ensures SumBy(t, Stat) == |Where(view, HasKeyAndValue(Genre, Title))|
  {
    StrLessIsStrictTotalOrder();
    CountBySum(view, Genre, Title, StrLess);
    CountBy(view, Genre, Title, StrLess)
  }

  /** In a filtered view every song has a genre, so the counts add up to the songs that have a title. */
  lemma FilteredTitlesPerGenreSum(songs: seq<Song>, sel: Selection)
    ensures SumBy(TitlesPerGenre(Filter(songs, sel)), Stat) == |Where(Filter(songs, sel), (s: Song) => s.title.Some?)|
  {
    var view := Filter(songs, sel);
    forall x | x in view ensures HasKeyAndValue(Genre, Title)(x) == x.title.Some? {
      assert Admits(sel, x);
      assert HasKeyAndValue(Genre, Title)(x) == (Genre(x).Some? && Title(x).Some?);
    }
    WhereExtensional(view, HasKeyAndValue(Genre, Title), (s: Song) => s.title.Some?);
  }

  /** Line 104: distinct genres per artist, by count descending. */
  function GenresPerArtist(view: seq<Song>): (t: seq<(string, int)>)
    ensures IsGroupTable(t, view, Artist, a => GroupNUnique(view, Artist, Genre, a))
    ensures forall i :: 0 <= i < |t| ==> 0 <= t[i].1 <= |Group(view, Artist, t[i].0)|
  {
    StrLessIsStrictTotalOrder();
    var t := NUniqueBy(view, Artist, Genre, StrLess);
    NUniqueTableBounds(t, view, Artist, Genre);
    t
  }

  /** Line 110: distinct albums per artist, by count descending. */
  function AlbumsPerArtist(view: seq<Song>): (t: seq<(string, int)>)
    ensures IsGroupTable(t, view, Artist, a => GroupNUnique(view, Artist, Album, a))
    ensures forall i :: 0 <= i < |t| ==> 0 <= t[i].1 <= |Group(view, Artist, t[i].0)|
  {
    StrLessIsStrictTotalOrder();
    var t := NUniqueBy(view, Artist, Album, StrLess);
    NUniqueTableBounds(t, view, Artist, Album);
    t
  }

  /** Line 116: distinct albums per release year, by count descending. */
  function AlbumsPerYear(view: seq<Song>): (t: seq<(int, int)>)
    ensures IsGroupTable(t, view, ReleaseYear, y => GroupNUnique(view, ReleaseYear, Album, y))
    ensures forall i :: 0 <= i < |t| ==> 0 <= t[i].1 <= |Group(view, ReleaseYear, t[i].0)|
  {
    IntLessIsStrictTotalOrder();
    var t := NUniqueBy(view, ReleaseYear, Album, IntLess);
    NUniqueTableBounds(t, view, ReleaseYear, Album);
    t
  }

  /** In a filtered view every song has an artist, a genre, an album and a year, so every `nunique` is at least one. */
  lemma FilteredNUniquePositive(songs: seq<Song>, sel: Selection)
    ensures var view := Filter(songs, sel);
            && (forall i :: 0 <= i < |GenresPerArtist(view)| ==> GenresPerArtist(view)[i].1 >= 1)
            && (forall i :: 0 <= i < |AlbumsPerArtist(view)| ==> AlbumsPerArtist(view)[i].1 >= 1)
            && (forall i :: 0 <= i < |AlbumsPerYear(view)| ==> AlbumsPerYear(view)[i].1 >= 1)
  {
    var view := Filter(songs, sel);
    FilterComplete(songs, sel);
    var g, a, y := GenresPerArtist(view), AlbumsPerArtist(view), AlbumsPerYear(view);
    assert forall r :: r in view && Artist(r).Some? ==> Genre(r).Some? && Album(r).Some?;
    assert forall r :: r in view && ReleaseYear(r).Some? ==> Album(r).Some?;
    NUniqueTableBounds(g, view, Artist, Genre);
    NUniqueTableBounds(a, view, Artist, Album);
    NUniqueTableBounds(y, view, ReleaseYear, Album);
  }
}
