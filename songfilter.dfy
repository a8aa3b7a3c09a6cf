/**
 * The sidebar selection and the conjunctive row filter of the songs table
 * (`df_filtrado`), shared by the Home and Popularidade pages.
 */
module SongFilter {
  import opened Wrappers
  import opened Frames
  import opened Tables
  import opened Facets

  /** The widgets' outputs: the slider's inclusive year range and the three multiselects. */
  datatype Selection = Selection(
    yearLo: int, yearHi: int,
    artists: set<string>, albums: set<string>, genres: set<string>)

  /** The mask: year within the range, and artist, `Album` and genre each selected. */
  predicate Admits(sel: Selection, s: Song) {
    && s.releaseYear.Some? && sel.yearLo <= s.releaseYear.value <= sel.yearHi
    && IsIn(s.artist, sel.artists)
    && IsIn(s.album, sel.albums)
    && IsIn(s.genre, sel.genres)
  }

  function Mask(sel: Selection): Song -> bool {
    (s: Song) => Admits(sel, s)
  }

  /**
   * `df_filtrado`: a row is kept exactly when the selection admits it; the view keeps
   * the table's order.
   */
  function Filter(songs: seq<Song>, sel: Selection): (view: seq<Song>)
    ensures forall s :: s in view <==> s in songs && Admits(sel, s)
    ensures IsSubseq(view, songs)
  {
    WhereIsSubseq(songs, Mask(sel));
    Where(songs, Mask(sel))
  }

  /** A kept row appears as many times as in the table, a rejected one never. */
  lemma FilterMultiplicity(songs: seq<Song>, sel: Selection, s: Song)
    ensures multiset(Filter(songs, sel))[s] == if Admits(sel, s) then multiset(songs)[s] else 0
  {
    WhereMultiplicity(songs, Mask(sel), s);
  }

  /** Deselecting every artist, album or genre, or an inverted range, empties the view. */
  lemma FilterEmptySelection(songs: seq<Song>, sel: Selection)
    requires sel.artists == {} || sel.albums == {} || sel.genres == {} || sel.yearLo > sel.yearHi
    ensures Filter(songs, sel) == []
  {
    WhereNone(songs, Mask(sel));
  }

  /** Filtering the view again with the same selection changes nothing. */
  lemma FilterIdempotent(songs: seq<Song>, sel: Selection)
    ensures Filter(Filter(songs, sel), sel) == Filter(songs, sel)
  {
    WhereIdempotent(songs, Mask(sel));
  }

  /** `wide` has a wider year range and larger selected sets than `sel`. */
  predicate Widens(sel: Selection, wide: Selection) {
    && wide.yearLo <= sel.yearLo && sel.yearHi <= wide.yearHi
    && sel.artists <= wide.artists && sel.albums <= wide.albums && sel.genres <= wide.genres
  }

  /** Widening the selection never removes a row, and the rows kept stay in order. */
  lemma FilterMonotone(songs: seq<Song>, sel: Selection, wide: Selection)
    requires Widens(sel, wide)
    ensures IsSubseq(Filter(songs, sel), Filter(songs, wide))
    ensures forall s :: s in Filter(songs, sel) ==> s in Filter(songs, wide)
  {
    WhereIsMonotone(songs, Mask(sel), Mask(wide));
  }

  /** A filtered view has no missing artist, album, genre or year: `isin` never matches a null. */
  lemma FilterComplete(songs: seq<Song>, sel: Selection)
    ensures forall s :: s in Filter(songs, sel) ==>
              s.artist.Some? && s.album.Some? && s.genre.Some? && s.releaseYear.Some?
  {
    forall s | s in Filter(songs, sel)
      ensures s.artist.Some? && s.album.Some? && s.genre.Some? && s.releaseYear.Some?
    {
      assert Admits(sel, s);
    }
  }

  /** The selection a page starts with: the whole year span and the first five options of each list. */
  function DefaultSelection(f: FacetIndex): (sel: Selection)
    ensures sel.yearLo == f.yearMin && sel.yearHi == f.yearMax
    ensures sel.artists == (set a | a in Defaults(f.artists)) && sel.artists <= set a | a in f.artists
    ensures sel.albums == (set a | a in Defaults(f.albums)) && sel.albums <= set a | a in f.albums
    ensures sel.genres == (set g | g in Defaults(f.genres)) && sel.genres <= set g | g in f.genres
  {
    Selection(f.yearMin, f.yearMax,
      set a | a in Defaults(f.artists), set a | a in Defaults(f.albums), set g | g in Defaults(f.genres))
  }

  /**
   * With the default selection the year test keeps every row that has a year: the view is
   * the rows with a year whose artist, album and genre are among the first five options.
   */
  lemma DefaultSelectionView(songs: seq<Song>)
    requires BuildFacets(songs).Some?
    ensures var f := BuildFacets(songs).value;
            forall s :: s in Filter(songs, DefaultSelection(f)) <==>
              && s in songs && s.releaseYear.Some?
              && s.artist.Some? && s.artist.value in Defaults(f.artists)
              && s.album.Some? && s.album.value in Defaults(f.albums)
              && s.genre.Some? && s.genre.value in Defaults(f.genres)
  {
    var f := BuildFacets(songs).value;
    forall s | s in songs {
      DefaultAdmits(f, s);
    }
  }

  /** For a song whose year lies in the facet range, the default selection tests only the other three columns. */
  lemma DefaultAdmits(f: FacetIndex, s: Song)
    requires s.releaseYear.Some? ==> f.yearMin <= s.releaseYear.value <= f.yearMax
    ensures Admits(DefaultSelection(f), s) <==>
              && s.releaseYear.Some?
              && s.artist.Some? && s.artist.value in Defaults(f.artists)
              && s.album.Some? && s.album.value in Defaults(f.albums)
              && s.genre.Some? && s.genre.value in Defaults(f.genres)
  {
  }

  /** Two songs, a selection reaching both but a one-year range: only the year-2000 song remains. */
  lemma FilterScenario()
    ensures var a := Song(Some("A"), Some("t1"), Some("X"), Some("pop"), Some(2000));
            var b := Song(Some("B"), Some("t2"), Some("Y"), Some("rock"), Some(2001));
            Filter([a, b], Selection(2000, 2000, {"A", "B"}, {"X", "Y"}, {"pop", "rock"})) == [a]
  {
    var a := Song(Some("A"), Some("t1"), Some("X"), Some("pop"), Some(2000));
    var b := Song(Some("B"), Some("t2"), Some("Y"), Some("rock"), Some(2001));
    var sel := Selection(2000, 2000, {"A", "B"}, {"X", "Y"}, {"pop", "rock"});
    assert [a, b][1..] == [b];
    assert Where([b], Mask(sel)) == [];
  }
}
