/** The in-memory data-access facade `movieAPI` (src/services/api.ts): a fixed catalog, an
    append-only review log, and the filtering and lookup rules over them. */
module Api {
  import opened Types
  import opened Seqs
  import opened Text

  // ---------------------------------------------------------------- the filter rules of getMovies

  /** `filters?.key`: a missing filter object reads as every key absent. */
  function Query(filters: Option<PartialFilters>): PartialFilters {
    filters.GetOr(NoFilters)
  }

  /** A filter key takes part only when its value is truthy: a non-empty string, a non-zero number. */
  predicate SearchActive(q: PartialFilters) { q.search.Some? && q.search.value != "" }
  predicate GenreActive(q: PartialFilters) { q.genre.Some? && q.genre.value != "" }
  predicate YearActive(q: PartialFilters) { q.year.Some? && q.year.value != "" }
  predicate MinRatingActive(q: PartialFilters) { q.minRating.Some? && q.minRating.value != 0.0 }

  /** Case-insensitive substring match on the title or the description. */
  predicate SearchHit(term: string, m: Movie) {
    Includes(Lower(m.title), Lower(term)) || Includes(Lower(m.description), Lower(term))
  }

  /** `movie.year.toString() === year`. */
  predicate YearHit(year: string, m: Movie) {
    IntToDecimal(m.year) == year
  }

  predicate PassSearch(q: PartialFilters, m: Movie) { SearchActive(q) ==> SearchHit(q.search.value, m) }
  predicate PassGenre(q: PartialFilters, m: Movie) { GenreActive(q) ==> q.genre.value in m.genre }
  predicate PassYear(q: PartialFilters, m: Movie) { YearActive(q) ==> YearHit(q.year.value, m) }
  predicate PassRating(q: PartialFilters, m: Movie) { MinRatingActive(q) ==> m.rating >= q.minRating.value }

  /** A movie is listed when every active filter accepts it. */
  predicate Matches(q: PartialFilters, m: Movie) {
    PassSearch(q, m) && PassGenre(q, m) && PassYear(q, m) && PassRating(q, m)
  }

  /** Reference definition of the listing: one pass over the catalog by the conjunction. */
  function Select(catalog: seq<Movie>, filters: Option<PartialFilters>): seq<Movie> {
    Filter(catalog, MatchesTest(Query(filters)))
  }

  function SearchTest(term: string): Movie -> bool { m => SearchHit(term, m) }
  function GenreTest(genre: string): Movie -> bool { (m: Movie) => genre in m.genre }
  function YearTest(year: string): Movie -> bool { m => YearHit(year, m) }
  function RatingTest(minRating: real): Movie -> bool { (m: Movie) => m.rating >= minRating }
  function UpToSearch(q: PartialFilters): Movie -> bool { m => PassSearch(q, m) }
  function UpToGenre(q: PartialFilters): Movie -> bool { m => PassSearch(q, m) && PassGenre(q, m) }
  function UpToYear(q: PartialFilters): Movie -> bool { m => PassSearch(q, m) && PassGenre(q, m) && PassYear(q, m) }
  function MatchesTest(q: PartialFilters): Movie -> bool { m => Matches(q, m) }

  predicate IsFeatured(m: Movie) { m.featured == Some(true) }
  predicate IsTrending(m: Movie) { m.trending == Some(true) }
  function ForMovie(movieId: string): Review -> bool { (r: Review) => r.movieId == movieId }

  /** `catalog[i]` is the first movie whose id is `id`. */
  predicate FirstWithIdAt(catalog: seq<Movie>, id: string, i: int) {
    0 <= i < |catalog| && catalog[i].id == id && forall j :: 0 <= j < i ==> catalog[j].id != id
  }

  /** The index `Array.prototype.find` stops at. */
  function FindIndex(catalog: seq<Movie>, id: string): (r: Option<nat>)
    ensures r.Some? ==> FirstWithIdAt(catalog, id, r.value)
    ensures r.None? ==> forall j :: 0 <= j < |catalog| ==> catalog[j].id != id
  {
    if catalog == [] then None
    else if catalog[0].id == id then Some(0)
    else match FindIndex(catalog[1..], id)
         case Some(i) => Some(i + 1)
         case None => None
  }

  /** The submitted part of a stored review. */
  function DraftOf(r: Review): ReviewDraft {
    ReviewDraft(r.movieId, r.userId, r.userName, r.rating, r.comment)
  }

  // The four stages of getMovies, each as a filter of the original catalog.

  lemma SearchStage(catalog: seq<Movie>, q: PartialFilters)
    ensures (if SearchActive(q) then Filter(catalog, SearchTest(q.search.value)) else catalog)
            == Filter(catalog, UpToSearch(q))
  {
    if SearchActive(q) {
      FilterExt(catalog, SearchTest(q.search.value), UpToSearch(q));
    } else {
      FilterKeepsAll(catalog, UpToSearch(q));
    }
  }

  lemma GenreStage(catalog: seq<Movie>, q: PartialFilters)
    ensures (if GenreActive(q) then Filter(Filter(catalog, UpToSearch(q)), GenreTest(q.genre.value))
             else Filter(catalog, UpToSearch(q)))
            == Filter(catalog, UpToGenre(q))
  {
    if GenreActive(q) {
      FilterCompose(catalog, UpToSearch(q), GenreTest(q.genre.value), UpToGenre(q));
    } else {
      FilterExt(catalog, UpToSearch(q), UpToGenre(q));
    }
  }

  lemma YearStage(catalog: seq<Movie>, q: PartialFilters)
    ensures (if YearActive(q) then Filter(Filter(catalog, UpToGenre(q)), YearTest(q.year.value))
             else Filter(catalog, UpToGenre(q)))
            == Filter(catalog, UpToYear(q))
  {
    if YearActive(q) {
      FilterCompose(catalog, UpToGenre(q), YearTest(q.year.value), UpToYear(q));
    } else {
      FilterExt(catalog, UpToGenre(q), UpToYear(q));
    }
  }

  lemma RatingStage(catalog: seq<Movie>, q: PartialFilters)
    ensures (if MinRatingActive(q) then Filter(Filter(catalog, UpToYear(q)), RatingTest(q.minRating.value))
             else Filter(catalog, UpToYear(q)))
            == Filter(catalog, MatchesTest(q))
  {
    if MinRatingActive(q) {
      FilterCompose(catalog, UpToYear(q), RatingTest(q.minRating.value), MatchesTest(q));
    } else {
      FilterExt(catalog, UpToYear(q), MatchesTest(q));
    }
  }

  class MovieApi {
    /** `mockMovies`: never changed after start-up. */
    const catalog: seq<Movie>
    /** `mockReviews`: grows by `addReview`. */
    var reviewLog: seq<Review>

    constructor (catalog: seq<Movie>, reviews: seq<Review>)
      ensures this.catalog == catalog && reviewLog == reviews
    {
      this.catalog := catalog;
      reviewLog := reviews;
    }

    /** `getMovies`: start from a copy of the catalog and narrow it by each active filter in turn.
        The result is the one-pass `Select`: the catalog movies that every active filter
        accepts, in catalog order. */
    method GetMovies(filters: Option<PartialFilters>) returns (movies: seq<Movie>)
      ensures movies == Select(catalog, filters)
      ensures IsSubsequence(movies, catalog)
      ensures forall m :: m in movies <==> m in catalog && Matches(Query(filters), m)
    {
      var q := Query(filters);
      var filtered := catalog;
      if SearchActive(q) {
        filtered := Filter(filtered, SearchTest(q.search.value));
      }
      SearchStage(catalog, q);
      if GenreActive(q) {
        filtered := Filter(filtered, GenreTest(q.genre.value));
      }
      GenreStage(catalog, q);
      if YearActive(q) {
        filtered := Filter(filtered, YearTest(q.year.value));
      }
      YearStage(catalog, q);
      if MinRatingActive(q) {
        filtered := Filter(filtered, RatingTest(q.minRating.value));
      }
      RatingStage(catalog, q);
      movies := filtered;
      FilterIsSubsequence(catalog, MatchesTest(q));
      FilterMembership(catalog, MatchesTest(q));
    }

    /** `getMovie`: the first catalog movie with the id, or null when there is none. */
    function GetMovie(id: string): (r: Option<Movie>)
      ensures r.None? <==> forall m :: m in catalog ==> m.id != id
      ensures r.Some? ==> exists i :: FirstWithIdAt(catalog, id, i) && catalog[i] == r.value
    {
      match FindIndex(catalog, id)
      case Some(i) => Some(catalog[i])
      case None => None
    }

    /** `getFeaturedMovies`: the movies flagged featured, in catalog order; a missing flag is false. */
    function FeaturedMovies(): (r: seq<Movie>)
      ensures IsSubsequence(r, catalog)
      ensures forall m :: m in r <==> m in catalog && m.featured == Some(true)
      ensures forall m :: Count(m, r) == if m.featured == Some(true) then Count(m, catalog) else 0
    {
      FilterIsSubsequence(catalog, IsFeatured);
      FilterMembership(catalog, IsFeatured);
      forall m ensures Count(m, Filter(catalog, IsFeatured)) == if m.featured == Some(true) then Count(m, catalog) else 0 {
        CountFilter(m, catalog, IsFeatured);
      }
      Filter(catalog, IsFeatured)
    }

    /** `getTrendingMovies`: the movies flagged trending, in catalog order. */
    function TrendingMovies(): (r: seq<Movie>)
      ensures IsSubsequence(r, catalog)
      ensures forall m :: m in r <==> m in catalog && m.trending == Some(true)
      ensures forall m :: Count(m, r) == if m.trending == Some(true) then Count(m, catalog) else 0
    {
      FilterIsSubsequence(catalog, IsTrending);
      FilterMembership(catalog, IsTrending);
      forall m ensures Count(m, Filter(catalog, IsTrending)) == if m.trending == Some(true) then Count(m, catalog) else 0 {
        CountFilter(m, catalog, IsTrending);
      }
      Filter(catalog, IsTrending)
    }

    /** `getReviews`: the logged reviews of one movie, oldest first. */
    function GetReviews(movieId: string): (r: seq<Review>)
      reads this
      ensures IsSubsequence(r, reviewLog)
      ensures forall rv :: rv in r <==> rv in reviewLog && rv.movieId == movieId
      ensures forall rv :: Count(rv, r) == if rv.movieId == movieId then Count(rv, reviewLog) else 0
    {
      FilterIsSubsequence(reviewLog, ForMovie(movieId));
      FilterMembership(reviewLog, ForMovie(movieId));
      forall rv ensures Count(rv, Filter(reviewLog, ForMovie(movieId))) == if rv.movieId == movieId then Count(rv, reviewLog) else 0 {
        CountFilter(rv, reviewLog, ForMovie(movieId));
      }
      Filter(reviewLog, ForMovie(movieId))
    }

    /** Every logged review has its own id. */
    predicate IdsUnique()
      reads this
    {
      forall i, j :: 0 <= i < j < |reviewLog| ==> reviewLog[i].id != reviewLog[j].id
    }

    /** `addReview`: the draft plus the generated `id` and `createdAt`, pushed onto the log.
        The id and the timestamp are supplied by the caller. */
    method AddReview(draft: ReviewDraft, id: string, createdAt: string) returns (created: Review)
      modifies this
      ensures DraftOf(created) == draft && created.id == id && created.createdAt == createdAt
      ensures reviewLog == old(reviewLog) + [created]
      ensures GetReviews(draft.movieId) == old(GetReviews(draft.movieId)) + [created]
      ensures forall m :: m != draft.movieId ==> GetReviews(m) == old(GetReviews(m))
      ensures old(IdsUnique()) && (forall rv :: rv in old(reviewLog) ==> rv.id != id) ==> IdsUnique()
    {
      created := Review(id, draft.movieId, draft.userId, draft.userName, draft.rating,
                        draft.comment, createdAt);
      ghost var before := reviewLog;
      reviewLog := reviewLog + [created];
      forall m ensures Filter(reviewLog, ForMovie(m)) == Filter(before, ForMovie(m)) + Filter([created], ForMovie(m)) {
        FilterAppend(before, [created], ForMovie(m));
      }
      assert forall i :: 0 <= i < |before| ==> reviewLog[i] == before[i];
    }
  }

  // ---------------------------------------------------------------- properties of the listing

  /** The listing keeps catalog order: it is a subsequence of the catalog. */
  lemma SelectIsSubsequence(catalog: seq<Movie>, filters: Option<PartialFilters>)
    ensures IsSubsequence(Select(catalog, filters), catalog)
  {
    FilterIsSubsequence(catalog, MatchesTest(Query(filters)));
  }

  /** A movie is listed exactly when it is in the catalog and every active filter accepts it. */
  lemma SelectMembership(catalog: seq<Movie>, filters: Option<PartialFilters>)
    ensures forall m :: m in Select(catalog, filters) <==> m in catalog && Matches(Query(filters), m)
  {
    FilterMembership(catalog, MatchesTest(Query(filters)));
  }

  /** No filters, or only falsy ones (`''`, `''`, `''`, `0`), list the whole catalog. */
  lemma SelectWithoutActiveFilters(catalog: seq<Movie>, filters: Option<PartialFilters>)
    requires var q := Query(filters);
             !SearchActive(q) && !GenreActive(q) && !YearActive(q) && !MinRatingActive(q)
    ensures Select(catalog, filters) == catalog
  {
    FilterKeepsAll(catalog, MatchesTest(Query(filters)));
  }

  /** Filtering the listing again by the same filters changes nothing. */
  lemma SelectIdempotent(catalog: seq<Movie>, filters: Option<PartialFilters>)
    ensures Select(Select(catalog, filters), filters) == Select(catalog, filters)
  {
    var p := MatchesTest(Query(filters));
    FilterCompose(catalog, p, p, p);
  }

  /** An empty search term accepts every movie, so skipping it does not change the listing. */
  lemma EmptySearchAcceptsAll(m: Movie)
    ensures SearchHit("", m)
  {
    assert StartsWith(Lower(m.title), Lower(""));
  }

  /** The search ignores the case of ASCII letters in the term. */
  lemma SearchIgnoresCase(term: string, m: Movie)
    ensures SearchHit(Lower(term), m) == SearchHit(term, m)
  {
    LowerIdempotent(term);
  }

  /** A year filter written as the decimal text of `y` selects exactly the movies from year `y`. */
  lemma YearFilterSelectsYear(y: int, m: Movie)
    ensures YearHit(IntToDecimal(y), m) <==> m.year == y
  {
    if YearHit(IntToDecimal(y), m) {
      IntToDecimalInjective(m.year, y);
    }
  }

  /** A rating floor above every catalog rating lists nothing (the catalog's best is 8.8, so
      `minRating: 9` gives an empty list rather than an error). */
  lemma FloorAboveEveryRatingListsNothing(catalog: seq<Movie>, floor: real)
    requires floor != 0.0
    requires forall m :: m in catalog ==> m.rating < floor
    ensures Select(catalog, Some(PartialFilters(None, None, None, Some(floor)))) == []
  {
    FilterRejectsAll(catalog, MatchesTest(Query(Some(PartialFilters(None, None, None, Some(floor))))));
  }

  /** `getMovies({ year: '2024' })` lists every catalog movie from 2024. */
  lemma YearTextListsMoviesOfThatYear(catalog: seq<Movie>, m: Movie)
    requires m in catalog && m.year == 2024
    ensures m in Select(catalog, Some(PartialFilters(None, None, Some("2024"), None)))
  {
    assert NatToDecimal(2) == "2";
    assert NatToDecimal(20) == "20";
    assert NatToDecimal(202) == "202";
    assert NatToDecimal(2024) == "2024";
    SelectMembership(catalog, Some(PartialFilters(None, None, Some("2024"), None)));
  }
}
