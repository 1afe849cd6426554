/** The application store (src/context/AppContext.tsx): the state record, the closed set of
    actions, the initial state and the pure transition function `appReducer`. */
module AppContext {
  import opened Types
  import opened Seqs

  datatype AppState = AppState(
    movies: seq<Movie>,
    currentMovie: Option<Movie>,
    user: Option<User>,
    reviews: seq<Review>,
    watchlist: seq<string>,
    filters: MovieFilters,
    loading: bool,
    error: Option<string>)

  datatype AppAction =
    | SetMovies(movies: seq<Movie>)
    | SetCurrentMovie(movie: Option<Movie>)
    | SetUser(user: Option<User>)
    | SetReviews(reviews: seq<Review>)
    | AddReview(review: Review)
    | AddToWatchlist(movieId: string)
    | RemoveFromWatchlist(movieId: string)
    | SetFilters(patch: PartialFilters)
    | SetLoading(loading: bool)
    | SetError(error: Option<string>)

  function InitialState(): AppState {
    AppState([], None, None, [], [],
             MovieFilters("", "", "", 0.0),
             false, None)
  }

  /** The keep-everything-else test behind `x => x !== movieId`. */
  function Differs(movieId: string): string -> bool {
    x => x != movieId
  }

  /** `ids.filter(id => id !== movieId)`: every occurrence of `movieId` removed, the rest in order. */
  function Without(ids: seq<string>, movieId: string): (r: seq<string>)
    ensures movieId !in r
    ensures forall x :: x in r <==> x in ids && x != movieId
    ensures IsSubsequence(r, ids)
    ensures forall x :: x != movieId ==> Count(x, r) == Count(x, ids)
  {
    FilterMembership(ids, Differs(movieId));
    FilterIsSubsequence(ids, Differs(movieId));
    forall x | x != movieId ensures Count(x, Filter(ids, Differs(movieId))) == Count(x, ids) {
      CountFilter(x, ids, Differs(movieId));
    }
    Filter(ids, Differs(movieId))
  }

  /** `{ ...filters, ...patch }` for a patch whose keys are either absent or hold a value. */
  function Merge(f: MovieFilters, patch: PartialFilters): MovieFilters {
    MovieFilters(
      patch.search.GetOr(f.search),
      patch.genre.GetOr(f.genre),
      patch.year.GetOr(f.year),
      patch.minRating.GetOr(f.minRating))
  }

  /** The fields of `AppState`, to say which of them an action may change. */
  datatype Field =
    | MoviesField | CurrentMovieField | UserField | ReviewsField
    | WatchlistField | FiltersField | LoadingField | ErrorField

  /** `s` and `t` hold the same value in field `f`. */
  predicate Agree(s: AppState, t: AppState, f: Field) {
    match f
    case MoviesField => s.movies == t.movies
    case CurrentMovieField => s.currentMovie == t.currentMovie
    case UserField => s.user == t.user
    case ReviewsField => s.reviews == t.reviews
    case WatchlistField => s.watchlist == t.watchlist
    case FiltersField => s.filters == t.filters
    case LoadingField => s.loading == t.loading
    case ErrorField => s.error == t.error
  }

  /** The fields an action is allowed to touch. */
  function Touched(a: AppAction): set<Field> {
    match a
    case SetMovies(_) => {MoviesField}
    case SetCurrentMovie(_) => {CurrentMovieField}
    case SetUser(_) => {UserField}
    case SetReviews(_) => {ReviewsField}
    case AddReview(_) => {ReviewsField}
    case AddToWatchlist(_) => {WatchlistField, UserField}
    case RemoveFromWatchlist(_) => {WatchlistField, UserField}
    case SetFilters(_) => {FiltersField}
    case SetLoading(_) => {LoadingField}
    case SetError(_) => {ErrorField}
  }

  /** `appReducer`. Every field outside `Touched(a)` is passed through unchanged. */
  function Reduce(s: AppState, a: AppAction): (r: AppState)
    ensures forall f :: f !in Touched(a) ==> Agree(s, r, f)
  {
    match a
    case SetMovies(ms) => s.(movies := ms)
    case SetCurrentMovie(m) => s.(currentMovie := m)
    case SetUser(u) => s.(user := u)
    case SetReviews(rs) => s.(reviews := rs)
    case AddReview(rv) => s.(reviews := s.reviews + [rv])
    case AddToWatchlist(id) =>
      s.(watchlist := s.watchlist + [id],
         user := match s.user
                 case Some(u) => Some(u.(watchlist := u.watchlist + [id]))
                 case None => None)
    case RemoveFromWatchlist(id) =>
      s.(watchlist := Without(s.watchlist, id),
         user := match s.user
                 case Some(u) => Some(u.(watchlist := Without(u.watchlist, id)))
                 case None => None)
    case SetFilters(p) => s.(filters := Merge(s.filters, p))
    case SetLoading(b) => s.(loading := b)
    case SetError(e) => s.(error := e)
  }

  /** The two copies of the watchlist agree whenever a user is signed in. */
  predicate InSync(s: AppState) {
    s.user.Some? ==> s.user.value.watchlist == s.watchlist
  }

  // ---------------------------------------------------------------- properties

  lemma InitialStateIsEmpty()
    ensures InitialState().movies == [] && InitialState().reviews == [] && InitialState().watchlist == []
    ensures InitialState().user == None && InitialState().currentMovie == None
    ensures InitialState().filters == MovieFilters("", "", "", 0.0)
    ensures !InitialState().loading && InitialState().error == None
    ensures InSync(InitialState()) && Distinct(InitialState().watchlist)
  {
  }

  /** The six replacing actions store their payload in their own field. */
  lemma ReplacingActionsStorePayload(s: AppState, a: AppAction)
    ensures a.SetMovies? ==> Reduce(s, a).movies == a.movies
    ensures a.SetCurrentMovie? ==> Reduce(s, a).currentMovie == a.movie
    ensures a.SetUser? ==> Reduce(s, a).user == a.user
    ensures a.SetReviews? ==> Reduce(s, a).reviews == a.reviews
    ensures a.SetLoading? ==> Reduce(s, a).loading == a.loading
    ensures a.SetError? ==> Reduce(s, a).error == a.error
    ensures (a.SetMovies? || a.SetCurrentMovie? || a.SetUser? || a.SetReviews? || a.SetLoading? || a.SetError?)
            ==> |Touched(a)| == 1
  {
  }

  /** ADD_REVIEW puts the review last, keeps every earlier entry, and does not deduplicate. */
  lemma AddReviewAppends(s: AppState, rv: Review)
    ensures var r := Reduce(s, AddReview(rv)).reviews;
            && |r| == |s.reviews| + 1
            && r[..|s.reviews|] == s.reviews
            && r[|s.reviews|] == rv
            && Count(rv, r) == Count(rv, s.reviews) + 1
  {
    CountAppend(rv, s.reviews, [rv]);
    assert (s.reviews + [rv])[..|s.reviews|] == s.reviews;
  }

  /** ADD_TO_WATCHLIST appends the id to both copies, without a uniqueness check; a signed-out
      state stays signed out. */
  lemma AddToWatchlistAppends(s: AppState, id: string)
    ensures var r := Reduce(s, AddToWatchlist(id));
            && |r.watchlist| == |s.watchlist| + 1
            && r.watchlist[..|s.watchlist|] == s.watchlist
            && r.watchlist[|s.watchlist|] == id
            && Count(id, r.watchlist) == Count(id, s.watchlist) + 1
            && (s.user.None? ==> r.user.None?)
            && (s.user.Some? ==>
                  && r.user.Some?
                  && r.user.value.(watchlist := s.user.value.watchlist) == s.user.value
                  && |r.user.value.watchlist| == |s.user.value.watchlist| + 1
                  && r.user.value.watchlist[..|s.user.value.watchlist|] == s.user.value.watchlist
                  && r.user.value.watchlist[|s.user.value.watchlist|] == id)
  {
    CountAppend(id, s.watchlist, [id]);
    assert (s.watchlist + [id])[..|s.watchlist|] == s.watchlist;
    if s.user.Some? {
      var w := s.user.value.watchlist;
      assert (w + [id])[..|w|] == w;
    }
  }

  /** REMOVE_FROM_WATCHLIST deletes every occurrence of the id from both copies and keeps the
      other ids, with their multiplicities, in their relative order. */
  lemma RemoveFromWatchlistFilters(s: AppState, id: string)
    ensures var r := Reduce(s, RemoveFromWatchlist(id));
            && r.watchlist == Without(s.watchlist, id)
            && id !in r.watchlist
            && (forall x :: x in r.watchlist <==> x in s.watchlist && x != id)
            && IsSubsequence(r.watchlist, s.watchlist)
            && (forall x :: x != id ==> Count(x, r.watchlist) == Count(x, s.watchlist))
            && (s.user.None? ==> r.user.None?)
            && (s.user.Some? ==>
                  && r.user.Some?
                  && r.user.value.(watchlist := s.user.value.watchlist) == s.user.value
                  && r.user.value.watchlist == Without(s.user.value.watchlist, id)
                  && id !in r.user.value.watchlist
                  && (forall x :: x in r.user.value.watchlist <==> x in s.user.value.watchlist && x != id)
                  && IsSubsequence(r.user.value.watchlist, s.user.value.watchlist)
                  && (forall x :: x != id ==> Count(x, r.user.value.watchlist) == Count(x, s.user.value.watchlist)))
  {
  }

  /** Every action other than signing in a user whose watchlist differs keeps the two
      watchlists equal. */
  lemma ReducePreservesSync(s: AppState, a: AppAction)
    requires InSync(s)
    requires a.SetUser? && a.user.Some? ==> a.user.value.watchlist == s.watchlist
    ensures InSync(Reduce(s, a))
  {
  }

  /** Removing an id that was just appended to a list without it gives the list back. */
  lemma {:induction false} WithoutUndoesAppend(ids: seq<string>, id: string)
    requires id !in ids
    ensures Without(ids + [id], id) == ids
  {
    FilterAppend(ids, [id], Differs(id));
    FilterKeepsAll(ids, Differs(id));
    assert Filter([id], Differs(id)) == [];
  }

  /** Adding an absent id and then removing it restores the store's watchlist, the user's
      watchlist when the id was absent from it too, and so the whole state when the two agree. */
  lemma {:induction false} AddThenRemoveRestores(s: AppState, id: string)
    requires id !in s.watchlist
    ensures Reduce(Reduce(s, AddToWatchlist(id)), RemoveFromWatchlist(id)).watchlist == s.watchlist
    ensures s.user.Some? && id !in s.user.value.watchlist
            ==> Reduce(Reduce(s, AddToWatchlist(id)), RemoveFromWatchlist(id)).user == s.user
    ensures InSync(s) ==> Reduce(Reduce(s, AddToWatchlist(id)), RemoveFromWatchlist(id)) == s
  {
    var t := Reduce(s, AddToWatchlist(id));
    assert t.watchlist == s.watchlist + [id];
    WithoutUndoesAppend(s.watchlist, id);
    if s.user.Some? {
      var u := s.user.value;
      assert t.user == Some(u.(watchlist := u.watchlist + [id]));
      if id !in u.watchlist {
        WithoutUndoesAppend(u.watchlist, id);
        assert u.(watchlist := u.watchlist) == u;
      }
    }
  }

  /** SET_FILTERS: a key present in the patch takes its value, an absent key keeps its old one. */
  lemma MergeIsKeywise(f: MovieFilters, p: PartialFilters)
    ensures Merge(f, p).search == (if p.search.Some? then p.search.value else f.search)
    ensures Merge(f, p).genre == (if p.genre.Some? then p.genre.value else f.genre)
    ensures Merge(f, p).year == (if p.year.Some? then p.year.value else f.year)
    ensures Merge(f, p).minRating == (if p.minRating.Some? then p.minRating.value else f.minRating)
    ensures p == NoFilters ==> Merge(f, p) == f
  {
  }

  /** Dispatching the same SET_FILTERS twice is the same as once. */
  lemma SetFiltersIdempotent(s: AppState, p: PartialFilters)
    ensures Reduce(Reduce(s, SetFilters(p)), SetFilters(p)) == Reduce(s, SetFilters(p))
  {
  }
}
