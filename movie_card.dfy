/** The watchlist toggle of `MovieCard` (src/components/Movie/MovieCard.tsx) and its twin on the
    movie detail page (src/pages/MovieDetailPage.tsx). The handler only chooses an action; the
    state change is the reducer's. */
module MovieCard {
  import opened Types
  import opened Seqs
  import opened AppContext

  /** `state.watchlist.includes(movie.id)`. */
  predicate IsInWatchlist(s: AppState, movieId: string) {
    movieId in s.watchlist
  }

  /** The action `handleWatchlistToggle` dispatches: REMOVE when listed, ADD otherwise. */
  function ToggleAction(s: AppState, movieId: string): (a: AppAction)
    ensures a.AddToWatchlist? || a.RemoveFromWatchlist?
    ensures a.movieId == movieId
    ensures a.RemoveFromWatchlist? <==> IsInWatchlist(s, movieId)
  {
    if IsInWatchlist(s, movieId) then RemoveFromWatchlist(movieId) else AddToWatchlist(movieId)
  }

  /** One click: the chosen action applied through the reducer. It flips the id's membership,
      touches nothing but the two watchlists, and keeps them in step and duplicate-free. */
  function Toggle(s: AppState, movieId: string): (r: AppState)
    ensures IsInWatchlist(r, movieId) <==> !IsInWatchlist(s, movieId)
    ensures forall f :: f != WatchlistField && f != UserField ==> Agree(s, r, f)
    ensures s.user.None? <==> r.user.None?
    ensures s.user.Some? ==> r.user.value.(watchlist := s.user.value.watchlist) == s.user.value
    ensures InSync(s) ==> InSync(r)
    ensures Distinct(s.watchlist) ==> Distinct(r.watchlist)
  {
    RemoveKeepsDistinct(s.watchlist, movieId);
    AddKeepsDistinct(s.watchlist, movieId);
    Reduce(s, ToggleAction(s, movieId))
  }

  lemma AddKeepsDistinct(ids: seq<string>, movieId: string)
    ensures movieId !in ids && Distinct(ids) ==> Distinct(ids + [movieId])
  {
    if movieId !in ids && Distinct(ids) {
      AppendKeepsDistinct(ids, movieId);
    }
  }

  lemma RemoveKeepsDistinct(ids: seq<string>, movieId: string)
    ensures Distinct(ids) ==> Distinct(Without(ids, movieId))
  {
    if Distinct(ids) {
      FilterKeepsDistinct(ids, Differs(movieId));
    }
  }

  /** A run of clicks, one per id, in order. */
  function ToggleAll(s: AppState, ids: seq<string>): AppState
    decreases |ids|
  {
    if ids == [] then s else ToggleAll(Toggle(s, ids[0]), ids[1..])
  }

  /** Starting duplicate-free, no sequence of toggles introduces a duplicate. */
  lemma {:induction false} TogglesKeepDistinct(s: AppState, ids: seq<string>)
    requires Distinct(s.watchlist)
    ensures Distinct(ToggleAll(s, ids).watchlist)
    decreases |ids|
  {
    if ids != [] {
      TogglesKeepDistinct(Toggle(s, ids[0]), ids[1..]);
    }
  }

  /** Toggles keep the store's watchlist and the user's watchlist equal. */
  lemma {:induction false} TogglesKeepSync(s: AppState, ids: seq<string>)
    requires InSync(s)
    ensures InSync(ToggleAll(s, ids))
    decreases |ids|
  {
    if ids != [] {
      TogglesKeepSync(Toggle(s, ids[0]), ids[1..]);
    }
  }

  /** Two clicks on an unlisted movie restore the state exactly. */
  lemma DoubleToggleAbsent(s: AppState, movieId: string)
    requires !IsInWatchlist(s, movieId) && InSync(s)
    ensures Toggle(Toggle(s, movieId), movieId) == s
  {
    AddThenRemoveRestores(s, movieId);
  }

  /** Two clicks on a listed movie restore the watchlist as a set, but move the id to the end. */
  lemma {:induction false} DoubleTogglePresent(s: AppState, movieId: string)
    requires IsInWatchlist(s, movieId)
    ensures Toggle(Toggle(s, movieId), movieId).watchlist == Without(s.watchlist, movieId) + [movieId]
    ensures forall x :: x in Toggle(Toggle(s, movieId), movieId).watchlist <==> x in s.watchlist
    ensures Distinct(s.watchlist) ==> multiset(Toggle(Toggle(s, movieId), movieId).watchlist) == multiset(s.watchlist)
  {
    var w := Without(s.watchlist, movieId);
    var t := Toggle(s, movieId);
    assert t == Reduce(s, RemoveFromWatchlist(movieId));
    assert t.watchlist == w && !IsInWatchlist(t, movieId);
    var r := Toggle(t, movieId).watchlist;
    assert Toggle(t, movieId) == Reduce(t, AddToWatchlist(movieId));
    assert r == w + [movieId];
    if Distinct(s.watchlist) {
      forall x ensures multiset(r)[x] == multiset(s.watchlist)[x] {
        CountIsMultiplicity(x, r);
        CountIsMultiplicity(x, s.watchlist);
        CountAppend(x, w, [movieId]);
        if x == movieId {
          DistinctCountOne(s.watchlist, movieId);
        }
      }
    }
  }

  lemma {:induction false} CountIsMultiplicity(x: string, s: seq<string>)
    ensures Count(x, s) == multiset(s)[x]
  {
    if s != [] {
      CountIsMultiplicity(x, s[1..]);
      assert s == [s[0]] + s[1..];
    }
  }

  lemma {:induction false} DistinctCountOne(s: seq<string>, x: string)
    requires Distinct(s) && x in s
    ensures Count(x, s) == 1
  {
    if s[0] == x {
      assert x !in s[1..] by {
        forall k | 0 <= k < |s[1..]| ensures s[1..][k] != x {
          assert s[1..][k] == s[k + 1];
        }
      }
      CountAbsent(s[1..], x);
    } else {
      assert Distinct(s[1..]) by {
        forall i, j | 0 <= i < j < |s[1..]| ensures s[1..][i] != s[1..][j] {
          assert s[1..][i] == s[i + 1] && s[1..][j] == s[j + 1];
        }
      }
      DistinctCountOne(s[1..], x);
    }
  }

  lemma {:induction false} CountAbsent(s: seq<string>, x: string)
    requires x !in s
    ensures Count(x, s) == 0
  {
    if s != [] {
      assert s == [s[0]] + s[1..];
      CountAbsent(s[1..], x);
    }
  }

  /** MovieDetailPage: `isInWatchlist` is false while the movie is not loaded. */
  predicate DetailIsInWatchlist(s: AppState, movie: Option<Movie>) {
    movie.Some? && movie.value.id in s.watchlist
  }

  /** MovieDetailPage's `handleWatchlistToggle`: nothing happens without a movie; otherwise the
      card's choice of action for the loaded movie. */
  function DetailPageToggle(s: AppState, movie: Option<Movie>): AppState {
    if movie.None? then s else Reduce(s, ToggleAction(s, movie.value.id))
  }

  /** The detail page's flag is the card's once the movie is loaded, so its toggle is the card's
      toggle then, and a no-op before. */
  lemma DetailPageToggleAgrees(s: AppState, movie: Option<Movie>)
    ensures movie.Some? ==> (DetailIsInWatchlist(s, movie) <==> IsInWatchlist(s, movie.value.id))
    ensures !DetailIsInWatchlist(s, None)
    ensures movie.None? ==> DetailPageToggle(s, movie) == s
    ensures movie.Some? ==> DetailPageToggle(s, movie) == Toggle(s, movie.value.id)
  {
  }
}
