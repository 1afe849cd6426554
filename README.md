# Movie review client: a verified model of its state and data rules

This project models the client-side logic of a movie-review browsing application:

- **The application store** (`AppContext`): the `AppState` record, the closed set of ten actions,
  the initial state and the transition function `appReducer`. Each action replaces one field,
  appends a review, adds an id to or removes it from the watchlist (in both the store's copy and
  the signed-in user's copy), or shallow-merges a partial filter record.
- **The data-access facade** (`Api`): `movieAPI` over a fixed catalog and an append-only review log.
  The model has the four-stage filtering of `getMovies`, the find-or-null `getMovie`, the flag
  filters `getFeaturedMovies` and `getTrendingMovies`, the per-movie `getReviews`, and `addReview`.
- **The review form** (`ReviewForm`): the submission gate (rating not 0, trimmed comment not empty),
  the payload it hands to `onSubmit`, the reset after a successful submit, and the `disabled` test
  of the submit button. Ratings enter through the star widget, which only emits 1 to 5.
- **The watchlist toggle** (`MovieCard`): the movie card picks REMOVE when the id is listed and ADD
  otherwise. The toggle is composed with the reducer, and the movie detail page's toggle is shown
  to be the same.

Supporting modules: `Types` (the records of `src/types/movie.ts`), `Seqs` (facts about
`Array.prototype.filter`, subsequences, counts and duplicate-freedom), and `Text` (ASCII
`toLowerCase`, `String.prototype.includes`, `String.prototype.trim` over the ECMAScript whitespace and
line-terminator characters, and the decimal text `toString` gives an integer year).

Modelling choices:

- Movie ratings and `minRating` are exact `real`s (8.8 is 8.8). Review ratings are integers.
- A `Partial<...>` record is `PartialFilters`, with one `Option` per key. A key takes part in
  `getMovies` only when its value is truthy: a non-empty string, or a number other than 0.
- The store reducer is a pure function. `MovieApi` is a class: `catalog` is a `const` (the seed
  array is never changed), and `reviewLog` is a field that `AddReview` extends. `getMovies`
  rebinds a local list through four conditional filters. It is proved equal to `Select`, a one-pass
  filter by the conjunction of the active tests. The review form is a class whose fields are the
  component's `rating` and `comment` state.
- The random id and the wall-clock timestamp of `addReview` are parameters of `AddReview`. Whether
  the awaited `onSubmit` resolves or throws is the `succeeds` parameter of `Form.Submit`.
- `ADD_TO_WATCHLIST` does not check for duplicates, so only toggling is proved to keep the list
  duplicate-free. `SET_USER` stores the user as given and does not copy
  the store's watchlist into it, so the "two watchlists agree" invariant is proved for every action
  except signing in a user whose watchlist differs. The reducer's `default:` branch cannot be
  reached, because the action type is closed.

## Model

| member | source | states |
|---|---|---|
| `AppContext.Reduce` | src/context/AppContext.tsx:43-82 | Every state field outside the action's declared footprint (`Touched`) keeps its value. |
| `AppContext.InitialStateIsEmpty` | src/context/AppContext.tsx:27-41 | The initial state has empty movies, reviews and watchlist. User and current movie are null. Filters are `('', '', '', 0)`, loading is false and error is null. The watchlists agree and hold no duplicate. |
| `AppContext.ReplacingActionsStorePayload` | src/context/AppContext.tsx:45-52 | SET_MOVIES, SET_CURRENT_MOVIE, SET_USER and SET_REVIEWS store their payload in their own field and touch exactly one field. So do SET_LOADING and SET_ERROR (lines 75-78). |
| `AppContext.AddReviewAppends` | src/context/AppContext.tsx:53-54 | ADD_REVIEW grows the list by one. Earlier entries are unchanged. The new review is last, and its count rises by one, so there is no dedup. |
| `AppContext.AddToWatchlistAppends` | src/context/AppContext.tsx:55-63 | ADD_TO_WATCHLIST appends the id to the store's list, and its count rises by one (no uniqueness check). A signed-in user's list likewise grows by exactly one, with the same id at its end, and the user's other fields stay the same. A null user stays null. |
| `AppContext.Without` | src/context/AppContext.tsx:64-72 | Filtering by `id !== movieId` removes every occurrence of the id. It keeps every other id with the same count, in the same relative order (a subsequence). |
| `AppContext.RemoveFromWatchlistFilters` | src/context/AppContext.tsx:64-72 | REMOVE_FROM_WATCHLIST turns the store's list into `Without(list, id)`: the id is gone, and the other ids keep their counts and order. The signed-in user's list becomes `Without` of its own old value, with the same guarantees, and the user's other fields stay the same. A null user stays null. |
| `AppContext.ReducePreservesSync` | src/context/AppContext.tsx:55-72 | If the user's watchlist equals the store's before an action, it still does afterwards. The one exception is signing in a user whose watchlist differs. |
| `AppContext.WithoutUndoesAppend` | src/context/AppContext.tsx:58-70 | Removing an id just appended to a list that did not hold it gives the list back. |
| `AppContext.AddThenRemoveRestores` | src/context/AppContext.tsx:55-72 | Adding an id that the store's list does not hold and then removing it gives that list back. The signed-in user's list comes back too when it did not hold the id. In a synchronised state the whole state comes back. |
| `AppContext.MergeIsKeywise` | src/context/AppContext.tsx:73-74 | SET_FILTERS: a key present in the patch takes the patch's value, and an absent key keeps the old value. An empty patch changes nothing. |
| `AppContext.SetFiltersIdempotent` | src/context/AppContext.tsx:73-74 | Dispatching the same SET_FILTERS twice gives the same state as dispatching it once. |
| `MovieCard.ToggleAction` | src/components/Movie/MovieCard.tsx:14-25 | The handler dispatches REMOVE_FROM_WATCHLIST exactly when the id is in the watchlist and ADD_TO_WATCHLIST otherwise, always with the card's id. |
| `MovieCard.Toggle` | src/components/Movie/MovieCard.tsx:14-25 | One click, through the reducer, flips the id's membership. It changes only the two watchlists: every other store field and every other field of the signed-in user stay, and a null user stays null. It keeps the two lists equal and keeps a duplicate-free list duplicate-free. |
| `MovieCard.TogglesKeepDistinct` | src/components/Movie/MovieCard.tsx:20-24 | Starting from a duplicate-free watchlist, any sequence of toggles leaves it duplicate-free. |
| `MovieCard.TogglesKeepSync` | src/components/Movie/MovieCard.tsx:20-24 | Any sequence of toggles keeps the user's watchlist equal to the store's. |
| `MovieCard.DoubleToggleAbsent` | src/components/Movie/MovieCard.tsx:20-24 | Two clicks on an unlisted movie restore the whole (synchronised) state exactly. |
| `MovieCard.DoubleTogglePresent` | src/components/Movie/MovieCard.tsx:20-24 | Two clicks on a listed movie move that id to the end. The set of ids is unchanged, and for a duplicate-free list so is the multiset. |
| `MovieCard.DetailPageToggleAgrees` | src/pages/MovieDetailPage.tsx:41-49 | The detail page's `isInWatchlist` (line 21) is false without a movie and is the card's test once one is loaded. Its toggle does nothing before the movie is loaded, and equals the card's toggle after. |
| `Api.MovieApi.constructor` | src/services/api.ts:6-104 | The facade starts with the given catalog and seed review log. |
| `Api.MovieApi.GetMovies` | src/services/api.ts:107-139 | Narrowing a copy of the catalog by search, genre, year and minimum rating in turn gives `Select`: a subsequence of the catalog, in catalog order. A movie is in it exactly when every active filter accepts it. |
| `Api.SelectIsSubsequence` | src/services/api.ts:111-138 | The listing is a subsequence of the catalog. |
| `Api.SelectMembership` | src/services/api.ts:113-136 | A movie is listed if and only if it is in the catalog and passes every active test. The tests are: case-insensitive substring of title or description, genre membership, year text equality, and `rating >= minRating`. |
| `Api.SelectWithoutActiveFilters` | src/services/api.ts:111-138 | When there are no filters, or only falsy ones (`''`, `''`, `''`, `0`), the whole catalog is returned. |
| `Api.SelectIdempotent` | src/services/api.ts:111-138 | Filtering the listing again with the same filters changes nothing. |
| `Api.EmptySearchAcceptsAll` | src/services/api.ts:113-117 | An empty search term matches every movie, so skipping it when falsy does not change the result. |
| `Api.SearchIgnoresCase` | src/services/api.ts:114-116 | Lower-casing the search term first does not change which movies match. |
| `Api.YearFilterSelectsYear` | src/services/api.ts:126-130 | The year filter written as the decimal text of `y` accepts exactly the movies whose year is `y`. |
| `Api.FloorAboveEveryRatingListsNothing` | src/services/api.ts:132-136 | A non-zero rating floor above every catalog rating gives an empty list, not an error. For example, the seed catalog's ratings stay below 9. |
| `Api.YearTextListsMoviesOfThatYear` | src/services/api.ts:126-130 | `getMovies({year: '2024'})` lists every catalog movie from 2024. |
| `Api.FindIndex` | src/services/api.ts:143 | `find` stops at the first movie with the id, and returns nothing when no movie has it. |
| `Api.MovieApi.GetMovie` | src/services/api.ts:141-144 | Returns null exactly when no catalog movie has the id. Otherwise it returns the first catalog movie with that id. |
| `Api.MovieApi.FeaturedMovies` | src/services/api.ts:146-149 | Exactly the catalog movies whose `featured` flag is true, in catalog order, each as often as it occurs in the catalog. An absent flag counts as false. |
| `Api.MovieApi.TrendingMovies` | src/services/api.ts:151-154 | Exactly the catalog movies whose `trending` flag is true, in catalog order, each as often as it occurs in the catalog. |
| `Api.MovieApi.GetReviews` | src/services/api.ts:156-159 | Exactly the logged reviews of the movie, in insertion order, each as often as it occurs in the log. |
| `Api.MovieApi.AddReview` | src/services/api.ts:161-170 | The returned review copies every draft field and adds the supplied id and timestamp. The log grows by exactly that entry at its end. The movie's review list ends with it, and other movies' lists are unchanged. Ids stay unique when the supplied id is fresh. |
| `Text.Lower` | src/services/api.ts:115 | ASCII lower-casing keeps the length and maps each character by `LowerChar`. |
| `Text.LowerChar` | src/services/api.ts:115 | An upper-case ASCII letter moves to its lower-case partner, and every other character is kept. |
| `Text.LowerIdempotent` | src/services/api.ts:115-116 | Lower-casing twice is the same as lower-casing once. |
| `Text.IncludesIffOccurs` | src/services/api.ts:115-116 | `includes` holds exactly when the term occurs at some offset of the text. |
| `Text.NatToDecimal` | src/services/api.ts:128 | Renders a non-negative year as one or more decimal digits, with no leading zero except for 0 itself. |
| `Text.IntToDecimal` | src/services/api.ts:128 | The text starts with `-` exactly for negative numbers. |
| `Text.DecimalRoundTrip` | src/services/api.ts:128 | Reading the rendered digits back gives the number. |
| `Text.IntToDecimalInjective` | src/services/api.ts:128 | Distinct years render as distinct strings. |
| `Text.TrimStart` | src/components/Review/ReviewForm.tsx:19 | The result is a suffix of the text, everything cut off is whitespace, and the result does not start with whitespace. |
| `Text.TrimEnd` | src/components/Review/ReviewForm.tsx:19 | The result is a prefix of the text, everything cut off is whitespace, and the result does not end with whitespace. |
| `Text.TrimShape` | src/components/Review/ReviewForm.tsx:29 | `trim` leaves a contiguous slice of the text. Everything before and after that slice is whitespace. |
| `Text.TrimHasNoEdges` | src/components/Review/ReviewForm.tsx:29 | A non-empty trimmed text neither starts nor ends with whitespace. |
| `Text.TrimIsCleanTrim` | src/components/Review/ReviewForm.tsx:29 | The trimmed text is exactly such a slice (`CleanTrimOf`): only whitespace is cut away, and none is left at either edge. |
| `Text.TrimEmptyIff` | src/components/Review/ReviewForm.tsx:19 | The trimmed comment is empty exactly when the comment is all whitespace. |
| `Text.TrimIdempotent` | src/components/Review/ReviewForm.tsx:29 | Trimming twice is the same as trimming once. |
| `ReviewForm.DisabledMatchesGate` | src/components/Review/ReviewForm.tsx:63 | When not loading, the button is disabled exactly when `handleSubmit` would return early (line 19). While loading, it is always disabled. |
| `ReviewForm.WhitespaceCommentRefused` | src/components/Review/ReviewForm.tsx:19-21 | An empty or whitespace-only comment is refused whatever the rating, and the button is disabled. |
| `ReviewForm.StarAndTextAccepted` | src/components/Review/ReviewForm.tsx:19-21 | Any star rating with a comment holding one non-whitespace character passes the gate. |
| `ReviewForm.Payload` | src/components/Review/ReviewForm.tsx:24-30 | The payload carries the form's movie id, `'current-user-id'`, `'Current User'` and the rating. Its comment is non-empty and is the submitted text with its surrounding whitespace cut away (`CleanTrimOf`). |
| `ReviewForm.Form.constructor` | src/components/Review/ReviewForm.tsx:12-14 | A new form has rating 0 and an empty comment. |
| `ReviewForm.Form.ClickStar` | src/components/UI/StarRating.tsx:25-37 | A click on star 1 to 5 sets the rating to that star and leaves the comment as it was. |
| `ReviewForm.Form.EditComment` | src/components/Review/ReviewForm.tsx:52-58 | Typing replaces the comment and leaves the rating as it was. |
| `ReviewForm.Form.Submit` | src/components/Review/ReviewForm.tsx:16-38 | Submit calls `onSubmit` exactly when the rating is non-zero and the trimmed comment is non-empty, and the payload is `Payload`, rated 1 to 5. After a successful call the rating is 0 and the comment is empty. A refused submit or a failed call keeps both values. |

## Left out

- JSX, CSS class strings and the presentational components (header, grids, cards' markup, the
  filter select lists, the error panel, the routing table): they produce markup, not behaviour.
- The fetch hooks `useMovies` and `useMovie` and the pages' `useEffect` fetches. They are asynchronous
  effects, and their stale-response race between overlapping fetches is a concurrency matter outside
  this model.
- The `setTimeout` delays in every facade method. They only wait. The asynchronous `Promise`
  wrapping is also left out, since the in-memory facade never rejects.
- `Math.random` id generation and `new Date().toISOString()` in `addReview`. The id and the
  timestamp are parameters instead.
- Api.MovieApi.AddReview: id uniqueness is stated only on the condition that the supplied id is
  fresh, and `createdAt` ordering is not stated. Both depend on the random generator and the clock.
- The contents of the seed arrays `mockMovies` and `mockReviews`. The facade's constructor takes any
  catalog and log. The scenarios about them (no movie rated 9 or more, the 2024 movie found by year)
  are stated for any catalog with the relevant property.
- Full Unicode case folding of `toLowerCase`: only ASCII letters are lower-cased.
- Years that are not integers or lie outside the safe-integer range, and ratings or floors that are
  `NaN`. Years are `int` and ratings are exact reals. So `toString` of a fractional number, the
  exponent notation JavaScript uses from 10^21 on, and `NaN` comparisons do not arise.
- A `Partial<...>` payload whose key is present with the value `undefined`: the JavaScript spread
  would copy the `undefined`, while the model treats the key as absent.
- The reducer's `default:` pass-through for unknown action tags: the action datatype is closed, so
  that branch cannot be reached.
- `useAppContext`'s throw outside a provider, and the provider wiring around `useReducer`.
- The profile page's average-rating arithmetic and `toFixed`, and the review card's locale date
  format (floating point and locale display).
- The Express server and its routes: bootstrap and stub handlers returning fixed messages.
- ReviewForm.Form.Submit: the awaited `onSubmit` is one atomic step. Clicks and edits that
  interleave with the awaited call are not modelled: on the detail page no `loading` is passed, so
  a second click during the wait passes the gate again and sends the same review twice, and the
  reset after success wipes text typed during the wait.
- Object identity and aliasing of the JavaScript arrays. All collections here are values, so
  "`getMovies` works on a copy" holds by construction.
