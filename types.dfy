/** The records of the movie-review client (src/types/movie.ts), as values. */
module Types {

  /** An optional value: TypeScript's `T | null`, `T | undefined` and `field?: T`. */
  datatype Option<T> = None | Some(value: T) {
    function GetOr(default: T): T {
      match this
      case Some(v) => v
      case None => default
    }
  }

  /** A catalog entry. `rating` is a decimal such as 8.8, kept as an exact real. */
  datatype Movie = Movie(
    id: string,
    title: string,
    description: string,
    genre: seq<string>,
    year: int,
    rating: real,
    duration: int,
    director: string,
    cast: seq<string>,
    poster: string,
    trailer: Option<string>,
    featured: Option<bool>,
    trending: Option<bool>)

  /** A stored review: the author's draft plus the generated `id` and `createdAt`. */
  datatype Review = Review(
    id: string,
    movieId: string,
    userId: string,
    userName: string,
    rating: int,
    comment: string,
    createdAt: string)

  /** `Omit<Review, 'id' | 'createdAt'>`: what a client submits. */
  datatype ReviewDraft = ReviewDraft(
    movieId: string,
    userId: string,
    userName: string,
    rating: int,
    comment: string)

  datatype User = User(
    id: string,
    name: string,
    email: string,
    watchlist: seq<string>,
    reviews: seq<Review>)

  /** The filter record held in the application state. */
  datatype MovieFilters = MovieFilters(
    search: string,
    genre: string,
    year: string,
    minRating: real)

  /** `Partial<MovieFilters>`: every key may be absent. */
  datatype PartialFilters = PartialFilters(
    search: Option<string>,
    genre: Option<string>,
    year: Option<string>,
    minRating: Option<real>)

  const NoFilters := PartialFilters(None, None, None, None)
}
