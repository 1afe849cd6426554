/** The review form (src/components/Review/ReviewForm.tsx): its submission gate, the payload it
    hands to `onSubmit`, and the reset after a successful submit. Ratings reach it only from the
    star widget (src/components/UI/StarRating.tsx). */
module ReviewForm {
  import opened Types
  import opened Text

  /** The values the star widget's click handler can emit. */
  const StarValues: seq<int> := [1, 2, 3, 4, 5]

  /** Fixed authorship the form stamps on every review. */
  const CurrentUserId: string := "current-user-id"
  const CurrentUserName: string := "Current User"

  /** `handleSubmit` goes past its early return exactly when this holds. */
  predicate CanSubmit(rating: int, comment: string) {
    rating != 0 && Trim(comment) != ""
  }

  /** The `disabled` attribute of the submit button. */
  predicate SubmitDisabled(rating: int, comment: string, loading: bool) {
    rating == 0 || Trim(comment) == "" || loading
  }

  /** Outside loading, the button is disabled exactly when a submit would be refused. */
  lemma DisabledMatchesGate(rating: int, comment: string, loading: bool)
    ensures !loading ==> (SubmitDisabled(rating, comment, loading) <==> !CanSubmit(rating, comment))
    ensures loading ==> SubmitDisabled(rating, comment, loading)
  {
  }

  /** A comment made only of whitespace (or empty) is refused, whatever the rating. */
  lemma WhitespaceCommentRefused(rating: int, comment: string)
    requires AllWhitespace(comment)
    ensures !CanSubmit(rating, comment)
    ensures SubmitDisabled(rating, comment, false)
  {
    TrimEmptyIff(comment);
  }

  /** Any star and any comment with a non-whitespace character can be submitted. */
  lemma StarAndTextAccepted(rating: int, comment: string)
    requires rating in StarValues
    requires exists i :: 0 <= i < |comment| && !IsJsWhitespace(comment[i])
    ensures CanSubmit(rating, comment)
  {
    TrimEmptyIff(comment);
  }

  /** The object passed to `onSubmit`: the form's movie, the fixed author, the rating and the
      comment with its surrounding whitespace cut off. */
  function Payload(movieId: string, rating: int, comment: string): (d: ReviewDraft)
    requires CanSubmit(rating, comment)
    ensures d.movieId == movieId && d.userId == CurrentUserId && d.userName == CurrentUserName
    ensures d.rating == rating
    ensures d.comment != [] && CleanTrimOf(comment, d.comment)
  {
    TrimIsCleanTrim(comment);
    ReviewDraft(movieId, CurrentUserId, CurrentUserName, rating, Trim(comment))
  }

  /** The form component: `rating` and `comment` are its React state. */
  class Form {
    const movieId: string
    var rating: int
    var comment: string

    /** The rating is either unset (0) or one of the stars. */
    ghost predicate Valid()
      reads this
    {
      rating == 0 || rating in StarValues
    }

    constructor (movieId: string)
      ensures Valid()
      ensures this.movieId == movieId && rating == 0 && comment == ""
    {
      this.movieId := movieId;
      rating := 0;
      comment := "";
    }

    /** A click on a star: `setRating(star)`. */
    method ClickStar(star: int)
      requires Valid()
      requires star in StarValues
      modifies this
      ensures Valid()
      ensures rating == star && comment == old(comment)
    {
      rating := star;
    }

    /** Typing in the text area: `setComment(text)`. */
    method EditComment(text: string)
      requires Valid()
      modifies this
      ensures Valid()
      ensures comment == text && rating == old(rating)
    {
      comment := text;
    }

    /** `handleSubmit`. `sent` is the payload handed to `onSubmit` (None: no call was made);
        `succeeds` says whether the awaited `onSubmit` resolved or threw. */
    method Submit(succeeds: bool) returns (sent: Option<ReviewDraft>)
      requires Valid()
      modifies this
      ensures Valid()
      ensures sent.None? <==> !CanSubmit(old(rating), old(comment))
      ensures sent.Some? ==> sent.value == Payload(movieId, old(rating), old(comment))
      ensures sent.Some? ==> sent.value.rating in StarValues
      ensures sent.Some? && succeeds ==> rating == 0 && comment == ""
      ensures sent.None? || !succeeds ==> rating == old(rating) && comment == old(comment)
    {
      if rating == 0 || Trim(comment) == "" {
        return None;
      }
      sent := Some(Payload(movieId, rating, comment));
      if succeeds {
        rating := 0;
        comment := "";
      }
    }
  }
}
