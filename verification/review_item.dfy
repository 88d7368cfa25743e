/** The review card: its like button with an optimistic update that is reverted when the
    call fails, the comment box, and the controls only an administrator is offered. */
module ReviewItem {
  import opened Common
  import opened Text
  import Api

  /** Whether some entry of `likes` carries `id` (`likes.some(L => L.id === id)`). */
  function HasId(likes: seq<Api.UserSummary>, id: int): (b: bool)
    ensures b <==> exists i | 0 <= i < |likes| :: likes[i].id == id
  {
    if |likes| == 0 then false
    else if likes[0].id == id then true
    else
      var b := HasId(likes[1..], id);
      assert forall i | 1 <= i < |likes| :: likes[i] == likes[1..][i - 1];
      b
  }

  datatype LikeState = LikeState(liked: bool, likesCount: int)

  /** The state the card starts in: liked when the current user is among the likes, and the
      count the server reported (0 when it sent none). */
  function InitialLikeState(review: Api.Review, user: Option<Api.AuthUser>): (s: LikeState)
    ensures s.liked <==> (user.Some? && review.likes.Some? &&
      exists i | 0 <= i < |review.likes.value| :: review.likes.value[i].id == user.value.id)
    ensures review.likesCount.None? ==> s.likesCount == 0
    ensures review.likesCount.Some? ==> s.likesCount == review.likesCount.value
  {
    var liked := user.Some? && review.likes.Some? && HasId(review.likes.value, user.value.id);
    LikeState(liked, review.likesCount.GetOr(0))
  }

  /** The optimistic step: flip `liked`, then count one up if now liked, one down otherwise. */
  function Optimistic(s: LikeState): LikeState {
    var isNowLiked := !s.liked;
    LikeState(isNowLiked, if isNowLiked then s.likesCount + 1 else s.likesCount - 1)
  }

  /** The compensation run when the call fails, given the value `isNowLiked` had. */
  function Revert(s: LikeState, isNowLiked: bool): LikeState {
    LikeState(!isNowLiked, if !isNowLiked then s.likesCount + 1 else s.likesCount - 1)
  }

  /** The compensation undoes the optimistic step exactly. */
  lemma RevertUndoesOptimistic(s: LikeState)
    ensures Revert(Optimistic(s), !s.liked) == s
  {
  }

  /** Two optimistic steps in a row cancel out. */
  lemma OptimisticTwice(s: LikeState)
    ensures Optimistic(Optimistic(s)) == s
  {
  }

  datatype LikeRequest = LikeRequest(reviewId: int, userId: int)

  /** `handleToggleLike`, given how the like call ends. */
  function HandleToggleLike(s: LikeState, user: Option<Api.AuthUser>, reviewId: int, call: Answer<()>)
    : (r: (LikeState, Option<LikeRequest>))
    ensures user.None? ==> r.0 == s && r.1.None?
    ensures user.Some? ==> r.1 == Some(LikeRequest(reviewId, user.value.id))
    ensures user.Some? && call.Threw? ==> r.0 == s
    ensures user.Some? && call.Returned? ==> r.0.liked == !s.liked
    ensures user.Some? && call.Returned? && r.0.liked ==> r.0.likesCount == s.likesCount + 1
    ensures user.Some? && call.Returned? && !r.0.liked ==> r.0.likesCount == s.likesCount - 1
  {
    match user
    case None => (s, None)
    case Some(u) =>
      var isNowLiked := !s.liked;
      var optimistic := Optimistic(s);
      var request := Some(LikeRequest(reviewId, u.id));
      match call
      case Returned(_) => (optimistic, request)
      case Threw(_) => (Revert(optimistic, isNowLiked), request)
  }

  datatype CommentForm = CommentForm(text: string, submitting: bool)

  datatype CreateCommentRequest = CreateCommentRequest(reviewId: int, userId: int, text: string)

  /** `handleAddComment`, given how the create call ends. */
  function HandleAddComment(form: CommentForm, user: Option<Api.AuthUser>, reviewId: int, call: Answer<()>)
    : (r: (CommentForm, Option<CreateCommentRequest>))
    ensures r.1.None? <==> user.None? || AllSpace(form.text)
    ensures r.1.None? ==> r.0 == form
    ensures r.1.Some? ==> r.1.value == CreateCommentRequest(reviewId, user.value.id, form.text)
    ensures r.1.Some? ==> !r.0.submitting
    ensures r.1.Some? && call.Returned? ==> r.0.text == ""
    ensures r.1.Some? && call.Threw? ==> r.0.text == form.text
  {
    TrimEmptyIffAllSpace(form.text);
    if user.None? || Trim(form.text) == "" then (form, None)
    else
      var request := Some(CreateCommentRequest(reviewId, user.value.id, form.text));
      match call
      case Returned(_) => (CommentForm("", false), request)
      case Threw(_) => (CommentForm(form.text, false), request)
  }

  predicate IsAdmin(user: Option<Api.AuthUser>) {
    user.Some? && user.value.role == "ADMIN"
  }

  /** The interactive elements of an opened card. */
  datatype Control = LikeButton | CommentsToggle | DeleteReview | DeleteComment(commentId: int) | CommentInput

  /** The controls a card offers: deleting the review and deleting each comment only to an
      administrator, the comment box only to a logged-in user, liking and opening comments to
      everyone. */
  function OfferedControls(user: Option<Api.AuthUser>, comments: seq<Api.Comment>): (cs: set<Control>)
    ensures LikeButton in cs && CommentsToggle in cs
    ensures DeleteReview in cs <==> user.Some? && user.value.role == "ADMIN"
    ensures CommentInput in cs <==> user.Some?
    ensures forall id: int :: DeleteComment(id) in cs <==>
      user.Some? && user.value.role == "ADMIN" && exists i | 0 <= i < |comments| :: comments[i].id == id
  {
    var admin := if IsAdmin(user) then {DeleteReview} + set i | 0 <= i < |comments| :: DeleteComment(comments[i].id) else {};
    var input := if user.Some? then {CommentInput} else {};
    {LikeButton, CommentsToggle} + admin + input
  }
}
