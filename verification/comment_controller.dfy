/** The comment endpoints: adding a comment to a review and deleting one. */
module CommentController {
  import opened Common
  import opened Store

  datatype CreateCommentRequest = CreateCommentRequest(reviewId: nat, userId: nat, text: string)

  /** `addComment`: an unknown review, then an unknown user, fails; otherwise a comment with
      the next id, the request's text, the current time and the given author is stored after
      the existing ones. */
  function AddComment(st: Store, req: CreateCommentRequest, now: int): (r: (Store, Reply<string>))
    ensures !HasReview(st, req.reviewId) ==> r == (st, Failure(ServerError, "Recenzja nie istnieje"))
    ensures HasReview(st, req.reviewId) && req.userId !in st.users ==> r == (st, Failure(ServerError, "Użytkownik nie istnieje"))
    ensures r.1.Success? <==> HasReview(st, req.reviewId) && req.userId in st.users
    ensures r.1.Success? ==> r.1 == Success(Ok, "Komentarz dodany!")
    ensures r.1.Success? ==>
      && r.0.users == st.users && r.0.perfumes == st.perfumes && r.0.reviews == st.reviews
      && r.0.comments == st.comments + [Comment(st.nextCommentId, req.text, now, req.userId, req.reviewId)]
      && r.0.nextCommentId == st.nextCommentId + 1
  {
    if !HasReview(st, req.reviewId) then (st, Failure(ServerError, "Recenzja nie istnieje"))
    else if req.userId !in st.users then (st, Failure(ServerError, "Użytkownik nie istnieje"))
    else
      var comment := Comment(st.nextCommentId, req.text, now, req.userId, req.reviewId);
      (st.(comments := st.comments + [comment], nextCommentId := st.nextCommentId + 1), Success(Ok, "Komentarz dodany!"))
  }

  /** Adding a comment keeps the store valid. */
  lemma AddCommentPreservesValid(st: Store, req: CreateCommentRequest, now: int)
    requires Valid(st)
    ensures Valid(AddComment(st, req, now).0)
  {
    if AddComment(st, req, now).1.Success? {
      AppendCommentKeepsValid(st, Comment(st.nextCommentId, req.text, now, req.userId, req.reviewId));
    }
  }

  /** The comments other than the one with id `id`, in order. */
  function WithoutComment(cs: seq<Comment>, id: nat): (out: seq<Comment>)
    ensures forall c :: c in out <==> c in cs && c.id != id
    ensures |out| <= |cs|
  {
    if |cs| == 0 then []
    else (if cs[0].id != id then [cs[0]] else []) + WithoutComment(cs[1..], id)
  }

  /** `deleteComment`: an unknown id is "not found" with no body; otherwise that comment
      goes and everything else stays. */
  function DeleteComment(st: Store, id: nat): (r: (Store, Reply<string>))
    ensures !HasComment(st, id) ==> r == (st, Failure(NotFound, ""))
    ensures HasComment(st, id) ==> r.1 == Success(Ok, "Komentarz usunięty.")
    ensures HasComment(st, id) ==> r.0.(comments := st.comments) == st
    ensures HasComment(st, id) ==> !HasComment(r.0, id)
    ensures HasComment(st, id) ==> forall c :: c in r.0.comments <==> c in st.comments && c.id != id
  {
    if !HasComment(st, id) then (st, Failure(NotFound, ""))
    else (st.(comments := WithoutComment(st.comments, id)), Success(Ok, "Komentarz usunięty."))
  }

  lemma {:induction false} WithoutCommentKeepsDistinct(cs: seq<Comment>, id: nat)
    requires DistinctCommentIds(cs)
    ensures DistinctCommentIds(WithoutComment(cs, id))
  {
    if |cs| > 0 {
      var rest := WithoutComment(cs[1..], id);
      WithoutCommentKeepsDistinct(cs[1..], id);
      if cs[0].id != id {
        forall j | 0 <= j < |rest|
          ensures cs[0].id != rest[j].id
        {
          assert rest[j] in cs[1..];
        }
      }
    }
  }

  /** Deleting a comment keeps the store valid. */
  lemma DeleteCommentPreservesValid(st: Store, id: nat)
    requires Valid(st)
    ensures Valid(DeleteComment(st, id).0)
  {
    if HasComment(st, id) {
      WithoutCommentKeepsDistinct(st.comments, id);
      KeepCommentsKeepsValid(st, WithoutComment(st.comments, id));
    }
  }

  /** Removing the id of the last comment, when no other comment has it, gives the others
      back. */
  lemma {:induction false} WithoutLastComment(cs: seq<Comment>, c: Comment)
    requires forall d | d in cs :: d.id != c.id
    ensures WithoutComment(cs + [c], c.id) == cs
    decreases |cs|
  {
    if |cs| == 0 {
      assert WithoutComment([c], c.id) == [] + WithoutComment([], c.id);
    } else {
      assert (cs + [c])[1..] == cs[1..] + [c];
      assert forall d | d in cs[1..] :: d in cs;
      WithoutLastComment(cs[1..], c);
      assert cs == [cs[0]] + cs[1..];
    }
  }

  /** On a valid store, deleting the comment just added gives back the store as it was,
      except that the comment id is used up. */
  lemma AddThenDeleteComment(st: Store, req: CreateCommentRequest, now: int)
    requires Valid(st)
    requires AddComment(st, req, now).1.Success?
    ensures DeleteComment(AddComment(st, req, now).0, st.nextCommentId) ==
      (st.(nextCommentId := st.nextCommentId + 1), Success(Ok, "Komentarz usunięty."))
  {
    var t := AddComment(st, req, now).0;
    var c := Comment(st.nextCommentId, req.text, now, req.userId, req.reviewId);
    assert t.comments[|st.comments|] == c;
    assert HasComment(t, st.nextCommentId);
    WithoutLastComment(st.comments, c);
  }
}
