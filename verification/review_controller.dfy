/** The review endpoints: adding a review (one per author and perfume), deleting one with
    its comments, toggling a like, a user's feed of friends' reviews, and the most recent
    reviews. */
module ReviewController {
  import opened Common
  import opened Text
  import opened Sorting
  import opened Store
  import ReviewItem

  datatype CreateReviewRequest = CreateReviewRequest(perfumeId: nat, userId: nat, text: string, rating: int)

  /** Whether `author` has already reviewed `subject` (`existsByAuthorAndSubject`). */
  predicate Reviewed(st: Store, author: nat, subject: nat) {
    exists i | 0 <= i < |st.reviews| :: st.reviews[i].author == author && st.reviews[i].subject == subject
  }

  /** The range of a Java `int`: a request parameter or JSON field declared `int` that
      does not fit is refused with a 400 while the request is bound, before the controller
      runs. */
  const JavaIntMin: int := -0x8000_0000
  const JavaIntMax: int := 0x7fff_ffff

  predicate IsJavaInt(n: int) {
    JavaIntMin <= n <= JavaIntMax
  }

  /** `addReview`: a rating outside the Java `int` range is refused with a 400 before the
      controller runs; then an unknown perfume, then an unknown user, fails with the id in the
      message; a second review of the same perfume by the same author is a conflict; otherwise
      a new review with the next id, the request's text and rating, the current time and no
      likes is stored after the existing ones. */
  function AddReview(st: Store, req: CreateReviewRequest, now: int): (r: (Store, Reply<string>))
    ensures !IsJavaInt(req.rating) ==> r == (st, Failure(BadRequest, ""))
    ensures IsJavaInt(req.rating) && req.perfumeId !in st.perfumes ==>
      r == (st, Failure(ServerError, "Nie znaleziono perfum o ID: " + NatToString(req.perfumeId)))
    ensures IsJavaInt(req.rating) && req.perfumeId in st.perfumes && req.userId !in st.users ==>
      r == (st, Failure(ServerError, "Nie znaleziono użytkownika o ID: " + NatToString(req.userId)))
    ensures IsJavaInt(req.rating) && req.perfumeId in st.perfumes && req.userId in st.users && Reviewed(st, req.userId, req.perfumeId) ==>
      r == (st, Failure(Conflict, "Już dodałeś recenzję dla perfum: " + st.perfumes[req.perfumeId].name))
    ensures r.1.Success? <==>
      IsJavaInt(req.rating) && req.perfumeId in st.perfumes && req.userId in st.users && !Reviewed(st, req.userId, req.perfumeId)
    ensures r.1.Success? ==> r.1 == Success(Created, "Recenzja dodana pomyślnie!")
    ensures r.1.Success? ==>
      && r.0.users == st.users && r.0.perfumes == st.perfumes && r.0.comments == st.comments
      && |r.0.reviews| == |st.reviews| + 1 && r.0.reviews[..|st.reviews|] == st.reviews
      && r.0.nextReviewId == st.nextReviewId + 1
    ensures r.1.Success? ==>
      var added := r.0.reviews[|st.reviews|];
      && added.id == st.nextReviewId && added.author == req.userId && added.subject == req.perfumeId
      && added.text == req.text && added.rating == req.rating && added.createdAt == now && added.likes == {}
  {
    if !IsJavaInt(req.rating) then
      (st, Failure(BadRequest, ""))
    else if req.perfumeId !in st.perfumes then
      (st, Failure(ServerError, "Nie znaleziono perfum o ID: " + NatToString(req.perfumeId)))
    else if req.userId !in st.users then
      (st, Failure(ServerError, "Nie znaleziono użytkownika o ID: " + NatToString(req.userId)))
    else if Reviewed(st, req.userId, req.perfumeId) then
      (st, Failure(Conflict, "Już dodałeś recenzję dla perfum: " + st.perfumes[req.perfumeId].name))
    else
      var review := Review(st.nextReviewId, req.rating, req.text, now, req.userId, req.perfumeId, {});
      (st.(reviews := st.reviews + [review], nextReviewId := st.nextReviewId + 1), Success(Created, "Recenzja dodana pomyślnie!"))
  }

  /** Adding a review keeps the store valid and keeps every author to one review per
      perfume. */
  lemma AddReviewPreservesValid(st: Store, req: CreateReviewRequest, now: int)
    requires Valid(st)
    ensures Valid(AddReview(st, req, now).0)
    ensures OneReviewPerAuthorAndSubject(st) ==> OneReviewPerAuthorAndSubject(AddReview(st, req, now).0)
  {
    if AddReview(st, req, now).1.Success? {
      var rv := Review(st.nextReviewId, req.rating, req.text, now, req.userId, req.perfumeId, {});
      AddReviewSaves(st, req, now);
      AppendReviewKeepsValid(st, rv);
      if OneReviewPerAuthorAndSubject(st) {
        AddReviewKeepsOnePerAuthor(st, req, now);
      }
    }
  }

  /** A successful add appends the new review and uses up its id. */
  lemma AddReviewSaves(st: Store, req: CreateReviewRequest, now: int)
    requires AddReview(st, req, now).1.Success?
    ensures AddReview(st, req, now).0 == st.(
      reviews := st.reviews + [Review(st.nextReviewId, req.rating, req.text, now, req.userId, req.perfumeId, {})],
      nextReviewId := st.nextReviewId + 1)
  {
  }

  lemma AddReviewKeepsOnePerAuthor(st: Store, req: CreateReviewRequest, now: int)
    requires AddReview(st, req, now).1.Success? && OneReviewPerAuthorAndSubject(st)
    ensures OneReviewPerAuthorAndSubject(AddReview(st, req, now).0)
  {
    var t := AddReview(st, req, now).0;
    assert forall i | 0 <= i < |st.reviews| :: t.reviews[i] == st.reviews[i];
  }

  /** Once a review is added, the same author adding another for the same perfume is refused
      as a conflict (or, with a rating that does not bind, as a bad request) and changes
      nothing. */
  lemma SecondReviewConflicts(st: Store, req: CreateReviewRequest, again: CreateReviewRequest, now: int, later: int)
    requires AddReview(st, req, now).1.Success?
    requires again.userId == req.userId && again.perfumeId == req.perfumeId
    ensures var t := AddReview(st, req, now).0;
      IsJavaInt(again.rating) ==>
        AddReview(t, again, later) == (t, Failure(Conflict, "Już dodałeś recenzję dla perfum: " + st.perfumes[req.perfumeId].name))
    ensures var t := AddReview(st, req, now).0;
      !IsJavaInt(again.rating) ==> AddReview(t, again, later) == (t, Failure(BadRequest, ""))
  {
    var t := AddReview(st, req, now).0;
    assert t.reviews[|st.reviews|].author == req.userId && t.reviews[|st.reviews|].subject == req.perfumeId;
    assert Reviewed(t, req.userId, req.perfumeId);
  }

  /** The reviews other than the one with id `id`, in order. */
  function WithoutReview(rs: seq<Review>, id: nat): (out: seq<Review>)
    ensures forall r :: r in out <==> r in rs && r.id != id
    ensures |out| <= |rs|
  {
    if |rs| == 0 then []
    else (if rs[0].id != id then [rs[0]] else []) + WithoutReview(rs[1..], id)
  }

  /** The comments not attached to review `id`, in order. */
  function WithoutCommentsOf(cs: seq<Comment>, id: nat): (out: seq<Comment>)
    ensures forall c :: c in out <==> c in cs && c.review != id
    ensures |out| <= |cs|
  {
    if |cs| == 0 then []
    else (if cs[0].review != id then [cs[0]] else []) + WithoutCommentsOf(cs[1..], id)
  }

  lemma {:induction false} WithoutReviewKeepsDistinct(rs: seq<Review>, id: nat)
    requires DistinctReviewIds(rs)
    ensures DistinctReviewIds(WithoutReview(rs, id))
  {
    if |rs| > 0 {
      var rest := WithoutReview(rs[1..], id);
      WithoutReviewKeepsDistinct(rs[1..], id);
      if rs[0].id != id {
        forall j | 0 <= j < |rest|
          ensures rs[0].id != rest[j].id
        {
          assert rest[j] in rs[1..];
        }
      }
    }
  }

  lemma {:induction false} WithoutCommentsKeepsDistinct(cs: seq<Comment>, id: nat)
    requires DistinctCommentIds(cs)
    ensures DistinctCommentIds(WithoutCommentsOf(cs, id))
  {
    if |cs| > 0 {
      var rest := WithoutCommentsOf(cs[1..], id);
      WithoutCommentsKeepsDistinct(cs[1..], id);
      if cs[0].review != id {
        forall j | 0 <= j < |rest|
          ensures cs[0].id != rest[j].id
        {
          assert rest[j] in cs[1..];
        }
      }
    }
  }

  /** `deleteReview`: an unknown id is "not found" with no body; otherwise the review goes,
      and the cascade takes its comments (and its likes) with it. */
  function DeleteReview(st: Store, id: nat): (r: (Store, Reply<string>))
    ensures !HasReview(st, id) ==> r == (st, Failure(NotFound, ""))
    ensures HasReview(st, id) ==> r.1 == Success(Ok, "Recenzja została usunięta.")
    ensures HasReview(st, id) ==> r.0.users == st.users && r.0.perfumes == st.perfumes
    ensures HasReview(st, id) ==> !HasReview(r.0, id)
    ensures HasReview(st, id) ==> forall rv :: rv in r.0.reviews <==> rv in st.reviews && rv.id != id
    ensures HasReview(st, id) ==> forall c :: c in r.0.comments <==> c in st.comments && c.review != id
  {
    if !HasReview(st, id) then (st, Failure(NotFound, ""))
    else
      var t := st.(reviews := WithoutReview(st.reviews, id), comments := WithoutCommentsOf(st.comments, id));
      (t, Success(Ok, "Recenzja została usunięta."))
  }

  /** Deleting a review keeps the store valid: no comment is left pointing at it. */
  lemma DeleteReviewPreservesValid(st: Store, id: nat)
    requires Valid(st)
    ensures Valid(DeleteReview(st, id).0)
    ensures OneReviewPerAuthorAndSubject(st) ==> OneReviewPerAuthorAndSubject(DeleteReview(st, id).0)
  {
    if HasReview(st, id) {
      DeleteReviewSaves(st, id);
      CascadeKeepsValid(st, id);
      if OneReviewPerAuthorAndSubject(st) {
        DeleteReviewKeepsOnePerAuthor(st, id);
      }
    }
  }

  lemma DeleteReviewKeepsOnePerAuthor(st: Store, id: nat)
    requires HasReview(st, id) && OneReviewPerAuthorAndSubject(st)
    ensures OneReviewPerAuthorAndSubject(DeleteReview(st, id).0)
  {
    var rs := WithoutReview(st.reviews, id);
    DeleteReviewSaves(st, id);
    assert OnePerAuthorAndSubject(st.reviews);
    WithoutReviewKeepsOnePerAuthor(st.reviews, id);
    assert OnePerAuthorAndSubject(rs);
  }

  /** A successful delete keeps the other reviews and the comments not attached to it. */
  lemma DeleteReviewSaves(st: Store, id: nat)
    requires HasReview(st, id)
    ensures DeleteReview(st, id).0
      == st.(reviews := WithoutReview(st.reviews, id), comments := WithoutCommentsOf(st.comments, id))
  {
  }

  /** Dropping a review together with its comments keeps the store valid. */
  lemma CascadeKeepsValid(st: Store, id: nat)
    requires Valid(st)
    ensures Valid(st.(reviews := WithoutReview(st.reviews, id), comments := WithoutCommentsOf(st.comments, id)))
  {
    var rs := WithoutReview(st.reviews, id);
    var cs := WithoutCommentsOf(st.comments, id);
    WithoutReviewKeepsDistinct(st.reviews, id);
    WithoutCommentsKeepsDistinct(st.comments, id);
    CommentsStayAttached(st, id);
    KeepReviewsKeepsValid(st, rs, cs);
  }

  /** After the cascade every remaining comment is on a remaining review. */
  lemma CommentsStayAttached(st: Store, id: nat)
    requires forall c | c in st.comments :: HasReview(st, c.review)
    ensures forall c | c in WithoutCommentsOf(st.comments, id) ::
      HasReview(st.(reviews := WithoutReview(st.reviews, id)), c.review)
  {
    var rs := WithoutReview(st.reviews, id);
    forall c | c in WithoutCommentsOf(st.comments, id)
      ensures HasReview(st.(reviews := rs), c.review)
    {
      assert c in st.comments && c.review != id;
      var i :| 0 <= i < |st.reviews| && st.reviews[i].id == c.review;
      var r := st.reviews[i];
      assert r in rs;
      var k :| 0 <= k < |rs| && rs[k] == r;
      assert (st.(reviews := rs)).reviews[k].id == c.review;
    }
  }

  predicate OnePerAuthorAndSubject(rs: seq<Review>) {
    forall i, j | 0 <= i < j < |rs| :: !(rs[i].author == rs[j].author && rs[i].subject == rs[j].subject)
  }

  lemma {:induction false} WithoutReviewKeepsOnePerAuthor(rs: seq<Review>, id: nat)
    requires OnePerAuthorAndSubject(rs)
    ensures OnePerAuthorAndSubject(WithoutReview(rs, id))
  {
    if |rs| > 0 {
      var rest := WithoutReview(rs[1..], id);
      WithoutReviewKeepsOnePerAuthor(rs[1..], id);
      if rs[0].id != id {
        forall j | 0 <= j < |rest|
          ensures !(rs[0].author == rest[j].author && rs[0].subject == rest[j].subject)
        {
          assert rest[j] in rs[1..];
        }
      }
    }
  }

  /** The like set after `userId` toggles its like. */
  function ToggledLikes(likes: set<nat>, userId: nat): (r: set<nat>)
    ensures userId in r <==> userId !in likes
    ensures forall u | u != userId :: u in r <==> u in likes
  {
    if userId in likes then likes - {userId} else likes + {userId}
  }

  /** `toggleLike`: an unknown review, then an unknown user, fails; otherwise the user's
      like on that review is added or removed, nothing else changes, and the reply is the new
      number of likes. */
  function ToggleLike(st: Store, reviewId: nat, userId: nat): (r: (Store, Reply<nat>))
    ensures !HasReview(st, reviewId) ==> r == (st, Failure(ServerError, "Recenzja nie istnieje"))
    ensures HasReview(st, reviewId) && userId !in st.users ==> r == (st, Failure(ServerError, "Użytkownik nie istnieje"))
    ensures r.1.Success? <==> HasReview(st, reviewId) && userId in st.users
    ensures r.1.Success? ==>
      var i := FindReview(st.reviews, reviewId);
      && i < |st.reviews| && |r.0.reviews| == |st.reviews| && r.0.reviews[i].id == reviewId
      && r.0 == st.(reviews := st.reviews[i := st.reviews[i].(likes := r.0.reviews[i].likes)])
      && (userId in r.0.reviews[i].likes <==> userId !in st.reviews[i].likes)
      && (forall u | u != userId :: u in r.0.reviews[i].likes <==> u in st.reviews[i].likes)
      && r.1 == Success(Ok, LikesCount(r.0.reviews[i]))
      && LikesCount(r.0.reviews[i]) == LikesCount(st.reviews[i]) + (if userId in st.reviews[i].likes then -1 else 1)
  {
    var i := FindReview(st.reviews, reviewId);
    if i == |st.reviews| then (st, Failure(ServerError, "Recenzja nie istnieje"))
    else if userId !in st.users then (st, Failure(ServerError, "Użytkownik nie istnieje"))
    else
      var review := st.reviews[i];
      var liked := review.(likes := ToggledLikes(review.likes, userId));
      LikeCountsOncePerUser(review, userId);
      (st.(reviews := st.reviews[i := liked]), Success(Ok, LikesCount(liked)))
  }

  /** Liking and unliking (or the reverse) gives back the very same store. */
  lemma ToggleLikeTwice(st: Store, reviewId: nat, userId: nat)
    ensures ToggleLike(ToggleLike(st, reviewId, userId).0, reviewId, userId).0 == st
  {
    var once := ToggleLike(st, reviewId, userId);
    if once.1.Success? {
      var i := FindReview(st.reviews, reviewId);
      ToggleLikeSaves(st, reviewId, userId);
      var rs1 := ToggledAt(st.reviews, i, userId);
      assert once.0 == st.(reviews := rs1);
      assert FindReview(rs1, reviewId) == i by {
        FindFirst(st.reviews, rs1, reviewId);
      }
      ToggleLikeSaves(once.0, reviewId, userId);
      ToggledAtTwice(st.reviews, i, userId);
    }
  }

  /** The reviews with the like of `userId` on the one at position `i` toggled. */
  function ToggledAt(rs: seq<Review>, i: nat, userId: nat): (out: seq<Review>)
    requires i < |rs|
    ensures |out| == |rs| && forall k | 0 <= k < |rs| :: out[k].id == rs[k].id
    ensures forall k | 0 <= k < |rs| && k != i :: out[k] == rs[k]
  {
    rs[i := rs[i].(likes := ToggledLikes(rs[i].likes, userId))]
  }

  lemma ToggledAtTwice(rs: seq<Review>, i: nat, userId: nat)
    requires i < |rs|
    ensures ToggledAt(ToggledAt(rs, i, userId), i, userId) == rs
  {
    var once := ToggledAt(rs, i, userId);
    assert ToggledLikes(once[i].likes, userId) == rs[i].likes;
    assert once[i].(likes := rs[i].likes) == rs[i];
  }

  /** A successful toggle saves the review with the toggled like set at its place. */
  lemma ToggleLikeSaves(st: Store, reviewId: nat, userId: nat)
    requires HasReview(st, reviewId) && userId in st.users
    ensures var i := FindReview(st.reviews, reviewId);
      i < |st.reviews| && ToggleLike(st, reviewId, userId).0 == st.(reviews := ToggledAt(st.reviews, i, userId))
  {
  }

  /** The search for a review depends on the ids alone. */
  lemma {:induction false} FindFirst(a: seq<Review>, b: seq<Review>, id: nat)
    requires |a| == |b| && forall k | 0 <= k < |a| :: a[k].id == b[k].id
    ensures FindReview(a, id) == FindReview(b, id)
  {
    if |a| > 0 && a[0].id != id {
      FindFirst(a[1..], b[1..], id);
    }
  }

  /** Toggling a like keeps the store valid. */
  lemma ToggleLikePreservesValid(st: Store, reviewId: nat, userId: nat)
    requires Valid(st)
    ensures Valid(ToggleLike(st, reviewId, userId).0)
  {
    if HasReview(st, reviewId) && userId in st.users {
      var i := FindReview(st.reviews, reviewId);
      var before := st.reviews[i];
      var rv := before.(likes := ToggledLikes(before.likes, userId));
      assert ToggleLike(st, reviewId, userId).0 == st.(reviews := st.reviews[i := rv]);
      assert before in st.reviews;
      ReplaceReviewKeepsValid(st, i, rv);
    }
  }

  /** Toggling a like never lets an author hold two reviews of one perfume. */
  lemma ToggleLikeKeepsOneReviewPerAuthor(st: Store, reviewId: nat, userId: nat)
    requires OneReviewPerAuthorAndSubject(st)
    ensures OneReviewPerAuthorAndSubject(ToggleLike(st, reviewId, userId).0)
  {
    if HasReview(st, reviewId) && userId in st.users {
      var i := FindReview(st.reviews, reviewId);
      var before := st.reviews[i];
      var rv := before.(likes := ToggledLikes(before.likes, userId));
      assert ToggleLike(st, reviewId, userId).0 == st.(reviews := st.reviews[i := rv]);
    }
  }

  /** The review widget's optimistic update agrees with the server: when the widget's state
      reflects the stored review (liked exactly when the user's like is stored, the count
      being the number of likes), the state after its optimistic toggle reflects the stored
      review after the server's toggle. */
  lemma OptimisticLikeMatchesServer(st: Store, reviewId: nat, userId: nat, s: ReviewItem.LikeState)
    requires ToggleLike(st, reviewId, userId).1.Success?
    requires var rv := st.reviews[FindReview(st.reviews, reviewId)];
      s == ReviewItem.LikeState(userId in rv.likes, LikesCount(rv))
    ensures var rv := ToggleLike(st, reviewId, userId).0.reviews[FindReview(st.reviews, reviewId)];
      ReviewItem.Optimistic(s) == ReviewItem.LikeState(userId in rv.likes, LikesCount(rv))
    ensures ReviewItem.Optimistic(s).likesCount == ToggleLike(st, reviewId, userId).1.body
  {
  }

  /** Reviews ordered by time, newest first. */
  function CreatedAt(r: Review): real {
    r.createdAt as real
  }

  /** The reviews whose author is among `authors` (`findByAuthorIn`). */
  function WrittenBy(authors: seq<nat>): Review -> bool {
    (r: Review) => r.author in authors
  }

  /** `getMyFeed`: an unknown user fails; a user without friends gets an empty feed;
      otherwise the reviews written by the user's friends, newest first. The order among
      reviews created at the same moment is left to the database; the model fixes one. */
  function GetMyFeed(st: Store, userId: nat): (r: Reply<seq<Review>>)
    ensures r.Failure? <==> userId !in st.users
    ensures r.Failure? ==> r == Failure(ServerError, "User not found")
    ensures r.Success? ==> r.status == Ok && SortedDesc(r.body, CreatedAt)
    ensures r.Success? && st.users[userId].friends == [] ==> r.body == []
    ensures r.Success? ==> forall rv | rv in r.body :: rv.author in st.users[userId].friends
    ensures r.Success? ==> forall rv :: rv in r.body <==> rv in st.reviews && rv.author in st.users[userId].friends
    ensures r.Success? ==> multiset(r.body) == multiset(Filter(st.reviews, WrittenBy(st.users[userId].friends)))
  {
    if userId !in st.users then Failure(ServerError, "User not found")
    else
      var friends := st.users[userId].friends;
      if |friends| == 0 then
        assert forall rv | rv in st.reviews :: !WrittenBy(friends)(rv);
        Success(Ok, [])
      else
        var mine := Filter(st.reviews, WrittenBy(friends));
        var feed := SortDesc(mine, CreatedAt);
        assert forall rv :: rv in feed <==> rv in st.reviews && rv.author in friends by {
          forall rv
            ensures rv in feed <==> rv in st.reviews && rv.author in friends
          {
            SameMembers(feed, mine, rv);
            FilterMembers(st.reviews, WrittenBy(friends), rv);
          }
        }
        Success(Ok, feed)
  }

  const DefaultRecentLimit: int := 6

  /** All reviews, newest first (`findAllByOrderByCreatedAtDesc`). */
  function NewestFirst(st: Store): (r: seq<Review>)
    ensures SortedDesc(r, CreatedAt) && multiset(r) == multiset(st.reviews)
  {
    SortDesc(st.reviews, CreatedAt)
  }

  /** `getRecentReviews`: the newest `limit` reviews (six when no limit is given), all of
      them when there are no more than that; a limit outside the Java `int` range is refused
      with a 400 before the controller runs, and a negative one makes `subList` throw. */
  function GetRecentReviews(st: Store, limit: Option<int>): (r: Reply<seq<Review>>)
    ensures var n := limit.GetOr(DefaultRecentLimit);
      r.Failure? <==> n < 0 || JavaIntMax < n
    ensures var n := limit.GetOr(DefaultRecentLimit);
      !IsJavaInt(n) ==> r == Failure(BadRequest, "")
    ensures var n := limit.GetOr(DefaultRecentLimit);
      IsJavaInt(n) && n < 0 ==> r == Failure(ServerError, "fromIndex(0) > toIndex(" + IntToString(n) + ")")
    ensures var n := limit.GetOr(DefaultRecentLimit);
      r.Success? ==> r.status == Ok && |r.body| == (if n < |st.reviews| then n else |st.reviews|)
    ensures r.Success? ==> r.body == NewestFirst(st)[..|r.body|]
    ensures r.Success? ==> SortedDesc(r.body, CreatedAt) && multiset(r.body) <= multiset(st.reviews)
  {
    var n := limit.GetOr(DefaultRecentLimit);
    var all := NewestFirst(st);
    if !IsJavaInt(n) then Failure(BadRequest, "")
    else if |all| > n then
      if n < 0 then Failure(ServerError, "fromIndex(0) > toIndex(" + IntToString(n) + ")")
      else
        TakeIsSubMultiset(all, n);
        Success(Ok, Take(all, n))
    else
      Success(Ok, all)
  }

  /** No review left out of the recent list is newer than one in it. */
  lemma RecentAreNewest(st: Store, limit: Option<int>)
    requires GetRecentReviews(st, limit).Success?
    ensures var shown := GetRecentReviews(st, limit).body;
      forall i, y | 0 <= i < |shown| && y in multiset(st.reviews) - multiset(shown) :: shown[i].createdAt >= y.createdAt
  {
    var all := NewestFirst(st);
    var shown := GetRecentReviews(st, limit).body;
    var n := |shown|;
    assert shown == Take(all, n);
    TakeKeepsHighest(all, CreatedAt, n);
    forall i, y | 0 <= i < |shown| && y in multiset(st.reviews) - multiset(shown)
      ensures shown[i].createdAt >= y.createdAt
    {
      assert y in multiset(all) - multiset(Take(all, n));
      assert CreatedAt(Take(all, n)[i]) >= CreatedAt(y);
    }
  }
}
