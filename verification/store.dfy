/** The backend's persistent state as one immutable value: users, perfumes, reviews with
    their like sets, and comments, linked by id, together with the replies controllers send
    and the integrity the database and the controllers keep. */
module Store {
  import opened Common

  datatype Role = USER | ADMIN

  /** `Role.name()`. */
  function RoleName(r: Role): string {
    match r
    case USER => "USER"
    case ADMIN => "ADMIN"
  }

  /** A user; the three lists hold perfume ids (wishlist, owned) and user ids (friends). */
  datatype AppUser = AppUser(
    id: nat,
    username: string,
    email: string,
    password: string,
    role: Role,
    wishlist: seq<nat>,
    owned: seq<nat>,
    friends: seq<nat>)

  datatype Perfume = Perfume(id: nat, name: string)

  /** A review; `likes` holds the ids of the users who like it. */
  datatype Review = Review(
    id: nat,
    rating: int,
    text: string,
    createdAt: int,
    author: nat,
    subject: nat,
    likes: set<nat>)

  datatype Comment = Comment(id: nat, text: string, createdAt: int, author: nat, review: nat)

  /** The database: users and perfumes by id, reviews and comments in the order the
      repository returns them, and the next id each identity column hands out. */
  datatype Store = Store(
    users: map<nat, AppUser>,
    perfumes: map<nat, Perfume>,
    reviews: seq<Review>,
    comments: seq<Comment>,
    nextUserId: nat,
    nextReviewId: nat,
    nextCommentId: nat)

  datatype Status = Ok | Created | BadRequest | NotFound | Conflict | ServerError

  /** The HTTP status code of each reply. */
  function Code(s: Status): (c: int)
    ensures 200 <= c < 600
    ensures c < 300 <==> s == Ok || s == Created
  {
    match s
    case Ok => 200
    case Created => 201
    case BadRequest => 400
    case NotFound => 404
    case Conflict => 409
    case ServerError => 500
  }

  /** A controller's reply: a body with a success status, or an error status with a message
      (an uncaught exception becomes a 500 carrying the exception's message). */
  datatype Reply<T> = Success(status: Status, body: T) | Failure(status: Status, message: string)

  /** `getLikesCount`. */
  function LikesCount(r: Review): nat {
    |r.likes|
  }

  /** Liking is per user: adding a user's like raises the count by one the first time and
      not at all after that; removing it lowers the count by one exactly when it was
      there. */
  lemma LikeCountsOncePerUser(r: Review, u: nat)
    ensures LikesCount(r.(likes := r.likes + {u})) == LikesCount(r) + (if u in r.likes then 0 else 1)
    ensures LikesCount(r.(likes := r.likes - {u})) == LikesCount(r) - (if u in r.likes then 1 else 0)
  {
    if u in r.likes {
      assert r.likes + {u} == r.likes;
      assert r.likes == (r.likes - {u}) + {u};
    } else {
      assert r.likes - {u} == r.likes;
    }
  }

  /** Every entry occurs once. */
  predicate NoDup(xs: seq<nat>) {
    forall y | y in xs :: multiset(xs)[y] == 1
  }

  /** The position of the first `x` in `xs`, or `|xs|` when there is none. */
  function IndexOf(xs: seq<nat>, x: nat): (i: nat)
    ensures i <= |xs| && x !in xs[..i]
    ensures i < |xs| ==> xs[i] == x
    ensures i == |xs| ==> x !in xs
  {
    if |xs| == 0 then 0
    else if xs[0] == x then 0
    else
      var j := IndexOf(xs[1..], x);
      assert xs[..j + 1] == [xs[0]] + xs[1..][..j];
      j + 1
  }

  /** `List.remove(Object)`: the first occurrence goes, if there is one, and the other
      entries keep their order. */
  function RemoveFirst(xs: seq<nat>, x: nat): (r: seq<nat>)
    ensures x !in xs ==> r == xs
    ensures x in xs ==> r == xs[..IndexOf(xs, x)] + xs[IndexOf(xs, x) + 1..]
    ensures x in xs ==> multiset(r) == multiset(xs) - multiset{x}
    ensures |r| == if x in xs then |xs| - 1 else |xs|
    ensures forall y | y in r :: y in xs
  {
    var i := IndexOf(xs, x);
    if i < |xs| then
      assert xs == xs[..i] + [x] + xs[i + 1..];
      xs[..i] + xs[i + 1..]
    else xs
  }

  /** The toggle the controllers share: remove when present, append when absent. */
  function Toggle(xs: seq<nat>, x: nat): (r: seq<nat>)
    ensures x in xs ==> r == RemoveFirst(xs, x) && multiset(r) == multiset(xs) - multiset{x}
    ensures x !in xs ==> r == xs + [x]
  {
    if x in xs then RemoveFirst(xs, x) else xs + [x]
  }

  /** On a duplicate-free list a toggle flips the membership of its argument and of nothing
      else, and the list stays duplicate-free. */
  lemma ToggleFlips(xs: seq<nat>, x: nat)
    requires NoDup(xs)
    ensures NoDup(Toggle(xs, x))
    ensures x in Toggle(xs, x) <==> x !in xs
    ensures forall y | y != x :: y in Toggle(xs, x) <==> y in xs
  {
    var r := Toggle(xs, x);
    assert multiset(r) == if x in xs then multiset(xs) - multiset{x} else multiset(xs) + multiset{x};
    forall y
      ensures y in r <==> y in multiset(r)
      ensures y in xs <==> y in multiset(xs)
    {
    }
  }

  /** Toggling twice gives back the same entries; when the value was absent it gives back
      the very same list. */
  lemma ToggleTwice(xs: seq<nat>, x: nat)
    ensures NoDup(xs) ==> multiset(Toggle(Toggle(xs, x), x)) == multiset(xs)
    ensures x !in xs ==> Toggle(Toggle(xs, x), x) == xs
  {
    var once := Toggle(xs, x);
    if x in xs {
      if NoDup(xs) {
        ToggleFlips(xs, x);
        assert multiset(Toggle(once, x)) == multiset(once) + multiset{x};
      }
    } else {
      assert once == xs + [x];
      assert once[..|xs|] == xs;
    }
  }

  predicate HasReview(st: Store, id: nat) {
    exists i | 0 <= i < |st.reviews| :: st.reviews[i].id == id
  }

  predicate HasComment(st: Store, id: nat) {
    exists i | 0 <= i < |st.comments| :: st.comments[i].id == id
  }

  /** The position of the review with id `id`, or `|reviews|` when there is none. */
  function FindReview(reviews: seq<Review>, id: nat): (i: nat)
    ensures i <= |reviews|
    ensures i < |reviews| ==> reviews[i].id == id
    ensures i == |reviews| ==> forall k | 0 <= k < |reviews| :: reviews[k].id != id
  {
    if |reviews| == 0 then 0
    else if reviews[0].id == id then 0
    else
      var j := FindReview(reviews[1..], id);
      assert forall k | 1 <= k < |reviews| :: reviews[k] == reviews[1..][k - 1];
      j + 1
  }

  /** Every user is stored under its own id, below the next id to hand out. */
  ghost predicate UsersKeyed(st: Store) {
    forall k | k in st.users :: st.users[k].id == k && k < st.nextUserId
  }

  ghost predicate PerfumesKeyed(st: Store) {
    forall k | k in st.perfumes :: st.perfumes[k].id == k
  }

  /** No two users share a username. The `findByUsername` check of `register`
      (AuthController.java:30) keeps this, not a declared unique column. */
  ghost predicate UniqueUsernames(st: Store) {
    forall a, b | a in st.users && b in st.users && a != b :: st.users[a].username != st.users[b].username
  }

  /** A user's lists hold existing perfumes and users, each at most once, and never the
      user itself among its friends. The references are foreign keys; the rest is kept by
      the controllers: the `contains` checks before each `add` (AppUserController.java:43, 59
      and 107) and the self-friendship refusal (AppUserController.java:100-102). */
  ghost predicate UserListsValid(st: Store) {
    forall k | k in st.users ::
      && NoDup(st.users[k].wishlist) && NoDup(st.users[k].owned) && NoDup(st.users[k].friends)
      && (forall p | p in st.users[k].wishlist :: p in st.perfumes)
      && (forall p | p in st.users[k].owned :: p in st.perfumes)
      && (forall f | f in st.users[k].friends :: f in st.users && f != k)
  }

  predicate DistinctReviewIds(rs: seq<Review>) {
    forall i, j | 0 <= i < j < |rs| :: rs[i].id != rs[j].id
  }

  predicate DistinctCommentIds(cs: seq<Comment>) {
    forall i, j | 0 <= i < j < |cs| :: cs[i].id != cs[j].id
  }

  /** Reviews have distinct ids below the next one, and refer to existing users and
      perfumes. */
  ghost predicate ReviewsValid(st: Store) {
    && DistinctReviewIds(st.reviews)
    && (forall r | r in st.reviews ::
          r.id < st.nextReviewId && r.author in st.users && r.subject in st.perfumes
          && (forall u | u in r.likes :: u in st.users))
  }

  /** Comments have distinct ids below the next one, and belong to existing reviews and
      users. */
  ghost predicate CommentsValid(st: Store) {
    && DistinctCommentIds(st.comments)
    && (forall c | c in st.comments :: c.id < st.nextCommentId && c.author in st.users && HasReview(st, c.review))
  }

  /** The integrity of the tables: what the database keeps through keys, foreign keys and
      cascades, plus the rules the controllers' own checks keep (no repeated list entries, no
      self-friendship, unique usernames). */
  ghost predicate Valid(st: Store) {
    UsersKeyed(st) && PerfumesKeyed(st) && UniqueUsernames(st) && UserListsValid(st)
    && ReviewsValid(st) && CommentsValid(st)
  }

  /** The store with the record of user `k` saved over the old one. */
  function SaveUser(st: Store, k: nat, u: AppUser): (t: Store)
    requires k in st.users
    ensures t.users.Keys == st.users.Keys && t.users[k] == u
    ensures forall j | j in st.users && j != k :: t.users[j] == st.users[j]
    ensures t.(users := st.users) == st
  {
    st.(users := st.users[k := u])
  }

  /** Saving a user whose identity is unchanged and whose lists are still well formed keeps
      the store valid. */
  lemma SaveUserKeepsValid(st: Store, k: nat, u: AppUser)
    requires Valid(st) && k in st.users
    requires u.id == k && u.username == st.users[k].username
    requires NoDup(u.wishlist) && NoDup(u.owned) && NoDup(u.friends)
    requires forall p | p in u.wishlist :: p in st.perfumes
    requires forall p | p in u.owned :: p in st.perfumes
    requires forall f | f in u.friends :: f in st.users && f != k
    ensures Valid(SaveUser(st, k, u))
  {
    var t := SaveUser(st, k, u);
    SavedUsernamesStayUnique(st, k, u);
    SavedListsStayValid(st, k, u);
    UsersOnlyKeepValid(st, t);
  }

  lemma SavedUsernamesStayUnique(st: Store, k: nat, u: AppUser)
    requires k in st.users && UniqueUsernames(st) && u.username == st.users[k].username
    ensures UniqueUsernames(SaveUser(st, k, u))
  {
    var t := SaveUser(st, k, u);
    forall a, b | a in t.users && b in t.users && a != b
      ensures t.users[a].username != t.users[b].username
    {
      assert t.users[a].username == st.users[a].username;
      assert t.users[b].username == st.users[b].username;
    }
  }

  lemma SavedListsStayValid(st: Store, k: nat, u: AppUser)
    requires k in st.users && UserListsValid(st)
    requires NoDup(u.wishlist) && NoDup(u.owned) && NoDup(u.friends)
    requires forall p | p in u.wishlist :: p in st.perfumes
    requires forall p | p in u.owned :: p in st.perfumes
    requires forall f | f in u.friends :: f in st.users && f != k
    ensures UserListsValid(SaveUser(st, k, u))
  {
  }

  /** A store that differs from a valid one only in its users is valid when no user was
      dropped and the users are keyed, uniquely named and hold well-formed lists. */
  lemma UsersOnlyKeepValid(st: Store, t: Store)
    requires Valid(st)
    requires t.(users := st.users, nextUserId := st.nextUserId) == st
    requires st.users.Keys <= t.users.Keys
    requires UsersKeyed(t) && UniqueUsernames(t) && UserListsValid(t)
    ensures Valid(t)
  {
    assert t.perfumes == st.perfumes && t.reviews == st.reviews && t.comments == st.comments;
    assert forall id :: HasReview(t, id) == HasReview(st, id);
  }

  /** Storing a new review under the next id, by an existing user about an existing
      perfume and liked only by existing users, keeps the store valid. */
  lemma AppendReviewKeepsValid(st: Store, rv: Review)
    requires Valid(st)
    requires rv.id == st.nextReviewId && rv.author in st.users && rv.subject in st.perfumes
    requires forall u | u in rv.likes :: u in st.users
    ensures Valid(st.(reviews := st.reviews + [rv], nextReviewId := st.nextReviewId + 1))
  {
    var t := st.(reviews := st.reviews + [rv], nextReviewId := st.nextReviewId + 1);
    assert forall i | 0 <= i < |st.reviews| :: t.reviews[i] == st.reviews[i];
    forall c | c in t.comments
      ensures HasReview(t, c.review)
    {
      var i :| 0 <= i < |st.reviews| && st.reviews[i].id == c.review;
      assert t.reviews[i].id == c.review;
    }
  }

  /** Replacing a review by one with the same id keeps the set of review ids. */
  lemma ReplaceKeepsReviewIds(st: Store, i: nat, rv: Review)
    requires i < |st.reviews| && rv.id == st.reviews[i].id
    ensures forall id :: HasReview(st.(reviews := st.reviews[i := rv]), id) == HasReview(st, id)
    ensures DistinctReviewIds(st.reviews) ==> DistinctReviewIds(st.reviews[i := rv])
  {
    var t := st.(reviews := st.reviews[i := rv]);
    assert forall k | 0 <= k < |st.reviews| :: t.reviews[k].id == st.reviews[k].id;
    forall id | HasReview(st, id)
      ensures HasReview(t, id)
    {
      var k :| 0 <= k < |st.reviews| && st.reviews[k].id == id;
      assert t.reviews[k].id == id;
    }
  }

  /** Saving a review over the one at position `i`, with the same id, author and perfume and
      liked only by existing users, keeps the store valid. */
  lemma ReplaceReviewKeepsValid(st: Store, i: nat, rv: Review)
    requires Valid(st) && i < |st.reviews|
    requires rv.id == st.reviews[i].id && rv.author == st.reviews[i].author && rv.subject == st.reviews[i].subject
    requires forall u | u in rv.likes :: u in st.users
    ensures Valid(st.(reviews := st.reviews[i := rv]))
  {
    var t := st.(reviews := st.reviews[i := rv]);
    ReplaceKeepsReviewIds(st, i, rv);
    assert CommentsValid(t);
    forall r | r in t.reviews
      ensures r.id < t.nextReviewId && r.author in t.users && r.subject in t.perfumes
      ensures forall u | u in r.likes :: u in t.users
    {
      var k :| 0 <= k < |t.reviews| && t.reviews[k] == r;
      assert st.reviews[k] in st.reviews;
    }
  }

  /** Storing a new comment under the next id, by an existing user on an existing review,
      keeps the store valid. */
  lemma AppendCommentKeepsValid(st: Store, c: Comment)
    requires Valid(st)
    requires c.id == st.nextCommentId && c.author in st.users && HasReview(st, c.review)
    ensures Valid(st.(comments := st.comments + [c], nextCommentId := st.nextCommentId + 1))
  {
    var t := st.(comments := st.comments + [c], nextCommentId := st.nextCommentId + 1);
    AppendDistinctComment(st.comments, c);
    assert forall d | d in t.comments :: d in st.comments || d == c;
    CommentsOnlyKeepValid(st, t);
  }

  /** A comment whose id exceeds every stored one keeps the ids distinct. */
  lemma AppendDistinctComment(cs: seq<Comment>, c: Comment)
    requires DistinctCommentIds(cs) && forall d | d in cs :: d.id < c.id
    ensures DistinctCommentIds(cs + [c])
  {
    var t := cs + [c];
    forall i, j | 0 <= i < j < |t|
      ensures t[i].id != t[j].id
    {
      if j < |cs| {
        assert t[i] == cs[i] && t[j] == cs[j];
      } else {
        assert t[i] == cs[i] && cs[i] in cs;
      }
    }
  }

  /** A store that differs from a valid one only in its comments is valid when those
      comments have distinct ids below the next one and belong to existing users and
      reviews. */
  lemma CommentsOnlyKeepValid(st: Store, t: Store)
    requires Valid(st) && DistinctCommentIds(t.comments)
    requires forall c | c in t.comments :: c.id < t.nextCommentId && c.author in st.users && HasReview(st, c.review)
    requires t.(comments := st.comments, nextCommentId := st.nextCommentId) == st
    ensures Valid(t)
  {
    assert t.users == st.users && t.perfumes == st.perfumes && t.reviews == st.reviews;
    assert forall id :: HasReview(t, id) == HasReview(st, id);
  }

  /** Keeping only some of the comments, with their ids still distinct, keeps the store
      valid. */
  lemma KeepCommentsKeepsValid(st: Store, cs: seq<Comment>)
    requires Valid(st)
    requires forall c | c in cs :: c in st.comments
    requires DistinctCommentIds(cs)
    ensures Valid(st.(comments := cs))
  {
    var t := st.(comments := cs);
    assert forall id :: HasReview(t, id) == HasReview(st, id);
  }

  /** Keeping only some of the reviews and some of the comments, with ids still distinct
      and every kept comment on a kept review, keeps the store valid. */
  lemma KeepReviewsKeepsValid(st: Store, rs: seq<Review>, cs: seq<Comment>)
    requires Valid(st)
    requires forall r | r in rs :: r in st.reviews
    requires DistinctReviewIds(rs)
    requires forall c | c in cs :: c in st.comments
    requires DistinctCommentIds(cs)
    requires forall c | c in cs :: HasReview(st.(reviews := rs), c.review)
    ensures Valid(st.(reviews := rs, comments := cs))
  {
  }

  /** Storing a new user without lists under the next id, with a username nobody has,
      keeps the store valid; the id was free. */
  lemma AddUserKeepsValid(st: Store, u: AppUser)
    requires Valid(st)
    requires u.id == st.nextUserId && u.wishlist == [] && u.owned == [] && u.friends == []
    requires forall k | k in st.users :: st.users[k].username != u.username
    ensures st.nextUserId !in st.users
    ensures Valid(st.(users := st.users[u.id := u], nextUserId := st.nextUserId + 1))
  {
    var t := st.(users := st.users[u.id := u], nextUserId := st.nextUserId + 1);
    AddedUsernameStaysUnique(st, u);
    AddedListsStayValid(st, u);
    UsersOnlyKeepValid(st, t);
  }

  lemma AddedUsernameStaysUnique(st: Store, u: AppUser)
    requires UniqueUsernames(st)
    requires forall k | k in st.users :: st.users[k].username != u.username
    ensures UniqueUsernames(st.(users := st.users[u.id := u], nextUserId := st.nextUserId + 1))
  {
    var t := st.(users := st.users[u.id := u], nextUserId := st.nextUserId + 1);
    forall a, b | a in t.users && b in t.users && a != b
      ensures t.users[a].username != t.users[b].username
    {
      if a == u.id {
        assert t.users[b] == st.users[b];
      } else if b == u.id {
        assert t.users[a] == st.users[a];
      }
    }
  }

  lemma AddedListsStayValid(st: Store, u: AppUser)
    requires UserListsValid(st) && u.wishlist == [] && u.owned == [] && u.friends == []
    ensures UserListsValid(st.(users := st.users[u.id := u], nextUserId := st.nextUserId + 1))
  {
  }

  /** At most one review per author and perfume. The seeded data does not promise this;
      adding reviews through the controller keeps it. */
  ghost predicate OneReviewPerAuthorAndSubject(st: Store) {
    forall i, j | 0 <= i < j < |st.reviews| ::
      !(st.reviews[i].author == st.reviews[j].author && st.reviews[i].subject == st.reviews[j].subject)
  }

  /** The empty database, as the application starts before any data is loaded. */
  function Empty(): (st: Store)
    ensures Valid(st) && OneReviewPerAuthorAndSubject(st)
  {
    Store(map[], map[], [], [], 1, 1, 1)
  }
}
