/** The user endpoints: toggling a perfume on the wishlist or the owned list, toggling a
    one-directional friendship, and listing a user's friends. */
module UserController {
  import opened Common
  import opened Store

  /** The message `Optional.orElseThrow()` fails with. */
  const NoValuePresent: string := "No value present"

  datatype ListKind = Wishlist | Owned

  function ListOf(u: AppUser, kind: ListKind): seq<nat> {
    match kind
    case Wishlist => u.wishlist
    case Owned => u.owned
  }

  function WithList(u: AppUser, kind: ListKind, xs: seq<nat>): (v: AppUser)
    ensures ListOf(v, kind) == xs
  {
    match kind
    case Wishlist => u.(wishlist := xs)
    case Owned => u.(owned := xs)
  }

  /** Replacing one list touches nothing else: putting the old list back gives the user
      back, and the other lists, the friends and the identity are as before. */
  lemma WithListRestores(u: AppUser, kind: ListKind, xs: seq<nat>)
    ensures WithList(WithList(u, kind, xs), kind, ListOf(u, kind)) == u
    ensures var v := WithList(u, kind, xs);
      v.id == u.id && v.username == u.username && v.friends == u.friends
      && (kind == Wishlist ==> v.owned == u.owned) && (kind == Owned ==> v.wishlist == u.wishlist)
  {
  }

  function RemovedMessage(kind: ListKind): string {
    match kind
    case Wishlist => "Usunięto z Wishlisty"
    case Owned => "Usunięto z Posiadanych"
  }

  function AddedMessage(kind: ListKind): string {
    match kind
    case Wishlist => "Dodano do Wishlisty"
    case Owned => "Dodano do Posiadanych"
  }

  /** The shared body of `toggleWishlist` and `toggleOwned`: an unknown user or perfume
      fails before anything changes; otherwise the perfume is removed from the list if it is
      there and appended if not, and nothing else in the store changes. */
  function TogglePerfumeList(st: Store, kind: ListKind, userId: nat, perfumeId: nat): (r: (Store, Reply<string>))
    ensures userId !in st.users || perfumeId !in st.perfumes <==> r.1.Failure?
    ensures r.1.Failure? ==> r.0 == st && r.1 == Failure(ServerError, NoValuePresent)
    ensures r.1.Success? ==> r.1.status == Ok && userId in r.0.users
    ensures r.1.Success? ==> r.0.(users := st.users) == st && r.0.users.Keys == st.users.Keys
    ensures r.1.Success? ==> forall k | k in st.users && k != userId :: r.0.users[k] == st.users[k]
    ensures r.1.Success? ==> WithList(r.0.users[userId], kind, ListOf(st.users[userId], kind)) == st.users[userId]
    ensures r.1.Success? && perfumeId in ListOf(st.users[userId], kind) ==>
      r.1.body == RemovedMessage(kind) &&
      ListOf(r.0.users[userId], kind) == RemoveFirst(ListOf(st.users[userId], kind), perfumeId) &&
      multiset(ListOf(r.0.users[userId], kind)) == multiset(ListOf(st.users[userId], kind)) - multiset{perfumeId}
    ensures r.1.Success? && perfumeId !in ListOf(st.users[userId], kind) ==>
      r.1.body == AddedMessage(kind) && ListOf(r.0.users[userId], kind) == ListOf(st.users[userId], kind) + [perfumeId]
  {
    if userId !in st.users || perfumeId !in st.perfumes then (st, Failure(ServerError, NoValuePresent))
    else
      var user := st.users[userId];
      var list := ListOf(user, kind);
      var message := if perfumeId in list then RemovedMessage(kind) else AddedMessage(kind);
      WithListRestores(user, kind, Toggle(list, perfumeId));
      (SaveUser(st, userId, WithList(user, kind, Toggle(list, perfumeId))), Success(Ok, message))
  }

  /** `toggleWishlist`; the owned list and friends stay as they were. */
  function ToggleWishlist(st: Store, userId: nat, perfumeId: nat): (r: (Store, Reply<string>))
    ensures r.1.Failure? <==> userId !in st.users || perfumeId !in st.perfumes
    ensures r.1.Success? ==> userId in r.0.users && r.0.users[userId].owned == st.users[userId].owned
    ensures r.1.Success? ==> userId in r.0.users && r.0.users[userId].friends == st.users[userId].friends
    ensures r.1.Success? ==> r.1.body == if perfumeId in st.users[userId].wishlist then "Usunięto z Wishlisty" else "Dodano do Wishlisty"
  {
    TogglePerfumeList(st, Wishlist, userId, perfumeId)
  }

  /** `toggleOwned`; the wishlist and friends stay as they were. */
  function ToggleOwned(st: Store, userId: nat, perfumeId: nat): (r: (Store, Reply<string>))
    ensures r.1.Failure? <==> userId !in st.users || perfumeId !in st.perfumes
    ensures r.1.Success? ==> userId in r.0.users && r.0.users[userId].wishlist == st.users[userId].wishlist
    ensures r.1.Success? ==> userId in r.0.users && r.0.users[userId].friends == st.users[userId].friends
    ensures r.1.Success? ==> r.1.body == if perfumeId in st.users[userId].owned then "Usunięto z Posiadanych" else "Dodano do Posiadanych"
  {
    TogglePerfumeList(st, Owned, userId, perfumeId)
  }

  /** On a valid store the toggle flips the perfume's membership, touches no other
      perfume's, and keeps the store valid. */
  lemma TogglePerfumeListPreservesValid(st: Store, kind: ListKind, userId: nat, perfumeId: nat)
    requires Valid(st)
    ensures Valid(TogglePerfumeList(st, kind, userId, perfumeId).0)
    ensures userId in st.users && perfumeId in st.perfumes ==>
      var after := ListOf(TogglePerfumeList(st, kind, userId, perfumeId).0.users[userId], kind);
      && (perfumeId in after <==> perfumeId !in ListOf(st.users[userId], kind))
      && forall q | q != perfumeId :: q in after <==> q in ListOf(st.users[userId], kind)
  {
    if userId in st.users && perfumeId in st.perfumes {
      var user := st.users[userId];
      var list := ListOf(user, kind);
      ToggleFlips(list, perfumeId);
      var saved := WithList(user, kind, Toggle(list, perfumeId));
      WithListRestores(user, kind, Toggle(list, perfumeId));
      assert TogglePerfumeList(st, kind, userId, perfumeId).0 == SaveUser(st, userId, saved);
      assert NoDup(saved.wishlist) && NoDup(saved.owned);
      assert forall p | p in saved.wishlist :: p in st.perfumes;
      assert forall p | p in saved.owned :: p in st.perfumes;
      SaveUserKeepsValid(st, userId, saved);
    }
  }

  /** Toggling a perfume that was not listed, and toggling it again, gives the store back
      exactly. */
  lemma TogglePerfumeListTwiceRestores(st: Store, kind: ListKind, userId: nat, perfumeId: nat)
    requires userId in st.users ==> perfumeId !in ListOf(st.users[userId], kind)
    ensures TogglePerfumeList(TogglePerfumeList(st, kind, userId, perfumeId).0, kind, userId, perfumeId).0 == st
  {
    if userId in st.users && perfumeId in st.perfumes {
      var u := st.users[userId];
      var once := TogglePerfumeList(st, kind, userId, perfumeId).0;
      TogglePerfumeListSaves(st, kind, userId, perfumeId);
      TogglePerfumeListSaves(once, kind, userId, perfumeId);
      SaveToggledBack(st, kind, userId, perfumeId);
      assert once.users[userId] == WithList(u, kind, Toggle(ListOf(u, kind), perfumeId));
    }
  }

  /** Saving a user with a perfume appended to one list, then saving it again with the
      perfume toggled off, gives back the store. */
  lemma SaveToggledBack(st: Store, kind: ListKind, userId: nat, perfumeId: nat)
    requires userId in st.users && perfumeId !in ListOf(st.users[userId], kind)
    ensures var u := st.users[userId];
      var x := Toggle(ListOf(u, kind), perfumeId);
      var once := st.(users := st.users[userId := WithList(u, kind, x)]);
      once.(users := once.users[userId := WithList(once.users[userId], kind, Toggle(x, perfumeId))]) == st
  {
    var u := st.users[userId];
    var list := ListOf(u, kind);
    var x := Toggle(list, perfumeId);
    var v := WithList(u, kind, x);
    ToggleTwice(list, perfumeId);
    WithListRestores(u, kind, x);
    assert WithList(v, kind, Toggle(x, perfumeId)) == u;
    var once := st.(users := st.users[userId := v]);
    assert once.users[userId := u] == st.users;
  }

  /** A successful toggle saves the user with the toggled list. */
  lemma TogglePerfumeListSaves(st: Store, kind: ListKind, userId: nat, perfumeId: nat)
    requires userId in st.users && perfumeId in st.perfumes
    ensures var u := st.users[userId];
      TogglePerfumeList(st, kind, userId, perfumeId).0 == st.(users := st.users[userId := WithList(u, kind, Toggle(ListOf(u, kind), perfumeId))])
  {
  }

  /** Toggling a perfume twice on a list without repeats keeps the list's entries. */
  lemma TogglePerfumeListTwiceSameEntries(st: Store, kind: ListKind, userId: nat, perfumeId: nat)
    requires userId in st.users && NoDup(ListOf(st.users[userId], kind))
    ensures var twice := TogglePerfumeList(TogglePerfumeList(st, kind, userId, perfumeId).0, kind, userId, perfumeId).0;
      userId in twice.users && multiset(ListOf(twice.users[userId], kind)) == multiset(ListOf(st.users[userId], kind))
  {
    var once := TogglePerfumeList(st, kind, userId, perfumeId).0;
    if perfumeId in st.perfumes {
      var list := ListOf(st.users[userId], kind);
      ToggleTwice(list, perfumeId);
      ToggleFlips(list, perfumeId);
      assert multiset(ListOf(once.users[userId], kind)) == multiset(Toggle(list, perfumeId));
    }
  }

  /** `toggleFriend`: befriending oneself is refused; an unknown user fails; otherwise only
      the caller's friends list changes (the target's does not, so friendship is
      one-directional), with the target removed if present and appended if not. */
  function ToggleFriend(st: Store, myId: nat, targetId: nat): (r: (Store, Reply<string>))
    ensures myId == targetId ==> r == (st, Failure(BadRequest, "Nie możesz dodać samego siebie do znajomych!"))
    ensures myId != targetId && (myId !in st.users || targetId !in st.users) ==> r == (st, Failure(ServerError, NoValuePresent))
    ensures r.1.Success? <==> myId != targetId && myId in st.users && targetId in st.users
    ensures r.1.Success? ==> r.0.(users := st.users) == st && r.0.users.Keys == st.users.Keys && myId in r.0.users
    ensures r.1.Success? ==> forall k | k in st.users && k != myId :: r.0.users[k] == st.users[k]
    ensures r.1.Success? ==> r.0.users[myId].(friends := st.users[myId].friends) == st.users[myId]
    ensures r.1.Success? && targetId in st.users[myId].friends ==>
      r.1 == Success(Ok, "Usunięto ze znajomych: " + st.users[targetId].username) &&
      r.0.users[myId].friends == RemoveFirst(st.users[myId].friends, targetId) &&
      multiset(r.0.users[myId].friends) == multiset(st.users[myId].friends) - multiset{targetId}
    ensures r.1.Success? && targetId !in st.users[myId].friends ==>
      r.1 == Success(Ok, "Dodano do znajomych: " + st.users[targetId].username) &&
      r.0.users[myId].friends == st.users[myId].friends + [targetId]
  {
    if myId == targetId then (st, Failure(BadRequest, "Nie możesz dodać samego siebie do znajomych!"))
    else if myId !in st.users || targetId !in st.users then (st, Failure(ServerError, NoValuePresent))
    else
      var me := st.users[myId];
      var target := st.users[targetId];
      var message := if targetId in me.friends then "Usunięto ze znajomych: " + target.username
                     else "Dodano do znajomych: " + target.username;
      (SaveUser(st, myId, me.(friends := Toggle(me.friends, targetId))), Success(Ok, message))
  }

  /** Befriending keeps the store valid and flips whether the target is among the caller's
      friends, while the target's own friends stay as they were. */
  lemma ToggleFriendPreservesValid(st: Store, myId: nat, targetId: nat)
    requires Valid(st)
    ensures Valid(ToggleFriend(st, myId, targetId).0)
    ensures ToggleFriend(st, myId, targetId).1.Success? ==>
      && (targetId in ToggleFriend(st, myId, targetId).0.users[myId].friends <==> targetId !in st.users[myId].friends)
      && ToggleFriend(st, myId, targetId).0.users[targetId].friends == st.users[targetId].friends
  {
    if myId != targetId && myId in st.users && targetId in st.users {
      var me := st.users[myId];
      ToggleFlips(me.friends, targetId);
      var saved := me.(friends := Toggle(me.friends, targetId));
      assert ToggleFriend(st, myId, targetId).0 == SaveUser(st, myId, saved);
      assert forall f | f in saved.friends :: f in st.users && f != myId;
      SaveUserKeepsValid(st, myId, saved);
    }
  }

  datatype UserSummary = UserSummary(id: nat, username: string)

  /** `getUserFriends`: an unknown user fails; otherwise one summary per friend, in the
      order of the friends list. The database's foreign keys guarantee every friend
      exists. */
  function GetUserFriends(st: Store, userId: nat): (r: Reply<seq<UserSummary>>)
    requires userId in st.users ==> forall f | f in st.users[userId].friends :: f in st.users
    ensures r.Failure? <==> userId !in st.users
    ensures r.Failure? ==> r == Failure(ServerError, "Nie znaleziono użytkownika")
    ensures r.Success? ==> r.status == Ok && |r.body| == |st.users[userId].friends|
    ensures r.Success? ==> forall i | 0 <= i < |r.body| ::
      r.body[i].id == st.users[userId].friends[i] && r.body[i].username == st.users[r.body[i].id].username
  {
    if userId !in st.users then Failure(ServerError, "Nie znaleziono użytkownika")
    else
      var friends := st.users[userId].friends;
      Success(Ok, seq(|friends|, i requires 0 <= i < |friends| => UserSummary(friends[i], st.users[friends[i]].username)))
  }

  /** A newly added friend is listed last among the caller's friends. */
  lemma NewFriendListedLast(st: Store, myId: nat, targetId: nat)
    requires Valid(st)
    requires myId != targetId && myId in st.users && targetId in st.users
    requires targetId !in st.users[myId].friends
    ensures var t := ToggleFriend(st, myId, targetId).0;
      var listed := GetUserFriends(t, myId);
      listed.Success? && |listed.body| > 0 && listed.body[|listed.body| - 1] == UserSummary(targetId, st.users[targetId].username)
  {
    ToggleFriendPreservesValid(st, myId, targetId);
  }

  /** Unfriending drops the target's summary from the caller's friends listing and keeps
      the others in their order. */
  lemma RemovedFriendKeepsOrder(st: Store, myId: nat, targetId: nat)
    requires myId != targetId && myId in st.users && targetId in st.users
    requires forall f | f in st.users[myId].friends :: f in st.users && f != myId
    requires targetId in st.users[myId].friends
    ensures var before := GetUserFriends(st, myId);
      var after := GetUserFriends(ToggleFriend(st, myId, targetId).0, myId);
      var i := IndexOf(st.users[myId].friends, targetId);
      before.Success? && after.Success? && i < |before.body| && before.body[i].id == targetId
      && after.body == before.body[..i] + before.body[i + 1..]
  {
    var me := st.users[myId];
    var fs := me.friends;
    var i := IndexOf(fs, targetId);
    var t := SaveUser(st, myId, me.(friends := fs[..i] + fs[i + 1..]));
    UnfriendSaves(st, myId, targetId);
    ListingSkips(st, t, myId, i);
  }

  /** When the caller's friends lose the entry at `i` and no friend's record changes, the
      listing loses the summary at `i`. */
  lemma ListingSkips(st: Store, t: Store, myId: nat, i: nat)
    requires myId in st.users && myId in t.users
    requires forall f | f in st.users[myId].friends :: f in st.users && f in t.users && t.users[f] == st.users[f]
    requires i < |st.users[myId].friends|
    requires t.users[myId].friends == st.users[myId].friends[..i] + st.users[myId].friends[i + 1..]
    ensures GetUserFriends(t, myId).Success? && GetUserFriends(st, myId).Success?
    ensures GetUserFriends(t, myId).body == GetUserFriends(st, myId).body[..i] + GetUserFriends(st, myId).body[i + 1..]
  {
    var fs := st.users[myId].friends;
    FriendsAfterRemoval(fs, i);
    assert forall f | f in t.users[myId].friends :: f in fs;
    var before := GetUserFriends(st, myId).body;
    var after := GetUserFriends(t, myId).body;
    forall k | 0 <= k < |after|
      ensures after[k] == before[if k < i then k else k + 1]
    {
      var j := if k < i then k else k + 1;
      assert after[k].id == fs[j];
    }
    DropAt(before, after, i);
  }

  /** Unfriending saves the caller with the target removed from the friends list. */
  lemma UnfriendSaves(st: Store, myId: nat, targetId: nat)
    requires myId != targetId && myId in st.users && targetId in st.users
    requires targetId in st.users[myId].friends
    ensures var fs := st.users[myId].friends; var i := IndexOf(fs, targetId);
      ToggleFriend(st, myId, targetId).0 == SaveUser(st, myId, st.users[myId].(friends := fs[..i] + fs[i + 1..]))
  {
  }

  /** The entries left after dropping position `i` all come from the list, shifted past `i`. */
  lemma FriendsAfterRemoval(fs: seq<nat>, i: nat)
    requires i < |fs|
    ensures var rest := fs[..i] + fs[i + 1..];
      |rest| == |fs| - 1 && forall k | 0 <= k < |rest| :: rest[k] == fs[if k < i then k else k + 1]
  {
  }

  /** A list that is another one with position `i` skipped is that list minus its `i`th
      entry. */
  lemma DropAt<T>(before: seq<T>, after: seq<T>, i: nat)
    requires i < |before| && |after| == |before| - 1
    requires forall k | 0 <= k < |after| :: after[k] == before[if k < i then k else k + 1]
    ensures after == before[..i] + before[i + 1..]
  {
  }

}
