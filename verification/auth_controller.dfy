/** The registration endpoint: a new account under a free username, answered with a token
    for it. */
module AuthController {
  import opened Common
  import opened Store

  datatype RegisterRequest = RegisterRequest(username: string, email: string, password: string)

  datatype AuthResponse = AuthResponse(token: string, userId: nat, username: string, role: string)

  /** Whether some user already has `username` (`findByUsername(...).isPresent()`). */
  predicate UsernameTaken(st: Store, username: string) {
    exists k | k in st.users :: st.users[k].username == username
  }

  /** `register`: a taken username is refused and nothing changes; otherwise a plain user is
      created under the next id with the encoded password and empty lists, and the reply
      carries a token for that user. `encode` stands for the password encoder and `sign` for
      the token service. */
  function Register(st: Store, req: RegisterRequest, encode: string -> string, sign: AppUser -> string)
    : (r: (Store, Reply<AuthResponse>))
    ensures UsernameTaken(st, req.username) <==> r.1.Failure?
    ensures r.1.Failure? ==> r == (st, Failure(BadRequest, "Username zajęty!"))
    ensures r.1.Success? ==>
      && r.0.(users := st.users, nextUserId := st.nextUserId) == st
      && r.0.nextUserId == st.nextUserId + 1
      && r.0.users.Keys == st.users.Keys + {st.nextUserId}
      && (forall k | k in st.users && k != st.nextUserId :: r.0.users[k] == st.users[k])
    ensures r.1.Success? ==>
      var u := r.0.users[st.nextUserId];
      && u == AppUser(st.nextUserId, req.username, req.email, encode(req.password), USER, [], [], [])
      && r.1 == Success(Ok, AuthResponse(sign(u), st.nextUserId, req.username, "USER"))
  {
    if UsernameTaken(st, req.username) then (st, Failure(BadRequest, "Username zajęty!"))
    else
      var u := AppUser(st.nextUserId, req.username, req.email, encode(req.password), USER, [], [], []);
      (st.(users := st.users[st.nextUserId := u], nextUserId := st.nextUserId + 1),
       Success(Ok, AuthResponse(sign(u), u.id, u.username, RoleName(u.role))))
  }

  /** On a valid store the new account takes a fresh id, so no account is lost, usernames
      stay unique and the store stays valid. */
  lemma RegisterPreservesValid(st: Store, req: RegisterRequest, encode: string -> string, sign: AppUser -> string)
    requires Valid(st)
    ensures Valid(Register(st, req, encode, sign).0)
    ensures Register(st, req, encode, sign).1.Success? ==>
      st.nextUserId !in st.users && |Register(st, req, encode, sign).0.users| == |st.users| + 1
  {
    var r := Register(st, req, encode, sign);
    if r.1.Success? {
      var u := AppUser(st.nextUserId, req.username, req.email, encode(req.password), USER, [], [], []);
      AddUserKeepsValid(st, u);
      assert r.0 == st.(users := st.users[u.id := u], nextUserId := st.nextUserId + 1);
    }
  }

  /** Registering the same username twice: the second attempt is refused and changes
      nothing. */
  lemma SecondRegistrationRefused(st: Store, req: RegisterRequest, again: RegisterRequest,
                                  encode: string -> string, sign: AppUser -> string)
    requires Register(st, req, encode, sign).1.Success?
    requires again.username == req.username
    ensures var t := Register(st, req, encode, sign).0;
      Register(t, again, encode, sign) == (t, Failure(BadRequest, "Username zajęty!"))
  {
    var t := Register(st, req, encode, sign).0;
    assert t.users[st.nextUserId].username == again.username;
    assert UsernameTaken(t, again.username);
  }
}
