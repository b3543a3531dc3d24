/**
 * The development stand-in for an authentication backend: an in-memory user
 * list with a counter for ids, a register that refuses a known email or a
 * short password, and a login that accepts one fixed password. Delays are
 * left out; the clock is the `nowMs` parameter of the token.
 */
module MockAuth {
  import opened Wrappers
  import opened Text

  datatype MockUser = MockUser(id: string, email: string, name: string, avatar: string)

  /** The module's state: the registered users and the next id to hand out. */
  datatype AuthState = AuthState(users: seq<MockUser>, nextId: nat)

  const Initial: AuthState := AuthState([], 1)

  const DevPassword: string := "password123"

  const Avatar: string := "https://images.unsplash.com/photo-1535713875002-d1d0cf377fde?w=32&h=32&fit=crop&crop=face"

  const UserExists: string := "User already exists"
  const ShortPassword: string := "Password must be at least 6 characters"

  datatype Session = Session(user: MockUser, token: string)

  /** `mock_token_${id}_${Date.now()}`. */
  function Token(id: string, nowMs: nat): (r: string)
    ensures StartsWith(r, "mock_token_" + id + "_")
    ensures r[|"mock_token_" + id + "_"|..] == NatToString(nowMs)
  {
    "mock_token_" + id + "_" + NatToString(nowMs)
  }

  /** Tokens issued to one user at different clock readings differ. */
  lemma TokenInjective(id: string, a: nat, b: nat)
    requires Token(id, a) == Token(id, b)
    ensures a == b
  {
    NatToStringInjective(a, b);
  }

  /** `users.find(u => u.email === email)`. */
  function FindByEmail(users: seq<MockUser>, email: string): (r: Option<MockUser>)
    ensures r.None? <==> forall k :: 0 <= k < |users| ==> users[k].email != email
    ensures r.Some? ==> exists k :: (0 <= k < |users| && users[k] == r.value && r.value.email == email
                                     && forall l :: 0 <= l < k ==> users[l].email != email)
  {
    if users == [] then None
    else if users[0].email == email then Some(users[0])
    else
      var r := FindByEmail(users[1..], email);
      if r.Some? then
        var k :| 0 <= k < |users[1..]| && users[1..][k] == r.value && r.value.email == email
                 && forall l :: 0 <= l < k ==> users[1..][l].email != email;
        assert users[k + 1] == r.value;
        r
      else r
  }

  /**
   * `register`: a known email is refused before the password is looked at;
   * otherwise the user gets the next id, in decimal, and is appended.
   */
  function Register(st: AuthState, name: string, email: string, password: string, nowMs: nat): (r: (Result<Session, string>, AuthState))
    ensures FindByEmail(st.users, email).Some? ==> r == (Failure(UserExists), st)
    ensures FindByEmail(st.users, email).None? && |password| < 6 ==> r == (Failure(ShortPassword), st)
    ensures r.0.Success? <==> FindByEmail(st.users, email).None? && |password| >= 6
    ensures r.0.Success? ==>
      && r.0.value.user == MockUser(NatToString(st.nextId), email, name, Avatar)
      && r.0.value.token == Token(NatToString(st.nextId), nowMs)
      && r.1 == AuthState(st.users + [r.0.value.user], st.nextId + 1)
  {
    if FindByEmail(st.users, email).Some? then (Failure(UserExists), st)
    else if |password| < 6 then (Failure(ShortPassword), st)
    else
      var user := MockUser(NatToString(st.nextId), email, name, Avatar);
      (Success(Session(user, Token(user.id, nowMs))), AuthState(st.users + [user], st.nextId + 1))
  }

  /** `login`: the first user with the email, and only with the development password. */
  function Login(st: AuthState, email: string, password: string, nowMs: nat): (r: Option<Session>)
    ensures r.Some? <==> FindByEmail(st.users, email).Some? && password == DevPassword
    ensures r.Some? ==> r.value.user == FindByEmail(st.users, email).value
                        && r.value.token == Token(r.value.user.id, nowMs)
  {
    match FindByEmail(st.users, email)
    case Some(user) =>
      if password == DevPassword then Some(Session(user, Token(user.id, nowMs))) else None
    case None => None
  }

  /** `getUserCount`. */
  function UserCount(st: AuthState): (r: nat)
    ensures r == |st.users|
  {
    |st.users|
  }

  /** The state the module can reach: the k-th user has id k + 1, the counter is one past the last, emails are distinct. */
  predicate Reachable(st: AuthState) {
    && st.nextId == |st.users| + 1
    && (forall k :: 0 <= k < |st.users| ==> st.users[k].id == NatToString(k + 1))
    && (forall a, b :: 0 <= a < b < |st.users| ==> st.users[a].email != st.users[b].email)
  }

  lemma InitialReachable()
    ensures Reachable(Initial)
  {
  }

  lemma RegisterKeepsReachable(st: AuthState, name: string, email: string, password: string, nowMs: nat)
    requires Reachable(st)
    ensures Reachable(Register(st, name, email, password, nowMs).1)
  {
    var r := Register(st, name, email, password, nowMs);
    if r.0.Success? {
      forall a, b | 0 <= a < b < |r.1.users| ensures r.1.users[a].email != r.1.users[b].email {
        if b == |st.users| {
          assert r.1.users[a] == st.users[a];
        }
      }
    }
  }

  /** In a reachable state no two users share an id. */
  lemma ReachableIdsDistinct(st: AuthState, a: int, b: int)
    requires Reachable(st)
    requires 0 <= a < b < |st.users|
    ensures st.users[a].id != st.users[b].id
  {
    if st.users[a].id == st.users[b].id {
      NatToStringInjective(a + 1, b + 1);
    }
  }

  /** A user who has just registered can log in with the development password and gets the same record back. */
  lemma LoginAfterRegister(st: AuthState, name: string, email: string, password: string, t1: nat, t2: nat)
    requires Reachable(st)
    requires Register(st, name, email, password, t1).0.Success?
    ensures var r := Register(st, name, email, password, t1);
      Login(r.1, email, DevPassword, t2) == Some(Session(r.0.value.user, Token(r.0.value.user.id, t2)))
  {
    var r := Register(st, name, email, password, t1);
    var found := FindByEmail(r.1.users, email);
    assert r.1.users[|r.1.users| - 1].email == email;
    assert found.Some?;
    var k :| 0 <= k < |r.1.users| && r.1.users[k] == found.value && found.value.email == email
             && forall l :: 0 <= l < k ==> r.1.users[l].email != email;
  }
}
