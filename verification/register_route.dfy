/**
 * `POST /api/auth/register`: ordered input checks, a duplicate-email check
 * against the in-memory user list, then a new user appended and a signed
 * token returned. Hashing, id generation, the clock and token signing are
 * parameters.
 */
module RegisterRoute {
  import opened Wrappers
  import opened Text

  // ----------------------------------------------------------- email shape

  /** A character `[^\s@]` accepts. */
  predicate Plain(c: char) {
    !IsSpace(c) && c != '@'
  }

  predicate AllPlain(t: string) {
    forall k :: 0 <= k < |t| ==> Plain(t[k])
  }

  /** `s` splits as `local@domain.tld` with the `@` at `i` and the chosen `.` at `j`, all three parts non-empty and plain. */
  predicate SplitsAt(s: string, i: int, j: int) {
    && 0 < i && i + 1 < j && j + 1 < |s|
    && s[i] == '@' && s[j] == '.'
    && AllPlain(s[..i]) && AllPlain(s[i + 1..j]) && AllPlain(s[j + 1..])
  }

  /** What `/^[^\s@]+@[^\s@]+\.[^\s@]+$/` matches. */
  ghost predicate EmailPattern(s: string) {
    exists i, j :: SplitsAt(s, i, j)
  }

  /** The number of `@` characters in `s`. */
  function AtCount(s: string): (r: nat)
    ensures r == 0 <==> forall k :: 0 <= k < |s| ==> s[k] != '@'
  {
    if s == [] then 0 else (if s[0] == '@' then 1 else 0) + AtCount(s[1..])
  }

  /** The index of the first `@`, or `|s|` when there is none. */
  function AtIndex(s: string): (r: nat)
    ensures r <= |s|
    ensures r < |s| ==> s[r] == '@'
    ensures forall k :: 0 <= k < r ==> s[k] != '@'
  {
    if s == [] || s[0] == '@' then 0 else 1 + AtIndex(s[1..])
  }

  predicate HasSpace(s: string) {
    exists k :: 0 <= k < |s| && IsSpace(s[k])
  }

  /**
   * The same test spelled out: no white space, exactly one `@`, something
   * before it, and a `.` with at least one character on each side somewhere
   * after it.
   */
  predicate EmailShape(s: string) {
    var i := AtIndex(s);
    && !HasSpace(s) && AtCount(s) == 1 && 0 < i
    && exists j :: i + 1 < j < |s| - 1 && s[j] == '.'
  }

  lemma {:induction false} AtCountSplit(s: string, i: nat)
    requires i < |s| && s[i] == '@'
    ensures AtCount(s) == AtCount(s[..i]) + 1 + AtCount(s[i + 1..])
  {
    if i > 0 {
      AtCountSplit(s[1..], i - 1);
      assert s[1..][..i - 1] == s[1..i];
      assert s[..i][1..] == s[1..i];
      assert s[1..][i..] == s[i + 1..];
    }
  }

  /** The pattern and the spelled-out test accept the same strings. */
  lemma EmailPatternIff(s: string)
    ensures EmailPattern(s) <==> EmailShape(s)
  {
    if EmailPattern(s) {
      var i, j :| SplitsAt(s, i, j);
      SplitIsShape(s, i, j);
    }
    if EmailShape(s) {
      ShapeSplits(s);
    }
  }

  /** A split of the pattern passes the spelled-out test. */
  lemma SplitIsShape(s: string, i: int, j: int)
    requires SplitsAt(s, i, j)
    ensures EmailShape(s)
  {
    assert AtIndex(s) == i by {
      assert forall k :: 0 <= k < i ==> s[k] == s[..i][k];
      assert AtIndex(s) >= i;
    }
    forall k | 0 <= k < |s| ensures !IsSpace(s[k]) {
      if k < i { assert s[k] == s[..i][k]; }
      else if i < k < j { assert s[k] == s[i + 1..j][k - i - 1]; }
      else if j < k { assert s[k] == s[j + 1..][k - j - 1]; }
    }
    AtCountSplit(s, i);
    assert AtCount(s[..i]) == 0;
    var rest := s[i + 1..];
    assert AtCount(rest) == 0 by {
      forall k | 0 <= k < |rest| ensures rest[k] != '@' {
        var p := i + 1 + k;
        assert rest[k] == s[p];
        if p < j { assert s[p] == s[i + 1..j][p - i - 1]; }
        else if p > j { assert s[p] == s[j + 1..][p - j - 1]; }
      }
    }
  }

  /** A string passing the spelled-out test splits at its `@` and a later `.`. */
  lemma ShapeSplits(s: string)
    requires EmailShape(s)
    ensures EmailPattern(s)
  {
    var i := AtIndex(s);
    var j :| i + 1 < j < |s| - 1 && s[j] == '.';
    AtCountSplit(s, i);
    assert AtCount(s[i + 1..]) == 0;
    assert forall k :: i < k < |s| ==> s[k] != '@' by {
      forall k | i < k < |s| ensures s[k] != '@' {
        assert s[k] == s[i + 1..][k - i - 1];
      }
    }
    assert SplitsAt(s, i, j);
  }

  // ------------------------------------------------------------- the route

  /** The fields read from the request body; `None` is a missing field. */
  datatype Body = Body(email: Option<string>, password: Option<string>, name: Option<string>)

  datatype User = User(id: string, email: string, passwordHash: string, name: string, createdAt: int)

  /** The user as the response shows it: no password hash. */
  datatype PublicUser = PublicUser(id: string, email: string, name: string)

  datatype Response =
    | Registered(user: PublicUser, token: string)
    | Rejected(status: int, error: string)

  const RequiredFields: string := "Email, password, and name are required"
  const InvalidEmail: string := "Invalid email format"
  const ShortPassword: string := "Password must be at least 6 characters"
  const UserExists: string := "User already exists"
  const ServerErrorPrefix: string := "Internal server error during registration: "

  /** A present, non-empty field. */
  predicate Given(v: Option<string>) {
    v.Some? && v.value != []
  }

  predicate EmailTaken(users: seq<User>, email: string) {
    exists k :: 0 <= k < |users| && users[k].email == email
  }

  /** No two users share an email. */
  predicate EmailsUnique(users: seq<User>) {
    forall a, b :: 0 <= a < b < |users| ==> users[a].email != users[b].email
  }

  /**
   * `POST`: `body` is the parsed request body or the message of the error
   * reading it raised; `hash(p)` is the stored hash of `p`, `sign(id, email)`
   * the token. Returns the response and the user list afterwards.
   */
  function Register(users: seq<User>, body: Result<Body, string>, hash: string -> string,
                    freshId: string, now: int, sign: (string, string) -> string): (r: (Response, seq<User>))
    ensures r.0.Rejected? ==> r.1 == users
    ensures body.Failure? ==> r.0 == Rejected(500, ServerErrorPrefix + body.error)
    ensures body.Success? && !(Given(body.value.email) && Given(body.value.password) && Given(body.value.name)) ==>
      r.0 == Rejected(400, RequiredFields)
    ensures r.0 == Rejected(400, InvalidEmail) <==>
      body.Success? && Given(body.value.email) && Given(body.value.password) && Given(body.value.name)
      && !EmailPattern(body.value.email.value)
    ensures r.0 == Rejected(400, ShortPassword) <==>
      body.Success? && Given(body.value.email) && Given(body.value.password) && Given(body.value.name)
      && EmailPattern(body.value.email.value) && |body.value.password.value| < 6
    ensures r.0 == Rejected(409, UserExists) <==>
      body.Success? && Given(body.value.email) && Given(body.value.password) && Given(body.value.name)
      && EmailPattern(body.value.email.value) && |body.value.password.value| >= 6
      && EmailTaken(users, body.value.email.value)
    ensures r.0.Registered? <==>
      body.Success? && Given(body.value.email) && Given(body.value.password) && Given(body.value.name)
      && EmailPattern(body.value.email.value) && |body.value.password.value| >= 6
      && !EmailTaken(users, body.value.email.value)
    ensures r.0.Registered? ==>
      var b := body.value;
      && r.1 == users + [User(freshId, b.email.value, hash(b.password.value), b.name.value, now)]
      && r.0.user == PublicUser(freshId, b.email.value, b.name.value)
      && r.0.token == sign(freshId, b.email.value)
  {
    if body.Failure? then (Rejected(500, ServerErrorPrefix + body.error), users)
    else
      var b := body.value;
      if !(Given(b.email) && Given(b.password) && Given(b.name)) then (Rejected(400, RequiredFields), users)
      else if !(EmailPatternIff(b.email.value); EmailShape(b.email.value)) then (Rejected(400, InvalidEmail), users)
      else if |b.password.value| < 6 then (Rejected(400, ShortPassword), users)
      else if EmailTaken(users, b.email.value) then (Rejected(409, UserExists), users)
      else
        var user := User(freshId, b.email.value, hash(b.password.value), b.name.value, now);
        (Registered(PublicUser(user.id, user.email, user.name), sign(user.id, user.email)), users + [user])
  }

  /** Registration never lets two users share an email. */
  lemma RegisterKeepsEmailsUnique(users: seq<User>, body: Result<Body, string>, hash: string -> string,
                                  freshId: string, now: int, sign: (string, string) -> string)
    requires EmailsUnique(users)
    ensures EmailsUnique(Register(users, body, hash, freshId, now, sign).1)
  {
    var r := Register(users, body, hash, freshId, now, sign);
    if r.0.Registered? {
      var u := r.1[|users|];
      forall a, b | 0 <= a < b < |r.1| ensures r.1[a].email != r.1[b].email {
        if b == |users| {
          assert r.1[a] == users[a];
        }
      }
    }
  }

  /** A second registration with the same email is refused with 409 and changes nothing. */
  lemma SecondRegistrationConflicts(users: seq<User>, body: Body, hash: string -> string,
                                    id1: string, id2: string, now1: int, now2: int, sign: (string, string) -> string)
    requires Register(users, Success(body), hash, id1, now1, sign).0.Registered?
    ensures var after := Register(users, Success(body), hash, id1, now1, sign).1;
      Register(after, Success(body), hash, id2, now2, sign) == (Rejected(409, UserExists), after)
  {
    var after := Register(users, Success(body), hash, id1, now1, sign).1;
    assert after[|users|].email == body.email.value;
  }

  /** A well-formed address passes; one without `@`, or with nothing after the last `.`, fails. */
  lemma EmailPatternExamples()
    ensures EmailPattern("a@b.co")
    ensures !EmailPattern("ab.co")
    ensures !EmailPattern("a@b.")
  {
    assert SplitsAt("a@b.co", 1, 3);
    EmailPatternIff("ab.co");
    assert AtCount("ab.co") == 0;
    EmailPatternIff("a@b.");
    assert AtIndex("a@b.") == 1;
  }
}
