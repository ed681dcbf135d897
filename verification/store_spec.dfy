/** What each query and each write of the application's store
    (`app/database.py`) does to its tables, as functions on sequences of
    rows, and the properties those operations keep.

    A write is a function from the old table (and its arguments) to a pair
    of the value the Python function returns and the new table; the
    `Store` class in `AppDatabase` performs the same change in place and is
    proved to agree with these functions. `scalar_one_or_none` lookups are
    first matches; on the columns that are unique the match is the only one. */
module AppTables {
  import opened Common
  import opened Records

  // =====================================================================
  // Users

  predicate EmailsUnique(users: seq<User>) {
    forall i, j :: 0 <= i < j < |users| ==> users[i].email != users[j].email
  }

  predicate TokensUnique(users: seq<User>) {
    forall i, j :: 0 <= i < j < |users| && users[i].token.Some? ==> users[i].token != users[j].token
  }

  /** A token and its expiry are written and cleared together, and a
      generated token is never empty. */
  predicate TokensPaired(users: seq<User>) {
    forall i :: 0 <= i < |users| ==>
      (users[i].token.Some? <==> users[i].tokenExpiresAt.Some?) &&
      (users[i].token.Some? ==> users[i].token.value != "")
  }

  /** The constraints of the `users` table, plus the pairing of token and
      expiry that every writer keeps. */
  predicate UsersValid(users: seq<User>) {
    Increasing(UserIds(users)) && EmailsUnique(users) && TokensUnique(users) && TokensPaired(users)
  }

  /** A token that `generate_token` may hand out: non-empty and held by no user. */
  predicate FreshToken(users: seq<User>, t: Token) {
    t != "" && forall i :: 0 <= i < |users| ==> users[i].token != Some(t)
  }

  function FindUserByEmail(users: seq<User>, email: string): (r: Option<nat>)
    ensures r.None? <==> forall i :: 0 <= i < |users| ==> users[i].email != email
    ensures r.Some? ==> r.value < |users| && users[r.value].email == email
    ensures r.Some? && EmailsUnique(users) ==>
      forall i :: 0 <= i < |users| && users[i].email == email ==> i == r.value
  {
    IndexWhere(users, (u: User) => u.email == email)
  }

  function FindUserById(users: seq<User>, id: int): (r: Option<nat>)
    ensures r.None? <==> forall i :: 0 <= i < |users| ==> users[i].id != id
    ensures r.Some? ==> r.value < |users| && users[r.value].id == id
    ensures r.Some? && Increasing(UserIds(users)) ==>
      forall i :: 0 <= i < |users| && users[i].id == id ==> i == r.value
  {
    IndexWhere(users, (u: User) => u.id == id)
  }

  /** `get_user`: whether some user has exactly this email. */
  function EmailRegistered(users: seq<User>, email: string): (found: bool)
    ensures found <==> exists i :: 0 <= i < |users| && users[i].email == email
  {
    FindUserByEmail(users, email).Some?
  }

  /** `get_user_by_id` */
  function GetUserById(users: seq<User>, id: int): (r: Option<User>)
    ensures r.Some? <==> exists i :: 0 <= i < |users| && users[i].id == id
    ensures r.Some? ==> r.value in users && r.value.id == id
  {
    match FindUserById(users, id)
    case None => None
    case Some(i) => Some(users[i])
  }

  /** The row a token authenticates at `now`: same token, expiry strictly later. */
  predicate Resolves(u: User, t: Token, now: Time) {
    u.token == Some(t) && u.tokenExpiresAt.Some? && u.tokenExpiresAt.value > now
  }

  /** `get_user_by_token`: the user whose token is `t` and whose expiry is
      strictly after `now`; a read-only query. */
  function UserByToken(users: seq<User>, t: Token, now: Time): (r: Option<User>)
    ensures r.None? <==> forall i :: 0 <= i < |users| ==> !Resolves(users[i], t, now)
    ensures r.Some? ==> r.value in users && Resolves(r.value, t, now)
  {
    match IndexWhere(users, (u: User) => Resolves(u, t, now))
    case None => None
    case Some(i) => Some(users[i])
  }

  /** Token uniqueness makes the lookup unambiguous: `scalar_one_or_none`
      never sees two rows. */
  lemma ResolvesAtMostOne(users: seq<User>, t: Token, now: Time, i: nat, j: nat)
    requires TokensUnique(users)
    requires i < |users| && j < |users|
    requires Resolves(users[i], t, now) && Resolves(users[j], t, now)
    ensures i == j
  {
  }

  /** A token never resolves at or after its expiry: the comparison is strict. */
  lemma ExpiredTokenDoesNotResolve(users: seq<User>, t: Token, now: Time)
    requires forall i :: 0 <= i < |users| && users[i].token == Some(t) ==>
      users[i].tokenExpiresAt.Some? && users[i].tokenExpiresAt.value <= now
    ensures UserByToken(users, t, now).None?
  {
  }

  // ---------------------------------------------------------------------
  // register_user

  datatype RegisterOutcome = Registered(token: Token) | EmailAlreadyRegistered

  /** `register_user`: appends a user with the hashed password, the fresh
      token and its expiry, and returns the token; a taken email makes the
      insert fail and leaves the table as it was. */
  function RegisterStep(users: seq<User>, email: string, hashed: string, name: string,
                        token: Token, now: Time): (r: (RegisterOutcome, seq<User>))
    ensures r.0 == EmailAlreadyRegistered <==> EmailRegistered(users, email)
    ensures r.0 == EmailAlreadyRegistered ==> r.1 == users
    ensures r.0.Registered? ==>
      r.0.token == token && |r.1| == |users| + 1 && r.1[..|users|] == users &&
      var u := r.1[|users|];
      u.email == email && u.password == hashed && u.name == name &&
      u.token == Some(token) && u.tokenExpiresAt == Some(TokenExpiry(now)) &&
      !u.isAdmin && !u.isVerified
  {
    if EmailRegistered(users, email) then (EmailAlreadyRegistered, users)
    else
      var u := NewUser(NextId(UserIds(users)), email, hashed, name, Some(token), Some(TokenExpiry(now)), now);
      (Registered(token), users + [u])
  }

  lemma RegisterPreservesValid(users: seq<User>, email: string, hashed: string, name: string, token: Token, now: Time)
    requires UsersValid(users) && FreshToken(users, token)
    ensures UsersValid(RegisterStep(users, email, hashed, name, token, now).1)
  {
    var r := RegisterStep(users, email, hashed, name, token, now);
    if r.0.Registered? {
      var u := r.1[|users|];
      assert r.1 == users + [u];
      assert UserIds(r.1) == UserIds(users) + [u.id];
    }
  }

  /** A freshly registered token authenticates its new user exactly until
      `now` plus the token lifetime, and not from that moment on. */
  lemma RegisterThenResolve(users: seq<User>, email: string, hashed: string, name: string,
                            token: Token, now: Time, later: Time)
    requires FreshToken(users, token)
    requires RegisterStep(users, email, hashed, name, token, now).0.Registered?
    ensures var users' := RegisterStep(users, email, hashed, name, token, now).1;
      var found := UserByToken(users', token, later);
      (found.Some? <==> later < now + TokenLifetime) &&
      (found.Some? ==> found.value.email == email)
  {
    var users' := RegisterStep(users, email, hashed, name, token, now).1;
    assert forall i :: 0 <= i < |users| ==> users'[i] == users[i] && !Resolves(users'[i], token, later);
    if later < now + TokenLifetime {
      assert Resolves(users'[|users|], token, later);
    }
  }

  // ---------------------------------------------------------------------
  // login_user

  datatype LoginOutcome = EmailNotFound | InvalidPassword | LoggedIn(token: Token)

  /** The stored token may be handed out again: it is set and its expiry is
      strictly after `now`. */
  predicate HasLiveToken(u: User, now: Time) {
    u.token.Some? && u.token.value != "" && u.tokenExpiresAt.Some? && u.tokenExpiresAt.value > now
  }

  function WithToken(u: User, token: Token, now: Time): (u': User)
    ensures u'.token == Some(token) && u'.tokenExpiresAt == Some(TokenExpiry(now))
    ensures u' == u.(token := u'.token, tokenExpiresAt := u'.tokenExpiresAt)
  {
    u.(token := Some(token), tokenExpiresAt := Some(TokenExpiry(now)))
  }

  /** `login_user`, branch for branch: unknown email, wrong password, an
      expired token replaced, a live token returned, otherwise a new token. */
  function LoginStep(users: seq<User>, email: string, password: string, hash: string -> string,
                     now: Time, newToken: Token): (r: (LoginOutcome, seq<User>))
    ensures r.0 == EmailNotFound <==> !EmailRegistered(users, email)
    ensures !r.0.LoggedIn? ==> r.1 == users
    ensures r.0 == InvalidPassword <==>
      EmailRegistered(users, email) && hash(password) != users[FindUserByEmail(users, email).value].password
    ensures r.0.LoggedIn? ==>
      var i := FindUserByEmail(users, email).value;
      if HasLiveToken(users[i], now) then r.0.token == users[i].token.value && r.1 == users
      else r.0.token == newToken && r.1 == users[i := WithToken(users[i], newToken, now)]
  {
    match FindUserByEmail(users, email)
    case None => (EmailNotFound, users)
    case Some(i) =>
      var u := users[i];
      if hash(password) != u.password then (InvalidPassword, users)
      else if u.tokenExpiresAt.Some? && u.tokenExpiresAt.value < now then
        (LoggedIn(newToken), users[i := WithToken(u, newToken, now)])
      else if u.token.Some? && u.token.value != "" && u.tokenExpiresAt.Some? && u.tokenExpiresAt.value > now then
        (LoggedIn(u.token.value), users)
      else
        // A token without an expiry would make the source's `>` raise on
        // `None`; `TokensPaired` excludes that state from a valid table.
        (LoggedIn(newToken), users[i := WithToken(u, newToken, now)])
  }

  lemma LoginPreservesValid(users: seq<User>, email: string, password: string, hash: string -> string,
                            now: Time, newToken: Token)
    requires UsersValid(users) && FreshToken(users, newToken)
    ensures UsersValid(LoginStep(users, email, password, hash, now, newToken).1)
  {
    var r := LoginStep(users, email, password, hash, now, newToken);
    if r.1 != users {
      var i := FindUserByEmail(users, email).value;
      SetTokenPreservesValid(users, i, newToken, now);
    }
  }

  lemma SetTokenPreservesValid(users: seq<User>, i: nat, newToken: Token, now: Time)
    requires UsersValid(users) && FreshToken(users, newToken) && i < |users|
    ensures UsersValid(users[i := WithToken(users[i], newToken, now)])
  {
    var users' := users[i := WithToken(users[i], newToken, now)];
    assert UserIds(users') == UserIds(users);
    forall a, b | 0 <= a < b < |users'| && users'[a].token.Some?
      ensures users'[a].token != users'[b].token
    {
      if a == i {
        assert users'[b] == users[b];
      } else if b == i {
        assert users'[a] == users[a];
      } else {
        assert users'[a] == users[a] && users'[b] == users[b];
      }
    }
  }

  /** A successful login hands out a token that authenticates that user at
      the same moment. */
  lemma LoginTokenResolves(users: seq<User>, email: string, password: string, hash: string -> string,
                           now: Time, newToken: Token)
    requires UsersValid(users) && FreshToken(users, newToken)
    requires LoginStep(users, email, password, hash, now, newToken).0.LoggedIn?
    ensures var r := LoginStep(users, email, password, hash, now, newToken);
      var found := UserByToken(r.1, r.0.token, now);
      found.Some? && found.value.email == email
  {
    var r := LoginStep(users, email, password, hash, now, newToken);
    var i := FindUserByEmail(users, email).value;
    var t := r.0.token;
    assert Resolves(r.1[i], t, now);
    forall j | 0 <= j < |r.1| && Resolves(r.1[j], t, now)
      ensures j == i
    {
      if HasLiveToken(users[i], now) {
        ResolvesAtMostOne(users, t, now, i, j);
      }
    }
  }

  /** Logging in twice at the same moment returns the same token and the
      second call changes nothing. */
  lemma LoginTwiceSameToken(users: seq<User>, email: string, password: string, hash: string -> string,
                            now: Time, fresh1: Token, fresh2: Token)
    requires fresh1 != ""
    requires LoginStep(users, email, password, hash, now, fresh1).0.LoggedIn?
    ensures var r1 := LoginStep(users, email, password, hash, now, fresh1);
      var r2 := LoginStep(r1.1, email, password, hash, now, fresh2);
      r2 == (r1.0, r1.1)
  {
    var r1 := LoginStep(users, email, password, hash, now, fresh1);
    var i := FindUserByEmail(users, email).value;
    assert forall j :: 0 <= j < |r1.1| ==> r1.1[j].email == users[j].email;
    assert FindUserByEmail(r1.1, email) == Some(i);
    assert HasLiveToken(r1.1[i], now);
  }

  // ---------------------------------------------------------------------
  // update_user_profile, make_user_admin

  datatype ProfileOutcome = ProfileNotFound | EmailConflict | ProfileUpdated(user: User)

  /** Another user already holds the email. */
  predicate EmailHeldByOther(users: seq<User>, i: nat, email: string) {
    exists j :: 0 <= j < |users| && j != i && users[j].email == email
  }

  /** `update_user_profile`: `None` for an unknown id; otherwise name and
      email are overwritten only by truthy values. Writing an email another
      user holds violates the unique constraint and the commit fails. */
  function UpdateProfileStep(users: seq<User>, id: int, name: Option<string>, email: Option<string>): (r: (ProfileOutcome, seq<User>))
    ensures r.0 == ProfileNotFound <==> GetUserById(users, id).None?
    ensures r.0 == EmailConflict <==>
      FindUserById(users, id).Some? && Truthy(email) && EmailHeldByOther(users, FindUserById(users, id).value, email.value)
    ensures !r.0.ProfileUpdated? ==> r.1 == users
    ensures r.0.ProfileUpdated? ==>
      var i := FindUserById(users, id).value;
      var u := r.0.user;
      r.1 == users[i := u] &&
      u.name == (if Truthy(name) then name.value else users[i].name) &&
      u.email == (if Truthy(email) then email.value else users[i].email) &&
      u == users[i].(name := u.name, email := u.email)
  {
    match FindUserById(users, id)
    case None => (ProfileNotFound, users)
    case Some(i) =>
      var u := users[i];
      var u1 := if Truthy(name) then u.(name := name.value) else u;
      var u2 := if Truthy(email) then u1.(email := email.value) else u1;
      if Truthy(email) && EmailHeldByOther(users, i, email.value) then (EmailConflict, users)
      else (ProfileUpdated(u2), users[i := u2])
  }

  lemma UpdateProfilePreservesValid(users: seq<User>, id: int, name: Option<string>, email: Option<string>)
    requires UsersValid(users)
    ensures UsersValid(UpdateProfileStep(users, id, name, email).1)
  {
    var r := UpdateProfileStep(users, id, name, email);
    if r.0.ProfileUpdated? {
      var i := FindUserById(users, id).value;
      assert UserIds(r.1) == UserIds(users);
      forall a, b | 0 <= a < b < |r.1|
        ensures r.1[a].email != r.1[b].email
        ensures r.1[a].token.Some? ==> r.1[a].token != r.1[b].token
      {
        if a != i && b != i {
          assert r.1[a] == users[a] && r.1[b] == users[b];
        }
      }
    }
  }

  /** A profile update touches one row, and at most its name and email. */
  lemma UpdateProfileTouchesOneRow(users: seq<User>, id: int, name: Option<string>, email: Option<string>, j: nat)
    requires j < |users| && users[j].id != id
    ensures var r := UpdateProfileStep(users, id, name, email);
      |r.1| == |users| && r.1[j] == users[j]
  {
  }

  /** `make_user_admin`: `None` for an unknown id, otherwise the user with
      `is_admin` set and nothing else changed. */
  function MakeAdminStep(users: seq<User>, id: int): (r: (Option<User>, seq<User>))
    ensures r.0.None? <==> GetUserById(users, id).None?
    ensures r.0.None? ==> r.1 == users
    ensures r.0.Some? ==>
      var i := FindUserById(users, id).value;
      r.0.value.isAdmin && r.0.value == users[i].(isAdmin := true) && r.1 == users[i := r.0.value]
  {
    match FindUserById(users, id)
    case None => (None, users)
    case Some(i) =>
      var u := users[i].(isAdmin := true);
      (Some(u), users[i := u])
  }

  lemma MakeAdminPreservesValid(users: seq<User>, id: int)
    requires UsersValid(users)
    ensures UsersValid(MakeAdminStep(users, id).1)
  {
    var r := MakeAdminStep(users, id);
    if r.0.Some? {
      var i := FindUserById(users, id).value;
      assert UserIds(r.1) == UserIds(users);
      forall a, b | 0 <= a < b < |r.1|
        ensures r.1[a].email != r.1[b].email
        ensures r.1[a].token.Some? ==> r.1[a].token != r.1[b].token
      {
        assert r.1[a].email == users[a].email && r.1[b].email == users[b].email;
        assert r.1[a].token == users[a].token && r.1[b].token == users[b].token;
      }
    }
  }

  // ---------------------------------------------------------------------
  // cleanup_expired_tokens

  /** The row matches `token_expires_at < now`; a NULL expiry never does. */
  predicate TokenExpired(u: User, now: Time) {
    u.tokenExpiresAt.Some? && u.tokenExpiresAt.value < now
  }

  function TokenExpiredAt(now: Time): User -> bool {
    (u: User) => TokenExpired(u, now)
  }

  function ClearToken(u: User): (u': User)
    ensures u'.token.None? && u'.tokenExpiresAt.None?
    ensures u' == u.(token := None, tokenExpiresAt := None)
  {
    u.(token := None, tokenExpiresAt := None)
  }

  /** The table after `cleanup_expired_tokens`: expired rows lose token and
      expiry together, every other row is as it was. */
  function ClearExpiredTokens(users: seq<User>, now: Time): (r: seq<User>)
    ensures |r| == |users|
    ensures forall i :: 0 <= i < |users| ==>
      r[i] == if TokenExpired(users[i], now) then ClearToken(users[i]) else users[i]
  {
    seq(|users|, i requires 0 <= i < |users| => if TokenExpired(users[i], now) then ClearToken(users[i]) else users[i])
  }

  /** The number of rows `cleanup_expired_tokens` clears. */
  function ExpiredTokenCount(users: seq<User>, now: Time): (n: nat)
    ensures n <= |users|
    ensures n == 0 <==> forall i :: 0 <= i < |users| ==> !TokenExpired(users[i], now)
  {
    Count(users, TokenExpiredAt(now))
  }

  lemma ClearExpiredTokensPreservesValid(users: seq<User>, now: Time)
    requires UsersValid(users)
    ensures UsersValid(ClearExpiredTokens(users, now))
  {
    var r := ClearExpiredTokens(users, now);
    assert UserIds(r) == UserIds(users);
    forall a, b | 0 <= a < b < |r| && r[a].token.Some?
      ensures r[a].token != r[b].token
    {
      assert r[a] == users[a];
    }
  }

  /** After the cleanup no row is expired, and every token that resolved at
      any moment from `now` on still resolves to the same row. */
  lemma CleanupKeepsLiveTokens(users: seq<User>, now: Time, t: Token, later: Time)
    requires later >= now
    ensures forall i :: 0 <= i < |users| ==> !TokenExpired(ClearExpiredTokens(users, now)[i], now)
    ensures UserByToken(ClearExpiredTokens(users, now), t, later) == UserByToken(users, t, later)
  {
    var r := ClearExpiredTokens(users, now);
    assert forall i :: 0 <= i < |users| ==> (Resolves(r[i], t, later) <==> Resolves(users[i], t, later));
    assert forall i :: 0 <= i < |users| && Resolves(users[i], t, later) ==> r[i] == users[i];
    FirstMatchAgrees(users, r, t, later);
  }

  lemma {:induction false} FirstMatchAgrees(a: seq<User>, b: seq<User>, t: Token, now: Time)
    requires |a| == |b|
    requires forall i :: 0 <= i < |a| ==> (Resolves(a[i], t, now) <==> Resolves(b[i], t, now))
    requires forall i :: 0 <= i < |a| && Resolves(a[i], t, now) ==> a[i] == b[i]
    ensures UserByToken(a, t, now) == UserByToken(b, t, now)
  {
    var ia := IndexWhere(a, (u: User) => Resolves(u, t, now));
    var ib := IndexWhere(b, (u: User) => Resolves(u, t, now));
    if ia.Some? {
      assert ib.Some?;
      assert ia.value == ib.value;
    } else {
      assert ib.None?;
    }
  }

  // =====================================================================
  // Lessons

  function FindLessonById(lessons: seq<Lesson>, id: int): (r: Option<nat>)
    ensures r.None? <==> forall i :: 0 <= i < |lessons| ==> lessons[i].id != id
    ensures r.Some? ==> r.value < |lessons| && lessons[r.value].id == id
    ensures r.Some? && Increasing(LessonIds(lessons)) ==>
      forall i :: 0 <= i < |lessons| && lessons[i].id == id ==> i == r.value
  {
    IndexWhere(lessons, (l: Lesson) => l.id == id)
  }

  /** `create_lesson`: appends the lesson with the next id. */
  function CreateLessonStep(lessons: seq<Lesson>, title: string, description: string, difficulty: string,
                            content: string, orderIndex: int, now: Time): (r: (Lesson, seq<Lesson>))
    ensures r.1 == lessons + [r.0]
    ensures r.0 == Lesson(r.0.id, title, description, difficulty, content, orderIndex, now)
    ensures Increasing(LessonIds(lessons)) ==> Increasing(LessonIds(r.1))
  {
    var l := Lesson(NextId(LessonIds(lessons)), title, description, difficulty, content, orderIndex, now);
    assert LessonIds(lessons + [l]) == LessonIds(lessons) + [l.id];
    (l, lessons + [l])
  }

  /** `update_lesson`: `None` for an unknown id; otherwise each text field is
      overwritten only by a truthy value and `order_index` by any value that
      is not `None` (so 0 counts). */
  function UpdateLessonStep(lessons: seq<Lesson>, id: int, title: Option<string>, description: Option<string>,
                            difficulty: Option<string>, content: Option<string>, orderIndex: Option<int>): (r: (Option<Lesson>, seq<Lesson>))
    ensures r.0.None? <==> FindLessonById(lessons, id).None?
    ensures r.0.None? ==> r.1 == lessons
    ensures r.0.Some? ==>
      var i := FindLessonById(lessons, id).value;
      var l := r.0.value;
      r.1 == lessons[i := l] && l.id == id && l.createdAt == lessons[i].createdAt &&
      l.title == (if Truthy(title) then title.value else lessons[i].title) &&
      l.description == (if Truthy(description) then description.value else lessons[i].description) &&
      l.difficulty == (if Truthy(difficulty) then difficulty.value else lessons[i].difficulty) &&
      l.content == (if Truthy(content) then content.value else lessons[i].content) &&
      l.orderIndex == (if orderIndex.Some? then orderIndex.value else lessons[i].orderIndex)
  {
    match FindLessonById(lessons, id)
    case None => (None, lessons)
    case Some(i) =>
      var l0 := lessons[i];
      var l1 := if Truthy(title) then l0.(title := title.value) else l0;
      var l2 := if Truthy(description) then l1.(description := description.value) else l1;
      var l3 := if Truthy(difficulty) then l2.(difficulty := difficulty.value) else l2;
      var l4 := if Truthy(content) then l3.(content := content.value) else l3;
      var l5 := if orderIndex.Some? then l4.(orderIndex := orderIndex.value) else l4;
      (Some(l5), lessons[i := l5])
  }

  /** An update whose every text argument is falsy (`None` or empty) and
      whose `order_index` is `None` still finds the lesson and leaves it as
      it was. */
  lemma EmptyLessonUpdateChangesNothing(lessons: seq<Lesson>, id: int, title: Option<string>,
                                        description: Option<string>, difficulty: Option<string>,
                                        content: Option<string>, orderIndex: Option<int>)
    requires FindLessonById(lessons, id).Some?
    requires !Truthy(title) && !Truthy(description) && !Truthy(difficulty) && !Truthy(content) && orderIndex.None?
    ensures UpdateLessonStep(lessons, id, title, description, difficulty, content, orderIndex) ==
      (Some(lessons[FindLessonById(lessons, id).value]), lessons)
  {
    var i := FindLessonById(lessons, id).value;
    assert lessons[i := lessons[i]] == lessons;
  }

  /** `delete_lesson`: `false` (the source's `None`) for an unknown id,
      otherwise the row is removed and the rest keep their order. */
  function DeleteLessonStep(lessons: seq<Lesson>, id: int): (r: (bool, seq<Lesson>))
    ensures !r.0 <==> FindLessonById(lessons, id).None?
    ensures !r.0 ==> r.1 == lessons
    ensures r.0 ==> |r.1| == |lessons| - 1
    ensures r.0 ==>
      var i := FindLessonById(lessons, id).value;
      forall k :: 0 <= k < |r.1| ==> r.1[k] == if k < i then lessons[k] else lessons[k + 1]
    ensures Increasing(LessonIds(lessons)) ==>
      Increasing(LessonIds(r.1)) && forall i :: 0 <= i < |r.1| ==> r.1[i].id != id
  {
    match FindLessonById(lessons, id)
    case None => (false, lessons)
    case Some(i) =>
      var rest := lessons[..i] + lessons[i + 1..];
      assert forall k :: 0 <= k < |rest| ==> rest[k] == if k < i then lessons[k] else lessons[k + 1];
      (true, rest)
  }

  datatype LessonCounts = LessonCounts(total: nat, beginner: nat, intermediate: nat, advanced: nat)

  function DifficultyIs(d: string): Lesson -> bool {
    (l: Lesson) => l.difficulty == d
  }

  /** `get_lesson_stats`: each difficulty count is the number of lessons
      that carry it, zero exactly when none does, and the three never exceed
      the total. */
  function LessonStats(lessons: seq<Lesson>): (c: LessonCounts)
    ensures c.total == |lessons|
    ensures c.beginner == |Filter(lessons, DifficultyIs("beginner"))|
    ensures c.intermediate == |Filter(lessons, DifficultyIs("intermediate"))|
    ensures c.advanced == |Filter(lessons, DifficultyIs("advanced"))|
    ensures c.beginner + c.intermediate + c.advanced <= c.total
    ensures c.beginner == 0 <==> forall i :: 0 <= i < |lessons| ==> lessons[i].difficulty != "beginner"
    ensures c.intermediate == 0 <==> forall i :: 0 <= i < |lessons| ==> lessons[i].difficulty != "intermediate"
    ensures c.advanced == 0 <==> forall i :: 0 <= i < |lessons| ==> lessons[i].difficulty != "advanced"
  {
    CountExclusive3(lessons, DifficultyIs("beginner"), DifficultyIs("intermediate"), DifficultyIs("advanced"));
    CountIsFilterLength(lessons, DifficultyIs("beginner"));
    CountIsFilterLength(lessons, DifficultyIs("intermediate"));
    CountIsFilterLength(lessons, DifficultyIs("advanced"));
    LessonCounts(|lessons|, Count(lessons, DifficultyIs("beginner")), Count(lessons, DifficultyIs("intermediate")),
                 Count(lessons, DifficultyIs("advanced")))
  }

  // =====================================================================
  // Quizzes and submissions

  /** What `get_quiz` sees: no quiz, one quiz, or several, on which
      `scalar_one_or_none` raises. */
  datatype QuizLookup = NoQuiz | OneQuiz(quiz: Quiz) | ManyQuizzes

  function ForLesson(lessonId: int): Quiz -> bool {
    (q: Quiz) => q.lessonId == lessonId
  }

  /** `get_quiz(lesson_id)` */
  function QuizForLesson(quizzes: seq<Quiz>, lessonId: int): (r: QuizLookup)
    ensures r.NoQuiz? <==> forall i :: 0 <= i < |quizzes| ==> quizzes[i].lessonId != lessonId
    ensures r.OneQuiz? ==> r.quiz in quizzes && r.quiz.lessonId == lessonId
    ensures r.OneQuiz? <==> Count(quizzes, ForLesson(lessonId)) == 1
  {
    var matching := Filter(quizzes, ForLesson(lessonId));
    CountIsFilterLength(quizzes, ForLesson(lessonId));
    if |matching| == 0 then NoQuiz
    else if |matching| == 1 then (assert matching[0] in matching; OneQuiz(matching[0]))
    else ManyQuizzes
  }

  /** `create_quiz`: appends the quiz; `total_points` defaults to 100 at the caller. */
  function CreateQuizStep(quizzes: seq<Quiz>, lessonId: int, title: string, questions: seq<string>,
                          totalPoints: int, now: Time): (r: (Quiz, seq<Quiz>))
    ensures r.1 == quizzes + [r.0]
    ensures r.0 == Quiz(r.0.id, lessonId, title, questions, totalPoints, now)
    ensures Increasing(QuizIds(quizzes)) ==> Increasing(QuizIds(r.1))
  {
    var q := Quiz(NextId(QuizIds(quizzes)), lessonId, title, questions, totalPoints, now);
    assert QuizIds(quizzes + [q]) == QuizIds(quizzes) + [q.id];
    (q, quizzes + [q])
  }

  function FindQuizById(quizzes: seq<Quiz>, id: int): (r: Option<nat>)
    ensures r.None? <==> forall i :: 0 <= i < |quizzes| ==> quizzes[i].id != id
    ensures r.Some? ==> r.value < |quizzes| && quizzes[r.value].id == id
    ensures r.Some? && Increasing(QuizIds(quizzes)) ==>
      forall i :: 0 <= i < |quizzes| && quizzes[i].id == id ==> i == r.value
  {
    IndexWhere(quizzes, (q: Quiz) => q.id == id)
  }

  /** `update_quiz`: title and questions only when truthy, `total_points`
      whenever it is not `None`, so 0 is written. */
  function UpdateQuizStep(quizzes: seq<Quiz>, id: int, title: Option<string>, questions: Option<seq<string>>,
                          totalPoints: Option<int>): (r: (Option<Quiz>, seq<Quiz>))
    ensures r.0.None? <==> FindQuizById(quizzes, id).None?
    ensures r.0.None? ==> r.1 == quizzes
    ensures r.0.Some? ==>
      var i := FindQuizById(quizzes, id).value;
      var q := r.0.value;
      r.1 == quizzes[i := q] && q.id == id && q.lessonId == quizzes[i].lessonId &&
      q.createdAt == quizzes[i].createdAt &&
      q.title == (if Truthy(title) then title.value else quizzes[i].title) &&
      q.questions == (if NonEmpty(questions) then questions.value else quizzes[i].questions) &&
      q.totalPoints == (if totalPoints.Some? then totalPoints.value else quizzes[i].totalPoints)
  {
    match FindQuizById(quizzes, id)
    case None => (None, quizzes)
    case Some(i) =>
      var q0 := quizzes[i];
      var q1 := if Truthy(title) then q0.(title := title.value) else q0;
      var q2 := if NonEmpty(questions) then q1.(questions := questions.value) else q1;
      var q3 := if totalPoints.Some? then q2.(totalPoints := totalPoints.value) else q2;
      (Some(q3), quizzes[i := q3])
  }

  /** `submit_quiz`: always appends a completed submission stamped `now`. */
  function SubmitStep(submissions: seq<QuizSubmission>, userId: int, quizId: int, lessonId: int,
                      answers: seq<string>, score: real, maxScore: real, now: Time): (r: (QuizSubmission, seq<QuizSubmission>))
    ensures r.1 == submissions + [r.0]
    ensures r.0.userId == userId && r.0.quizId == quizId && r.0.lessonId == lessonId
    ensures r.0.answers == answers && r.0.score == score && r.0.maxScore == maxScore
    ensures r.0.completed && r.0.submittedAt == now
    ensures Increasing(SubmissionIds(submissions)) ==> Increasing(SubmissionIds(r.1))
  {
    var s := NewSubmission(NextId(SubmissionIds(submissions)), userId, quizId, lessonId, answers, score, maxScore, now);
    assert SubmissionIds(submissions + [s]) == SubmissionIds(submissions) + [s.id];
    (s, submissions + [s])
  }

  /** Submissions only accumulate: every earlier one is kept, unchanged and
      in place, across any number of submits. */
  lemma SubmitKeepsEarlier(submissions: seq<QuizSubmission>, userId: int, quizId: int, lessonId: int,
                           answers: seq<string>, score: real, maxScore: real, now: Time)
    ensures var after := SubmitStep(submissions, userId, quizId, lessonId, answers, score, maxScore, now).1;
      |after| == |submissions| + 1 && after[..|submissions|] == submissions
  {
  }

  predicate NewestFirst(s: seq<QuizSubmission>) {
    forall i, j :: 0 <= i < j < |s| ==> s[i].submittedAt >= s[j].submittedAt
  }

  /** Inserts `x` into a list that is newest first, before the first
      submission that is not newer than it. */
  function InsertByTime(x: QuizSubmission, s: seq<QuizSubmission>): (r: seq<QuizSubmission>)
    requires NewestFirst(s)
    ensures NewestFirst(r)
    ensures multiset(r) == multiset(s) + multiset{x}
    ensures |r| == |s| + 1
  {
    if |s| == 0 || x.submittedAt >= s[0].submittedAt then [x] + s
    else
      var rest := InsertByTime(x, s[1..]);
      assert s == [s[0]] + s[1..];
      forall k | 0 <= k < |rest|
        ensures s[0].submittedAt >= rest[k].submittedAt
      {
        assert rest[k] in multiset(rest);
        if rest[k] != x {
          assert rest[k] in multiset(s[1..]);
          assert rest[k] in s[1..];
        }
      }
      [s[0]] + rest
  }

  /** `ORDER BY submitted_at DESC`: an insertion sort, newest first. */
  function SortNewestFirst(s: seq<QuizSubmission>): (r: seq<QuizSubmission>)
    ensures NewestFirst(r)
    ensures multiset(r) == multiset(s)
    ensures |r| == |s|
  {
    if |s| == 0 then []
    else
      assert s == [s[0]] + s[1..];
      InsertByTime(s[0], SortNewestFirst(s[1..]))
  }

  function SubmittedBy(userId: int): QuizSubmission -> bool {
    (s: QuizSubmission) => s.userId == userId
  }

  /** `get_user_quiz_submissions`: exactly that user's submissions, each as
      often as it is stored, newest first. */
  function SubmissionsOf(submissions: seq<QuizSubmission>, userId: int): (r: seq<QuizSubmission>)
    ensures NewestFirst(r)
    ensures forall s :: s in r ==> s in submissions && s.userId == userId
    ensures forall s :: s in submissions && s.userId == userId ==> s in r
    ensures multiset(r) == multiset(Filter(submissions, SubmittedBy(userId)))
  {
    var mine := Filter(submissions, SubmittedBy(userId));
    var r := SortNewestFirst(mine);
    assert forall s :: s in r <==> s in multiset(r);
    assert forall s :: s in mine <==> s in multiset(mine);
    r
  }

  /** A list sorted newest first, extended by a submission strictly newer
      than all of it, sorts with that submission at the head. */
  lemma {:induction false} SortWithNewest(s: seq<QuizSubmission>, x: QuizSubmission)
    requires forall i :: 0 <= i < |s| ==> s[i].submittedAt < x.submittedAt
    ensures SortNewestFirst(s + [x]) == [x] + SortNewestFirst(s)
  {
    if |s| == 0 {
      assert s + [x] == [x];
    } else {
      assert (s + [x])[0] == s[0];
      assert (s + [x])[1..] == s[1..] + [x];
      SortWithNewest(s[1..], x);
      var rest := SortNewestFirst(s[1..]);
      assert s[0].submittedAt < x.submittedAt;
      assert InsertByTime(s[0], [x] + rest) == [x] + InsertByTime(s[0], rest);
    }
  }

  /** A submission made after every stored one is listed first for its
      user, ahead of that user's earlier list. */
  lemma SubmitThenListNewestFirst(submissions: seq<QuizSubmission>, userId: int, quizId: int, lessonId: int,
                                  answers: seq<string>, score: real, maxScore: real, now: Time)
    requires forall i :: 0 <= i < |submissions| ==> submissions[i].submittedAt < now
    ensures var r := SubmitStep(submissions, userId, quizId, lessonId, answers, score, maxScore, now);
      SubmissionsOf(r.1, userId) == [r.0] + SubmissionsOf(submissions, userId)
  {
    var r := SubmitStep(submissions, userId, quizId, lessonId, answers, score, maxScore, now);
    FilterSnoc(submissions, r.0, SubmittedBy(userId));
    var mine := Filter(submissions, SubmittedBy(userId));
    forall i | 0 <= i < |mine|
      ensures mine[i].submittedAt < r.0.submittedAt
    {
      assert mine[i] in submissions;
      var j :| 0 <= j < |submissions| && submissions[j] == mine[i];
    }
    SortWithNewest(mine, r.0);
  }

  // =====================================================================
  // Progress

  /** At most one progress row per (user, lesson). */
  predicate ProgressKeysUnique(progress: seq<Progress>) {
    forall i, j :: 0 <= i < j < |progress| ==>
      !(progress[i].userId == progress[j].userId && progress[i].lessonId == progress[j].lessonId)
  }

  predicate ProgressValid(progress: seq<Progress>) {
    Increasing(ProgressIds(progress)) && ProgressKeysUnique(progress)
  }

  function FindProgress(progress: seq<Progress>, userId: int, lessonId: int): (r: Option<nat>)
    ensures r.None? <==> forall i :: 0 <= i < |progress| ==> !(progress[i].userId == userId && progress[i].lessonId == lessonId)
    ensures r.Some? ==> r.value < |progress| && progress[r.value].userId == userId && progress[r.value].lessonId == lessonId
    ensures r.Some? && ProgressKeysUnique(progress) ==>
      forall i :: 0 <= i < |progress| && progress[i].userId == userId && progress[i].lessonId == lessonId ==> i == r.value
  {
    IndexWhere(progress, (p: Progress) => p.userId == userId && p.lessonId == lessonId)
  }

  /** `get_lesson_progress` */
  function LessonProgress(progress: seq<Progress>, userId: int, lessonId: int): (r: Option<Progress>)
    ensures r.None? <==> forall i :: 0 <= i < |progress| ==> !(progress[i].userId == userId && progress[i].lessonId == lessonId)
    ensures r.Some? ==> r.value in progress && r.value.userId == userId && r.value.lessonId == lessonId
  {
    match FindProgress(progress, userId, lessonId)
    case None => None
    case Some(i) => Some(progress[i])
  }

  function OfUser(userId: int): Progress -> bool {
    (p: Progress) => p.userId == userId
  }

  /** `get_progress`: the user's rows in table order. */
  function ProgressOf(progress: seq<Progress>, userId: int): (r: seq<Progress>)
    ensures forall p :: p in r <==> p in progress && p.userId == userId
  {
    Filter(progress, OfUser(userId))
  }

  /** `save_progress`: inserts a row for a new (user, lesson) pair, stamped
      `now`; otherwise overwrites that row's completed flag, percentage,
      time spent and last access with the new values. */
  function SaveProgressStep(progress: seq<Progress>, userId: int, lessonId: int, completed: bool,
                            percentage: real, timeSpent: int, now: Time): (r: (Progress, seq<Progress>))
    ensures r.0.userId == userId && r.0.lessonId == lessonId
    ensures r.0.completed == completed && r.0.completionPercentage == percentage
    ensures r.0.timeSpent == timeSpent && r.0.lastAccessed == now
    ensures FindProgress(progress, userId, lessonId).None? ==> r.1 == progress + [r.0] && r.0.createdAt == now
    ensures FindProgress(progress, userId, lessonId).Some? ==>
      var i := FindProgress(progress, userId, lessonId).value;
      r.1 == progress[i := r.0] && r.0.id == progress[i].id && r.0.createdAt == progress[i].createdAt
  {
    match FindProgress(progress, userId, lessonId)
    case None =>
      var p := Progress(NextId(ProgressIds(progress)), userId, lessonId, completed, percentage, timeSpent, now, now);
      (p, progress + [p])
    case Some(i) =>
      var p := progress[i].(completed := completed, completionPercentage := percentage,
                            timeSpent := timeSpent, lastAccessed := now);
      (p, progress[i := p])
  }

  /** The upsert keeps the table valid, leaves exactly one row for the pair,
      holding the new values, and leaves the row of every other pair alone. */
  lemma SaveProgressUpserts(progress: seq<Progress>, userId: int, lessonId: int, completed: bool,
                            percentage: real, timeSpent: int, now: Time)
    requires ProgressValid(progress)
    ensures var r := SaveProgressStep(progress, userId, lessonId, completed, percentage, timeSpent, now);
      ProgressValid(r.1) &&
      LessonProgress(r.1, userId, lessonId) == Some(r.0) &&
      forall u, l :: (u, l) != (userId, lessonId) ==> LessonProgress(r.1, u, l) == LessonProgress(progress, u, l)
  {
    var r := SaveProgressStep(progress, userId, lessonId, completed, percentage, timeSpent, now);
    match FindProgress(progress, userId, lessonId)
    case None =>
      assert ProgressIds(r.1) == ProgressIds(progress) + [r.0.id];
      forall u, l | (u, l) != (userId, lessonId)
        ensures LessonProgress(r.1, u, l) == LessonProgress(progress, u, l)
      {
        PrefixLookup(progress, r.0, u, l);
      }
      PrefixLookupNew(progress, r.0);
    case Some(i) =>
      assert ProgressIds(r.1) == ProgressIds(progress);
      assert ProgressKeysUnique(r.1) by {
        forall a, b | 0 <= a < b < |r.1|
          ensures !(r.1[a].userId == r.1[b].userId && r.1[a].lessonId == r.1[b].lessonId)
        {
          assert r.1[a].userId == progress[a].userId && r.1[a].lessonId == progress[a].lessonId;
          assert r.1[b].userId == progress[b].userId && r.1[b].lessonId == progress[b].lessonId;
        }
      }
      forall u, l | (u, l) != (userId, lessonId)
        ensures LessonProgress(r.1, u, l) == LessonProgress(progress, u, l)
      {
        SameKeysLookup(progress, r.1, i, u, l);
      }
      assert FindProgress(r.1, userId, lessonId) == Some(i);
  }

  lemma PrefixLookup(progress: seq<Progress>, p: Progress, u: int, l: int)
    requires (u, l) != (p.userId, p.lessonId)
    ensures LessonProgress(progress + [p], u, l) == LessonProgress(progress, u, l)
  {
    var t := progress + [p];
    var a := FindProgress(progress, u, l);
    var b := FindProgress(t, u, l);
    assert forall k :: 0 <= k < |progress| ==> t[k] == progress[k];
    if a.Some? {
      assert b.Some? && b.value <= a.value;
      assert b.value == a.value;
    } else {
      assert b.None?;
    }
  }

  lemma PrefixLookupNew(progress: seq<Progress>, p: Progress)
    requires forall i :: 0 <= i < |progress| ==> !(progress[i].userId == p.userId && progress[i].lessonId == p.lessonId)
    ensures LessonProgress(progress + [p], p.userId, p.lessonId) == Some(p)
    ensures ProgressKeysUnique(progress) ==> ProgressKeysUnique(progress + [p])
  {
    var t := progress + [p];
    assert forall k :: 0 <= k < |progress| ==> t[k] == progress[k];
    assert t[|progress|] == p;
    var r := FindProgress(t, p.userId, p.lessonId);
    assert r.Some?;
    assert r.value == |progress|;
  }

  lemma SameKeysLookup(progress: seq<Progress>, t: seq<Progress>, i: nat, u: int, l: int)
    requires i < |progress| && |t| == |progress|
    requires forall k :: 0 <= k < |progress| && k != i ==> t[k] == progress[k]
    requires t[i].userId == progress[i].userId && t[i].lessonId == progress[i].lessonId
    requires (u, l) != (progress[i].userId, progress[i].lessonId)
    ensures LessonProgress(t, u, l) == LessonProgress(progress, u, l)
  {
    var a := FindProgress(progress, u, l);
    var b := FindProgress(t, u, l);
    if a.Some? {
      assert b.Some? && b.value <= a.value;
      assert b.value == a.value;
    } else {
      assert b.None?;
    }
  }

  /** Saving twice replaces rather than accumulates: the row holds the
      second call's values and the table does not grow. */
  lemma SaveProgressTwiceReplaces(progress: seq<Progress>, userId: int, lessonId: int,
                                  c1: bool, p1: real, t1: int, now1: Time,
                                  c2: bool, p2: real, t2: int, now2: Time)
    requires ProgressValid(progress)
    ensures var first := SaveProgressStep(progress, userId, lessonId, c1, p1, t1, now1);
      var second := SaveProgressStep(first.1, userId, lessonId, c2, p2, t2, now2);
      |second.1| == |first.1| &&
      LessonProgress(second.1, userId, lessonId) == Some(second.0) &&
      second.0.completed == c2 && second.0.completionPercentage == p2 && second.0.timeSpent == t2 &&
      second.0.id == first.0.id
  {
    SaveProgressUpserts(progress, userId, lessonId, c1, p1, t1, now1);
    var first := SaveProgressStep(progress, userId, lessonId, c1, p1, t1, now1);
    SaveProgressUpserts(first.1, userId, lessonId, c2, p2, t2, now2);
    var i := FindProgress(first.1, userId, lessonId).value;
    assert first.1[i] == first.0;
  }

  function Sum(progress: seq<Progress>): real {
    if |progress| == 0 then 0.0 else progress[0].completionPercentage + Sum(progress[1..])
  }

  datatype ProgressCounts = ProgressCounts(total: nat, completed: nat, average: Option<real>)

  function IsCompleted(): Progress -> bool {
    (p: Progress) => p.completed
  }

  /** `get_progress_stats`: the completed count is the number of completed
      rows, zero exactly when none is, and the SQL average is NULL exactly
      when the table is empty. */
  function ProgressStats(progress: seq<Progress>): (c: ProgressCounts)
    ensures c.total == |progress| && c.completed <= c.total
    ensures c.completed == |Filter(progress, IsCompleted())|
    ensures c.completed == 0 <==> forall i :: 0 <= i < |progress| ==> !progress[i].completed
    ensures c.average.None? <==> |progress| == 0
  {
    CountIsFilterLength(progress, IsCompleted());
    ProgressCounts(|progress|, Count(progress, IsCompleted()),
                   if |progress| == 0 then None else Some(Sum(progress) / (|progress| as real)))
  }

  /** The average lies between any lower and upper bound of all the rows' percentages. */
  lemma AverageWithinBounds(progress: seq<Progress>, lo: real, hi: real)
    requires |progress| > 0
    requires forall i :: 0 <= i < |progress| ==> lo <= progress[i].completionPercentage <= hi
    ensures lo <= ProgressStats(progress).average.value <= hi
  {
    SumBounds(progress, lo, hi);
    var n := |progress| as real;
    assert lo * n <= Sum(progress) <= hi * n;
    assert Sum(progress) / n >= lo by { assert Sum(progress) >= lo * n; }
    assert Sum(progress) / n <= hi by { assert Sum(progress) <= hi * n; }
  }

  lemma {:induction false} SumBounds(progress: seq<Progress>, lo: real, hi: real)
    requires forall i :: 0 <= i < |progress| ==> lo <= progress[i].completionPercentage <= hi
    ensures lo * (|progress| as real) <= Sum(progress) <= hi * (|progress| as real)
  {
    if |progress| > 0 {
      SumBounds(progress[1..], lo, hi);
    }
  }

  // =====================================================================
  // Hints

  /** `create_hint`: appends the hint; the level defaults to 1 at the caller. */
  function CreateHintStep(hints: seq<Hint>, lessonId: int, text: string, level: int, now: Time): (r: (Hint, seq<Hint>))
    ensures r.1 == hints + [r.0]
    ensures r.0 == Hint(r.0.id, lessonId, text, level, now)
    ensures Increasing(HintIds(hints)) ==> Increasing(HintIds(r.1))
  {
    var h := Hint(NextId(HintIds(hints)), lessonId, text, level, now);
    assert HintIds(hints + [h]) == HintIds(hints) + [h.id];
    (h, hints + [h])
  }

  // =====================================================================
  // Users: admin counters

  datatype UserCounts = UserCounts(total: nat, verified: nat, admins: nat)

  function IsVerified(): User -> bool {
    (u: User) => u.isVerified
  }

  function IsAdmin(): User -> bool {
    (u: User) => u.isAdmin
  }

  /** `get_user_stats`: the verified and admin counts are the numbers of
      verified and admin rows, each zero exactly when no row has the flag. */
  function UserStats(users: seq<User>): (c: UserCounts)
    ensures c.total == |users| && c.verified <= c.total && c.admins <= c.total
    ensures c.verified == |Filter(users, IsVerified())| && c.admins == |Filter(users, IsAdmin())|
    ensures c.verified == 0 <==> forall i :: 0 <= i < |users| ==> !users[i].isVerified
    ensures c.admins == 0 <==> forall i :: 0 <= i < |users| ==> !users[i].isAdmin
  {
    CountIsFilterLength(users, IsVerified());
    CountIsFilterLength(users, IsAdmin());
    UserCounts(|users|, Count(users, IsVerified()), Count(users, IsAdmin()))
  }

  /** Making a user admin raises the admin count by one exactly when that
      user was not an admin before. */
  lemma MakeAdminCount(users: seq<User>, id: int)
    requires MakeAdminStep(users, id).0.Some?
    ensures var i := FindUserById(users, id).value;
      UserStats(MakeAdminStep(users, id).1).admins == UserStats(users).admins + (if users[i].isAdmin then 0 else 1)
  {
    var i := FindUserById(users, id).value;
    CountUpdate(users, i, users[i].(isAdmin := true), IsAdmin());
  }

  lemma {:induction false} CountUpdate<T>(s: seq<T>, i: nat, x: T, p: T -> bool)
    requires i < |s|
    ensures Count(s[i := x], p) == Count(s, p) - (if p(s[i]) then 1 else 0) + (if p(x) then 1 else 0)
  {
    if i > 0 {
      assert s[i := x][1..] == s[1..][i - 1 := x];
      CountUpdate(s[1..], i - 1, x, p);
    } else {
      assert s[i := x][1..] == s[1..];
    }
  }

  // =====================================================================
  // Sessions

  predicate SessionTokensUnique(sessions: seq<UserSession>) {
    forall i, j :: 0 <= i < j < |sessions| ==> sessions[i].sessionToken != sessions[j].sessionToken
  }

  predicate SessionsValid(sessions: seq<UserSession>) {
    Increasing(SessionIds(sessions)) && SessionTokensUnique(sessions)
  }

  function FindSession(sessions: seq<UserSession>, token: Token): (r: Option<nat>)
    ensures r.None? <==> forall i :: 0 <= i < |sessions| ==> sessions[i].sessionToken != token
    ensures r.Some? ==> r.value < |sessions| && sessions[r.value].sessionToken == token
  {
    IndexWhere(sessions, (s: UserSession) => s.sessionToken == token)
  }

  /** `create_session`: appends the session; a token already in use breaks
      the unique constraint and the insert fails (`None`). */
  function CreateSessionStep(sessions: seq<UserSession>, userId: int, token: Token, expiresAt: Option<Time>,
                             now: Time): (r: (Option<UserSession>, seq<UserSession>))
    ensures r.0.None? <==> FindSession(sessions, token).Some?
    ensures r.0.None? ==> r.1 == sessions
    ensures r.0.Some? ==>
      r.1 == sessions + [r.0.value] && r.0.value == UserSession(r.0.value.id, userId, token, expiresAt, now)
    ensures SessionsValid(sessions) ==> SessionsValid(r.1)
  {
    if FindSession(sessions, token).Some? then (None, sessions)
    else
      var s := UserSession(NextId(SessionIds(sessions)), userId, token, expiresAt, now);
      assert SessionIds(sessions + [s]) == SessionIds(sessions) + [s.id];
      (Some(s), sessions + [s])
  }

  /** `get_session` */
  function GetSession(sessions: seq<UserSession>, token: Token): (r: Option<UserSession>)
    ensures r.None? <==> forall i :: 0 <= i < |sessions| ==> sessions[i].sessionToken != token
    ensures r.Some? ==> r.value in sessions && r.value.sessionToken == token
  {
    match FindSession(sessions, token)
    case None => None
    case Some(i) => Some(sessions[i])
  }

  /** `delete_session`: `false` (the source's `None`) for an unknown token,
      otherwise that session is removed and the others keep their order. */
  function DeleteSessionStep(sessions: seq<UserSession>, token: Token): (r: (bool, seq<UserSession>))
    ensures !r.0 <==> FindSession(sessions, token).None?
    ensures !r.0 ==> r.1 == sessions
    ensures r.0 ==> |r.1| == |sessions| - 1
    ensures r.0 ==> var i := FindSession(sessions, token).value;
      forall k :: 0 <= k < |r.1| ==> r.1[k] == if k < i then sessions[k] else sessions[k + 1]
  {
    match FindSession(sessions, token)
    case None => (false, sessions)
    case Some(i) => (true, sessions[..i] + sessions[i + 1..])
  }

  /** Deleting a session keeps the table valid and the token no longer finds a session. */
  lemma DeleteSessionRemovesToken(sessions: seq<UserSession>, token: Token)
    requires SessionsValid(sessions)
    ensures var r := DeleteSessionStep(sessions, token).1;
      SessionsValid(r) && GetSession(r, token).None?
  {
    var r := DeleteSessionStep(sessions, token).1;
    if DeleteSessionStep(sessions, token).0 {
      var i := FindSession(sessions, token).value;
      forall a, b | 0 <= a < b < |r|
        ensures r[a].id < r[b].id && r[a].sessionToken != r[b].sessionToken
      {
        var a' := if a < i then a else a + 1;
        var b' := if b < i then b else b + 1;
        assert r[a] == sessions[a'] && r[b] == sessions[b'];
        assert SessionIds(sessions)[a'] < SessionIds(sessions)[b'];
      }
      forall k | 0 <= k < |r|
        ensures r[k].sessionToken != token
      {
        var k' := if k < i then k else k + 1;
        assert r[k] == sessions[k'];
        assert k' != i;
        if k' < i {
          assert sessions[k'].sessionToken != sessions[i].sessionToken;
        } else {
          assert sessions[i].sessionToken != sessions[k'].sessionToken;
        }
      }
    }
  }

  /** The session matches `expires_at < now`; a NULL expiry never does. */
  predicate SessionExpired(s: UserSession, now: Time) {
    s.expiresAt.Some? && s.expiresAt.value < now
  }

  function SessionLiveAt(now: Time): UserSession -> bool {
    (s: UserSession) => !SessionExpired(s, now)
  }

  /** The table after `cleanup_expired_sessions`: exactly the sessions that
      are not expired, in their order. */
  function LiveSessions(sessions: seq<UserSession>, now: Time): (r: seq<UserSession>)
    ensures forall s :: s in r <==> s in sessions && !SessionExpired(s, now)
    ensures |r| <= |sessions|
  {
    Filter(sessions, SessionLiveAt(now))
  }

  function SessionOrder(): (UserSession, UserSession) -> bool {
    (a: UserSession, b: UserSession) => a.id < b.id && a.sessionToken != b.sessionToken
  }

  /** The cleanup keeps the surviving sessions' ids increasing and their tokens unique. */
  lemma CleanupSessionsPreservesValid(sessions: seq<UserSession>, now: Time)
    requires SessionsValid(sessions)
    ensures SessionsValid(LiveSessions(sessions, now))
  {
    assert forall i, j :: 0 <= i < j < |sessions| ==> SessionIds(sessions)[i] < SessionIds(sessions)[j];
    FilterKeepsOrderedPairs(sessions, SessionLiveAt(now), SessionOrder());
    var r := LiveSessions(sessions, now);
    assert r == Filter(sessions, SessionLiveAt(now));
    assert forall i, j :: 0 <= i < j < |r| ==> SessionOrder()(r[i], r[j]);
  }
}
