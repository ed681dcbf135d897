/** The request guards in front of the handlers: `auth_required`, which
    reads the `Authorization: Bearer <token>` header, resolves the token and
    binds the user to the request, and `admin_required`, which lets only an
    admin through. Both files of handlers (`app/main.py` and
    `app/api/user_endpoints.py`) carry the same `auth_required`; the admin
    handlers of `app/api/admin_endpoints.py` carry `admin_required` alone.

    The bound user is reduced to the two things the handlers read from it,
    its id and its admin flag. As written, `auth_required` binds the ORM
    `User` row itself, while the handlers and `admin_required` read it as a
    mapping of columns (`request.user["id"]`, `request.user.get('is_admin')`);
    `Binding` tells the two apart, and every read of the row raises. */
module Guard {
  import opened Common
  import opened Records
  import AppTables

  const BearerPrefix: string := "Bearer "

  /** What a guard binds to `request.user`. */
  datatype Identity = Identity(id: int, isAdmin: bool)

  function IdentityOf(u: User): (who: Identity)
    ensures who.id == u.id && who.isAdmin == u.isAdmin
  {
    Identity(u.id, u.isAdmin)
  }

  /** What `request.user` holds: the ORM row the code binds, or the mapping
      of its columns that the readers of `request.user` are written for. */
  datatype Binding = OrmRow(who: Identity) | ColumnMap(who: Identity)

  /** Which of the two a guard binds: the code as written, or the mapping. */
  datatype BindingForm = AsWritten | AsMapping

  function Bind(form: BindingForm, who: Identity): (b: Binding)
    ensures b.who == who
    ensures b.OrmRow? <==> form == AsWritten
  {
    if form == AsWritten then OrmRow(who) else ColumnMap(who)
  }

  /** A read of `request.user`: the value read, or the exception raised. */
  datatype Access<T> = Raises(error: string) | Reads(value: T)

  /** `request.user["id"]`: the ORM class defines no `__getitem__`, so on
      the row the subscript raises `TypeError`; a mapping gives the id. */
  function UserIdOf(b: Binding): (r: Access<int>)
    ensures r.Reads? <==> b.ColumnMap?
    ensures r.Reads? ==> r.value == b.who.id
  {
    match b
    case OrmRow(_) => Raises("'User' object is not subscriptable")
    case ColumnMap(who) => Reads(who.id)
  }

  /** `request.user.get('is_admin')`: the ORM class has no `get`, so on the
      row the call raises `AttributeError`; a mapping gives the flag. */
  function IsAdminOf(b: Binding): (r: Access<bool>)
    ensures r.Reads? <==> b.ColumnMap?
    ensures r.Reads? ==> r.value == b.who.isAdmin
  {
    match b
    case OrmRow(_) => Raises("'User' object has no attribute 'get'")
    case ColumnMap(who) => Reads(who.isAdmin)
  }

  /** The response a guard sends instead of running the handler. */
  datatype Denial = Denial(status: int, error: string)

  const AuthenticationRequired: Denial := Denial(401, "Authentication required")
  const InvalidToken: Denial := Denial(401, "Invalid token")
  const AdminPrivilegesRequired: Denial := Denial(403, "Admin privileges required")

  // ---------------------------------------------------------------------
  // The bearer token

  /** The text of `s` up to its first space: the first field of
      `s.split(' ')`. */
  function Field(s: string): (f: string)
    ensures f <= s && ' ' !in f
    ensures |f| == |s| || s[|f|] == ' '
  {
    if |s| == 0 || s[0] == ' ' then "" else [s[0]] + Field(s[1..])
  }

  /** A space-free word followed by nothing or by a space is the field. */
  lemma {:induction false} FieldOfWord(t: string, rest: string)
    requires ' ' !in t
    requires rest == "" || rest[0] == ' '
    ensures Field(t + rest) == t
  {
    if t != [] {
      assert (t + rest)[1..] == t[1..] + rest;
      FieldOfWord(t[1..], rest);
    } else {
      assert t + rest == rest;
    }
  }

  /** The token `auth_required` takes from the header: nothing when the
      header is missing, empty or not `Bearer `-prefixed; otherwise
      `split(' ')[1]`, the text after the prefix up to the next space (so
      `Bearer ` alone gives the empty token). */
  function BearerToken(header: Option<string>): (t: Option<Token>)
    ensures t.Some? <==> header.Some? && BearerPrefix <= header.value
    ensures t.Some? ==>
      var h := header.value;
      BearerPrefix + t.value <= h && ' ' !in t.value &&
      (|h| == |BearerPrefix| + |t.value| || h[|BearerPrefix| + |t.value|] == ' ')
  {
    if header.None? || !(BearerPrefix <= header.value) then None
    else
      var h := header.value;
      var f := Field(h[|BearerPrefix|..]);
      assert BearerPrefix + f <= h by {
        forall k | 0 <= k < |BearerPrefix + f|
          ensures (BearerPrefix + f)[k] == h[k]
        {
          if k >= |BearerPrefix| {
            assert f[k - |BearerPrefix|] == h[|BearerPrefix|..][k - |BearerPrefix|];
          }
        }
      }
      Some(f)
  }

  /** A header written as `Bearer <token>`, possibly followed by a space and
      more text, yields exactly that token when it has no space of its own. */
  lemma BearerRoundTrip(t: Token, rest: string)
    requires ' ' !in t
    requires rest == "" || rest[0] == ' '
    ensures BearerToken(Some(BearerPrefix + t + rest)) == Some(t)
  {
    var h := BearerPrefix + t + rest;
    assert h[..|BearerPrefix|] == BearerPrefix;
    assert h[|BearerPrefix|..] == t + rest;
    FieldOfWord(t, rest);
  }

  // ---------------------------------------------------------------------
  // auth_required

  datatype AuthResult = Denied(denial: Denial) | Bound(who: Identity)

  /** What `auth_required` decides for a header against the users table at
      `now`: a missing or malformed header is refused before any lookup, a
      token that resolves to no user is refused after it, and otherwise the
      resolved user is bound. */
  function Authenticate(header: Option<string>, users: seq<User>, now: Time): (r: AuthResult)
    ensures r == Denied(AuthenticationRequired) <==> BearerToken(header).None?
    ensures r == Denied(InvalidToken) <==>
      BearerToken(header).Some? && forall i :: 0 <= i < |users| ==> !AppTables.Resolves(users[i], BearerToken(header).value, now)
    ensures r.Bound? <==> !r.Denied?
    ensures r.Bound? ==>
      exists i :: 0 <= i < |users| && AppTables.Resolves(users[i], BearerToken(header).value, now) && r.who == IdentityOf(users[i])
  {
    match BearerToken(header)
    case None => Denied(AuthenticationRequired)
    case Some(t) =>
      match AppTables.UserByToken(users, t, now)
      case None => Denied(InvalidToken)
      case Some(u) =>
        var i :| 0 <= i < |users| && users[i] == u;
        Bound(IdentityOf(u))
  }

  /** The request as the guards see it: its `Authorization` header and the
      user a guard may have bound (`None` while `request` has no `user`
      attribute). */
  class Request {
    const authorization: Option<string>
    var user: Option<Binding>

    /** A request as it arrives: nothing bound yet. */
    constructor(authorization: Option<string>)
      ensures this.authorization == authorization && user.None?
    {
      this.authorization := authorization;
      user := None;
    }
  }

  /** `auth_required`: either refuses the request, leaving it as it was, or
      binds the resolved user in the given form (the ORM row, as written)
      and lets the handler run (no denial). */
  method AuthRequired(request: Request, users: seq<User>, now: Time, form: BindingForm) returns (denial: Option<Denial>)
    modifies request
    ensures match Authenticate(request.authorization, users, now)
      case Denied(d) => denial == Some(d) && request.user == old(request.user)
      case Bound(who) => denial.None? && request.user == Some(Bind(form, who))
  {
    var token := BearerToken(request.authorization);
    if token.None? {
      return Some(AuthenticationRequired);
    }
    var user := AppTables.UserByToken(users, token.value, now);
    if user.None? {
      return Some(InvalidToken);
    }
    request.user := Some(Bind(form, IdentityOf(user.value)));
    denial := None;
  }

  /** A live token of a valid table authenticates its own user, whatever
      follows it in the header after a space. */
  lemma LiveTokenAuthenticates(users: seq<User>, i: nat, t: Token, rest: string, now: Time)
    requires AppTables.UsersValid(users) && i < |users|
    requires AppTables.Resolves(users[i], t, now)
    requires ' ' !in t && (rest == "" || rest[0] == ' ')
    ensures Authenticate(Some(BearerPrefix + t + rest), users, now) == Bound(IdentityOf(users[i]))
  {
    BearerRoundTrip(t, rest);
    var r := Authenticate(Some(BearerPrefix + t + rest), users, now);
    var j :| 0 <= j < |users| && AppTables.Resolves(users[j], t, now) && r.who == IdentityOf(users[j]);
    AppTables.ResolvesAtMostOne(users, t, now, i, j);
  }

  /** A token past its expiry (or exactly at it) is refused as invalid even
      though its row is still in the table. */
  lemma ExpiredTokenIsInvalid(users: seq<User>, t: Token, rest: string, now: Time)
    requires ' ' !in t && (rest == "" || rest[0] == ' ')
    requires forall i :: 0 <= i < |users| && users[i].token == Some(t) ==>
      users[i].tokenExpiresAt.Some? && users[i].tokenExpiresAt.value <= now
    ensures Authenticate(Some(BearerPrefix + t + rest), users, now) == Denied(InvalidToken)
  {
    BearerRoundTrip(t, rest);
  }

  // ---------------------------------------------------------------------
  // admin_required and the order of the decorators

  /** What a chain of guards decides: run the handler, answer with a
      denial, or let an exception escape the guard (no `try` surrounds it,
      so the response is the framework's). */
  datatype Gate = Pass | Refuse(denial: Denial) | Raise(error: string)

  /** `admin_required`: 403 when no user is bound; otherwise the admin flag
      is read from the bound user, which raises on the ORM row, and a falsy
      flag is refused with 403. */
  function AdminCheck(user: Option<Binding>): (g: Gate)
    ensures g == Pass <==> user.Some? && user.value.ColumnMap? && user.value.who.isAdmin
    ensures g.Raise? <==> user.Some? && user.value.OrmRow?
    ensures g.Refuse? ==> g.denial == AdminPrivilegesRequired
  {
    if user.None? then Refuse(AdminPrivilegesRequired)
    else match IsAdminOf(user.value)
      case Raises(e) => Raise(e)
      case Reads(isAdmin) => if isAdmin then Pass else Refuse(AdminPrivilegesRequired)
  }

  /** The admin routes of `app/main.py`: `auth_required` outside,
      `admin_required` inside. */
  method AuthThenAdmin(request: Request, users: seq<User>, now: Time, form: BindingForm) returns (gate: Gate)
    modifies request
    ensures gate == AdminRoute(request.authorization, users, now, form)
    ensures match Authenticate(request.authorization, users, now)
      case Denied(_) => request.user == old(request.user)
      case Bound(who) => request.user == Some(Bind(form, who))
  {
    var denial := AuthRequired(request, users, now, form);
    if denial.Some? {
      return Refuse(denial.value);
    }
    gate := AdminCheck(request.user);
  }

  /** The decision of an admin route of `app/main.py`, with the user bound
      in the given form. */
  function AdminRoute(header: Option<string>, users: seq<User>, now: Time, form: BindingForm): (g: Gate)
    ensures g == Pass <==>
      form == AsMapping && Authenticate(header, users, now).Bound? && Authenticate(header, users, now).who.isAdmin
    ensures g.Raise? <==> form == AsWritten && Authenticate(header, users, now).Bound?
  {
    match Authenticate(header, users, now)
    case Denied(d) => Refuse(d)
    case Bound(who) => AdminCheck(Some(Bind(form, who)))
  }

  /** As written, an admin route never runs its handler: a request the
      token authenticates reaches `request.user.get`, which raises on the
      ORM row, even for an admin's live token. */
  lemma AdminRouteAsWrittenNeverPasses(users: seq<User>, i: nat, t: Token, now: Time)
    requires AppTables.UsersValid(users) && i < |users|
    requires AppTables.Resolves(users[i], t, now) && users[i].isAdmin && ' ' !in t
    ensures AdminRoute(Some(BearerPrefix + t), users, now, AsWritten) ==
      Raise("'User' object has no attribute 'get'")
    ensures AdminRoute(Some(BearerPrefix + t), users, now, AsMapping) == Pass
    ensures forall h :: AdminRoute(h, users, now, AsWritten) != Pass
  {
    LiveTokenAuthenticates(users, i, t, "", now);
    assert BearerPrefix + t + "" == BearerPrefix + t;
  }

  /** With the user bound as a mapping and `auth_required` outermost, a
      request without a valid token gets 401 and never 403; 403 goes only
      to a non-admin user the token does resolve. */
  lemma AdminRouteRefusesInOrder(header: Option<string>, users: seq<User>, now: Time)
    ensures Authenticate(header, users, now).Denied? ==>
      AdminRoute(header, users, now, AsMapping).Refuse? && AdminRoute(header, users, now, AsMapping).denial.status == 401
    ensures AdminRoute(header, users, now, AsMapping) == Refuse(AdminPrivilegesRequired) <==>
      BearerToken(header).Some? &&
      exists i :: (0 <= i < |users| && AppTables.Resolves(users[i], BearerToken(header).value, now) && !users[i].isAdmin &&
                   Authenticate(header, users, now) == Bound(IdentityOf(users[i])))
  {
    var r := Authenticate(header, users, now);
    if r.Bound? && !r.who.isAdmin {
      var i :| 0 <= i < |users| && AppTables.Resolves(users[i], BearerToken(header).value, now) && r.who == IdentityOf(users[i]);
      assert !users[i].isAdmin;
    }
  }
}
