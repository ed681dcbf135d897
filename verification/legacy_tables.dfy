/** What the older raw-SQL store (`database.py`) does to its tables, as
    functions on sequences of rows, and how its rules differ from those of
    the application's store (`AppTables`).

    Its tables are created from SQLAlchemy metadata, but every write is a
    raw SQL statement, so the client-side column defaults (`default=False`,
    `default=func.now()`) are never applied: a column the statement does not
    name is NULL. */
module LegacyTables {
  import opened Common
  import opened Records
  import AppTables
  import Utility

  // =====================================================================
  // Rows

  /** A row of the older `users` table: no expiry column, and the admin and
      verified flags are NULL (`None`) until a statement writes them. */
  datatype LegacyUser = LegacyUser(
    id: int,
    email: string,
    password: string,
    name: string,
    token: Option<Token>,
    isAdmin: Option<bool>,
    isVerified: Option<bool>)

  /** A row of the older `progress` table. Nothing makes (user_id,
      lesson_id) unique. */
  datatype LegacyProgress = LegacyProgress(
    id: int,
    userId: int,
    lessonId: int,
    completed: bool,
    completionPercentage: real,
    timeSpent: int,
    lastAccessed: Time)

  /** A row of the older `user_sessions` table; `session_token` is unique. */
  datatype LegacySession = LegacySession(id: int, userId: int, sessionToken: Token, expiresAt: Option<Time>)

  function LegacyUserIds(t: seq<LegacyUser>): (ids: seq<int>)
    ensures |ids| == |t| && forall i :: 0 <= i < |t| ==> ids[i] == t[i].id
  {
    seq(|t|, i requires 0 <= i < |t| => t[i].id)
  }

  function LegacyProgressIds(t: seq<LegacyProgress>): (ids: seq<int>)
    ensures |ids| == |t| && forall i :: 0 <= i < |t| ==> ids[i] == t[i].id
  {
    seq(|t|, i requires 0 <= i < |t| => t[i].id)
  }

  function LegacySessionIds(t: seq<LegacySession>): (ids: seq<int>)
    ensures |ids| == |t| && forall i :: 0 <= i < |t| ==> ids[i] == t[i].id
  {
    seq(|t|, i requires 0 <= i < |t| => t[i].id)
  }

  // =====================================================================
  // Users

  /** `email` is unique; `token` is unique among the rows where it is not NULL. */
  predicate LegacyUsersValid(users: seq<LegacyUser>) {
    Increasing(LegacyUserIds(users)) &&
    (forall i, j :: 0 <= i < j < |users| ==> users[i].email != users[j].email) &&
    (forall i, j :: 0 <= i < j < |users| && users[i].token.Some? ==> users[i].token != users[j].token)
  }

  function HasEmail(email: string): LegacyUser -> bool {
    (u: LegacyUser) => u.email == email
  }

  predicate TokenTaken(users: seq<LegacyUser>, t: Token) {
    exists i :: 0 <= i < |users| && users[i].token == Some(t)
  }

  /** `register_user`: a raw INSERT of the email, the password as given, the
      name and the token. An email already present, or a token another row
      holds, breaks a unique constraint and the statement raises (`None`
      here, with the table unchanged); otherwise the new row id. */
  function RegisterStep(users: seq<LegacyUser>, email: string, password: string, name: string,
                        token: Option<Token>): (r: (Option<int>, seq<LegacyUser>))
    ensures r.0.None? <==>
      (exists i :: 0 <= i < |users| && users[i].email == email) || (token.Some? && TokenTaken(users, token.value))
    ensures r.0.None? ==> r.1 == users
    ensures r.0.Some? ==> r.1 == users + [LegacyUser(r.0.value, email, password, name, token, None, None)]
    ensures LegacyUsersValid(users) ==> LegacyUsersValid(r.1)
  {
    if IndexWhere(users, HasEmail(email)).Some? || (token.Some? && TokenTaken(users, token.value)) then
      (None, users)
    else
      var u := LegacyUser(NextId(LegacyUserIds(users)), email, password, name, token, None, None);
      assert LegacyUserIds(users + [u]) == LegacyUserIds(users) + [u.id];
      (Some(u.id), users + [u])
  }

  /** `login_user`: the first row with the email; `None` when there is none,
      when its stored password is empty, or when the password's digest
      differs from it; otherwise the row's token, which is itself `None`
      for a user registered without one. */
  function LoginUser(users: seq<LegacyUser>, digest: string -> string, email: string, password: string): (r: Option<Token>)
    ensures r.Some? ==> exists i :: (0 <= i < |users| && users[i].email == email && users[i].password != "" &&
      Utility.PwdMatch(digest, password, users[i].password) && users[i].token == r)
    ensures LegacyUsersValid(users) ==>
      (r.Some? <== exists i :: (0 <= i < |users| && users[i].email == email && users[i].password != "" &&
        Utility.PwdMatch(digest, password, users[i].password) && users[i].token.Some?))
  {
    match IndexWhere(users, HasEmail(email))
    case None => None
    case Some(i) =>
      if users[i].password == "" then None
      else if Utility.PwdMatch(digest, password, users[i].password) then users[i].token
      else None
  }

  /** The caller cannot tell the failures apart: an unknown email, a wrong
      password, and a right password for a user without a token all give
      `None`. */
  lemma LoginCannotTellFailures(users: seq<LegacyUser>, digest: string -> string, email: string, password: string)
    requires LegacyUsersValid(users)
    requires (forall i :: 0 <= i < |users| ==> users[i].email != email) ||
      (exists i :: 0 <= i < |users| && users[i].email == email &&
        (!Utility.PwdMatch(digest, password, users[i].password) || users[i].token.None?))
    ensures LoginUser(users, digest, email, password).None?
  {
  }

  /** `get_user` (older version): whether some row has exactly this email. */
  function GetUser(users: seq<LegacyUser>, email: string): (found: bool)
    ensures found <==> exists i :: 0 <= i < |users| && users[i].email == email
  {
    IndexWhere(users, HasEmail(email)).Some?
  }

  /** `get_user_by_token` (older version): the first row holding the token.
      There is no expiry column, so a token never stops resolving. */
  function GetUserByToken(users: seq<LegacyUser>, t: Token): (r: Option<LegacyUser>)
    ensures r.None? <==> forall i :: 0 <= i < |users| ==> users[i].token != Some(t)
    ensures r.Some? ==> r.value in users && r.value.token == Some(t)
  {
    match IndexWhere(users, (u: LegacyUser) => u.token == Some(t))
    case None => None
    case Some(i) => Some(users[i])
  }

  // ---------------------------------------------------------------------
  // update_user_profile

  /** `NothingToUpdate` is the early `return None`; `UniqueViolation` the
      raised constraint error; `Executed` a statement that ran, whether or
      not a row had the id. */
  datatype LegacyProfileOutcome = NothingToUpdate | Executed | UniqueViolation

  /** A row other than those with the id holds the email, while a row with
      the id exists to receive it. */
  predicate EmailClash(users: seq<LegacyUser>, id: int, email: string) {
    (exists i :: 0 <= i < |users| && users[i].id == id) &&
    (exists j :: 0 <= j < |users| && users[j].id != id && users[j].email == email)
  }

  function SetProfile(u: LegacyUser, name: Option<string>, email: Option<string>): LegacyUser {
    u.(name := if Truthy(name) then name.value else u.name,
       email := if Truthy(email) then email.value else u.email)
  }

  /** `update_user_profile` (older version): name and email are each written
      only when truthy, to every row with the id; with neither there is no
      statement and `None`. An unknown id still runs the statement, which
      changes nothing. */
  function UpdateProfileStep(users: seq<LegacyUser>, id: int, name: Option<string>, email: Option<string>): (r: (LegacyProfileOutcome, seq<LegacyUser>))
    ensures r.0 == NothingToUpdate <==> !Truthy(name) && !Truthy(email)
    ensures r.0 == UniqueViolation <==> (Truthy(name) || Truthy(email)) && Truthy(email) && EmailClash(users, id, email.value)
    ensures !r.0.Executed? ==> r.1 == users
    ensures r.0.Executed? ==> |r.1| == |users| && forall k :: 0 <= k < |users| ==>
      r.1[k] == if users[k].id == id then
        users[k].(name := if Truthy(name) then name.value else users[k].name,
                  email := if Truthy(email) then email.value else users[k].email)
      else users[k]
    ensures LegacyUsersValid(users) ==> LegacyUsersValid(r.1)
  {
    if !Truthy(name) && !Truthy(email) then (NothingToUpdate, users)
    else if Truthy(email) && EmailClash(users, id, email.value) then (UniqueViolation, users)
    else
      var t := seq(|users|, k requires 0 <= k < |users| => if users[k].id == id then SetProfile(users[k], name, email) else users[k]);
      UpdateProfileKeepsValid(users, id, name, email, t);
      (Executed, t)
  }

  lemma UpdateProfileKeepsValid(users: seq<LegacyUser>, id: int, name: Option<string>, email: Option<string>, t: seq<LegacyUser>)
    requires !(Truthy(email) && EmailClash(users, id, email.value))
    requires |t| == |users|
    requires forall k :: 0 <= k < |users| ==> t[k] == if users[k].id == id then SetProfile(users[k], name, email) else users[k]
    ensures LegacyUsersValid(users) ==> LegacyUsersValid(t)
  {
    if LegacyUsersValid(users) {
      assert LegacyUserIds(t) == LegacyUserIds(users);
      forall a, b | 0 <= a < b < |t|
        ensures t[a].email != t[b].email
      {
        if users[a].id == id && Truthy(email) {
          assert users[b].id != id;
        } else if users[b].id == id && Truthy(email) {
          assert users[a].id != id;
        }
      }
    }
  }

  /** Unlike the application's `update_user_profile`, an unknown id is not
      reported: the statement runs and the table is unchanged. */
  lemma UnknownIdIsExecuted(users: seq<LegacyUser>, id: int, name: string)
    requires forall k :: 0 <= k < |users| ==> users[k].id != id
    requires name != ""
    ensures UpdateProfileStep(users, id, Some(name), None) == (Executed, users)
  {
  }

  // =====================================================================
  // Partial updates: the SET list of update_lesson and update_quiz

  /** A bound parameter of a statement. */
  datatype Value = Text(text: string) | Int(n: int) | List(items: seq<string>)

  /** The columns the partial updates may name; `Title` stands for the
      clause `title = ?`, and so on. */
  datatype Column = Title | Description | Difficulty | Content | OrderIndex | Questions | TotalPoints

  /** `UPDATE <table> SET c1 = ?, ..., cn = ? WHERE id = ?`: the SET columns
      in order (each stands for the clause `<column> = ?`) and the
      parameters, which end with the row id. */
  datatype UpdateQuery = UpdateQuery(columns: seq<Column>, params: seq<Value>)

  /** One parameter per SET column, then the row id. */
  predicate WellFormed(q: UpdateQuery) {
    |q.params| == |q.columns| + 1 && q.params[|q.columns|].Int?
  }

  function TargetId(q: UpdateQuery): int
    requires WellFormed(q)
  {
    q.params[|q.columns|].n
  }

  /** The statement a builder produces from a fixed column order: the
      columns the arguments supply, in that order, each with its value,
      and the row id last. */
  predicate BuiltFrom(q: UpdateQuery, order: seq<Column>, supplied: Column -> bool, value: Column -> Value, id: int) {
    q.columns == Filter(order, supplied) &&
    |q.params| == |q.columns| + 1 &&
    (forall k :: 0 <= k < |q.columns| ==> q.params[k] == value(q.columns[k])) &&
    q.params[|q.columns|] == Int(id)
  }

  /** A row after the SET assignments, applied left to right. */
  function ApplySet<R>(row: R, columns: seq<Column>, params: seq<Value>, assign: (R, Column, Value) -> R): R
    requires |columns| <= |params|
    decreases |columns|
  {
    if |columns| == 0 then row
    else ApplySet(assign(row, columns[0], params[0]), columns[1..], params[1..], assign)
  }

  /** The row after assigning each column its own value, left to right. */
  function ApplyValues<R>(row: R, columns: seq<Column>, value: Column -> Value, assign: (R, Column, Value) -> R): R
    decreases |columns|
  {
    if |columns| == 0 then row
    else ApplyValues(assign(row, columns[0], value(columns[0])), columns[1..], value, assign)
  }

  lemma {:induction false} ApplySetUsesValues<R>(row: R, columns: seq<Column>, params: seq<Value>,
                                                value: Column -> Value, assign: (R, Column, Value) -> R)
    requires |columns| <= |params|
    requires forall k :: 0 <= k < |columns| ==> params[k] == value(columns[k])
    ensures ApplySet(row, columns, params, assign) == ApplyValues(row, columns, value, assign)
  {
    if |columns| > 0 {
      assert forall k :: 0 <= k < |columns| - 1 ==> params[1..][k] == params[k + 1] && columns[1..][k] == columns[k + 1];
      ApplySetUsesValues(assign(row, columns[0], params[0]), columns[1..], params[1..], value, assign);
    }
  }

  /** Assigning the filtered columns of `order` is: assign its first column
      if supplied, then the filtered rest. */
  lemma ApplyFilteredStep<R>(row: R, order: seq<Column>, supplied: Column -> bool, value: Column -> Value,
                             assign: (R, Column, Value) -> R)
    requires |order| > 0
    ensures ApplyValues(row, Filter(order, supplied), value, assign) ==
      ApplyValues(if supplied(order[0]) then assign(row, order[0], value(order[0])) else row,
                  Filter(order[1..], supplied), value, assign)
  {
    if supplied(order[0]) {
      var f := [order[0]] + Filter(order[1..], supplied);
      assert Filter(order, supplied) == f;
      assert f[1..] == Filter(order[1..], supplied);
    }
  }

  /** One column of the fixed order: assigned when supplied, skipped otherwise. */
  function ApplyIf<R>(row: R, column: Column, supplied: Column -> bool, value: Column -> Value,
                      assign: (R, Column, Value) -> R): R {
    if supplied(column) then assign(row, column, value(column)) else row
  }

  /** Every column of the fixed order in turn, each assigned only when supplied. */
  function ApplyInOrder<R>(row: R, order: seq<Column>, supplied: Column -> bool, value: Column -> Value,
                           assign: (R, Column, Value) -> R): R
    decreases |order|
  {
    if |order| == 0 then row
    else ApplyInOrder(ApplyIf(row, order[0], supplied, value, assign), order[1..], supplied, value, assign)
  }

  /** Assigning the supplied columns in order is walking the whole order
      and skipping the others. */
  lemma {:induction false} ApplyFilteredInOrder<R>(row: R, order: seq<Column>, supplied: Column -> bool,
                                                   value: Column -> Value, assign: (R, Column, Value) -> R)
    ensures ApplyValues(row, Filter(order, supplied), value, assign) == ApplyInOrder(row, order, supplied, value, assign)
    decreases |order|
  {
    if |order| > 0 {
      ApplyFilteredStep(row, order, supplied, value, assign);
      ApplyFilteredInOrder(ApplyIf(row, order[0], supplied, value, assign), order[1..], supplied, value, assign);
    }
  }

  /** The table after the statement: every row whose id is the last
      parameter receives the assignments, the others are untouched. */
  function ExecUpdate<R>(rows: seq<R>, rowId: R -> int, q: UpdateQuery, assign: (R, Column, Value) -> R): (r: seq<R>)
    requires WellFormed(q)
    ensures |r| == |rows|
    ensures forall k :: 0 <= k < |rows| ==>
      r[k] == if rowId(rows[k]) == TargetId(q) then ApplySet(rows[k], q.columns, q.params, assign) else rows[k]
  {
    seq(|rows|, k requires 0 <= k < |rows| =>
      if rowId(rows[k]) == TargetId(q) then ApplySet(rows[k], q.columns, q.params, assign) else rows[k])
  }

  // ---------------------------------------------------------------------
  // update_lesson

  /** The keyword arguments of `update_lesson`; `None` is an omitted one. */
  datatype LessonChanges = LessonChanges(
    title: Option<string>,
    description: Option<string>,
    difficulty: Option<string>,
    content: Option<string>,
    orderIndex: Option<int>)

  /** The order in which `update_lesson` considers the columns. */
  const LessonColumns: seq<Column> := [Title, Description, Difficulty, Content, OrderIndex]

  /** Text columns are supplied by a truthy value, `order_index` by any
      value that is not `None`. */
  predicate LessonSupplies(c: LessonChanges, column: Column) {
    match column
    case Title => Truthy(c.title)
    case Description => Truthy(c.description)
    case Difficulty => Truthy(c.difficulty)
    case Content => Truthy(c.content)
    case OrderIndex => c.orderIndex.Some?
    case _ => false
  }

  function LessonSupplied(c: LessonChanges): Column -> bool {
    (column: Column) => LessonSupplies(c, column)
  }

  function LessonValue(c: LessonChanges): Column -> Value {
    (column: Column) =>
      match column
      case Title => Text(GetOr(c.title, ""))
      case Description => Text(GetOr(c.description, ""))
      case Difficulty => Text(GetOr(c.difficulty, ""))
      case Content => Text(GetOr(c.content, ""))
      case _ => Int(GetOr(c.orderIndex, 0))
  }

  predicate AnyLessonChange(c: LessonChanges) {
    Truthy(c.title) || Truthy(c.description) || Truthy(c.difficulty) || Truthy(c.content) || c.orderIndex.Some?
  }

  /** One SET assignment to a lesson row. */
  function AssignLesson(l: Lesson, column: Column, v: Value): Lesson {
    match (column, v)
    case (Title, Text(t)) => l.(title := t)
    case (Description, Text(t)) => l.(description := t)
    case (Difficulty, Text(t)) => l.(difficulty := t)
    case (Content, Text(t)) => l.(content := t)
    case (OrderIndex, Int(n)) => l.(orderIndex := n)
    case _ => l
  }

  function LessonId(l: Lesson): int { l.id }

  /** The assignments of a built lesson statement are those of the
      application's `update_lesson`, one field at a time. */
  lemma AssignLessonChanges(l: Lesson, c: LessonChanges)
    ensures ApplyValues(l, Filter(LessonColumns, LessonSupplied(c)), LessonValue(c), AssignLesson) ==
      l.(title := if Truthy(c.title) then c.title.value else l.title,
         description := if Truthy(c.description) then c.description.value else l.description,
         difficulty := if Truthy(c.difficulty) then c.difficulty.value else l.difficulty,
         content := if Truthy(c.content) then c.content.value else l.content,
         orderIndex := if c.orderIndex.Some? then c.orderIndex.value else l.orderIndex)
  {
    var s, v, a := LessonSupplied(c), LessonValue(c), AssignLesson;
    LessonColumnsInOrder(l, c);
    var l1 := ApplyIf(l, Title, s, v, a);
    LessonAssignments(l, c);
    var l2 := ApplyIf(l1, Description, s, v, a);
    LessonAssignments(l1, c);
    var l3 := ApplyIf(l2, Difficulty, s, v, a);
    LessonAssignments(l2, c);
    var l4 := ApplyIf(l3, Content, s, v, a);
    LessonAssignments(l3, c);
    var l5 := ApplyIf(l4, OrderIndex, s, v, a);
    LessonAssignments(l4, c);
  }

  /** What each column of the order does to a lesson row. */
  lemma LessonAssignments(l: Lesson, c: LessonChanges)
    ensures var s, v, a := LessonSupplied(c), LessonValue(c), AssignLesson;
      ApplyIf(l, Title, s, v, a) == (if Truthy(c.title) then l.(title := c.title.value) else l) &&
      ApplyIf(l, Description, s, v, a) == (if Truthy(c.description) then l.(description := c.description.value) else l) &&
      ApplyIf(l, Difficulty, s, v, a) == (if Truthy(c.difficulty) then l.(difficulty := c.difficulty.value) else l) &&
      ApplyIf(l, Content, s, v, a) == (if Truthy(c.content) then l.(content := c.content.value) else l) &&
      ApplyIf(l, OrderIndex, s, v, a) == (if c.orderIndex.Some? then l.(orderIndex := c.orderIndex.value) else l)
  {
  }

  lemma LessonColumnsInOrder(l: Lesson, c: LessonChanges)
    ensures var s, v, a := LessonSupplied(c), LessonValue(c), AssignLesson;
      ApplyValues(l, Filter(LessonColumns, s), v, a) ==
      ApplyIf(ApplyIf(ApplyIf(ApplyIf(ApplyIf(l, Title, s, v, a), Description, s, v, a), Difficulty, s, v, a),
              Content, s, v, a), OrderIndex, s, v, a)
  {
    var s, v, a := LessonSupplied(c), LessonValue(c), AssignLesson;
    var o := LessonColumns;
    ApplyFilteredInOrder(l, o, s, v, a);
    var l1 := ApplyIf(l, Title, s, v, a);
    var l2 := ApplyIf(l1, Description, s, v, a);
    var l3 := ApplyIf(l2, Difficulty, s, v, a);
    var l4 := ApplyIf(l3, Content, s, v, a);
    var l5 := ApplyIf(l4, OrderIndex, s, v, a);
    assert o[1..] == [Description, Difficulty, Content, OrderIndex];
    assert ApplyInOrder(l, o, s, v, a) == ApplyInOrder(l1, o[1..], s, v, a);
    assert o[2..] == o[1..][1..];
    assert ApplyInOrder(l1, o[1..], s, v, a) == ApplyInOrder(l2, o[2..], s, v, a);
    assert o[3..] == o[2..][1..];
    assert ApplyInOrder(l2, o[2..], s, v, a) == ApplyInOrder(l3, o[3..], s, v, a);
    assert o[4..] == o[3..][1..];
    assert ApplyInOrder(l3, o[3..], s, v, a) == ApplyInOrder(l4, o[4..], s, v, a);
    assert ApplyInOrder(l4, o[4..], s, v, a) == ApplyInOrder(l5, [], s, v, a) == l5;
  }

  /** The older `update_lesson` leaves the table exactly as the
      application's does, on every input: a lesson that exists gets the
      same fields, an unknown id changes nothing, and so does a call that
      supplies nothing (which the older code does not even send). What
      differs is only the return value. */
  lemma LessonUpdateMatchesApp(lessons: seq<Lesson>, id: int, c: LessonChanges, q: Option<UpdateQuery>)
    requires Increasing(LessonIds(lessons))
    requires q.None? <==> !AnyLessonChange(c)
    requires q.Some? ==> BuiltFrom(q.value, LessonColumns, LessonSupplied(c), LessonValue(c), id)
    ensures q.Some? ==> WellFormed(q.value)
    ensures (if q.None? then lessons else ExecUpdate(lessons, LessonId, q.value, AssignLesson)) ==
      AppTables.UpdateLessonStep(lessons, id, c.title, c.description, c.difficulty, c.content, c.orderIndex).1
  {
    if AppTables.FindLessonById(lessons, id).None? {
      if q.Some? {
        LessonUpdateOfMissing(lessons, id, c, q.value);
      }
    } else if q.None? {
      var i := AppTables.FindLessonById(lessons, id).value;
      AssignLessonChanges(lessons[i], c);
      assert lessons[i := lessons[i]] == lessons;
    } else {
      LessonUpdateOfExisting(lessons, id, c, q.value);
    }
  }

  lemma LessonUpdateOfMissing(lessons: seq<Lesson>, id: int, c: LessonChanges, q: UpdateQuery)
    requires AppTables.FindLessonById(lessons, id).None?
    requires BuiltFrom(q, LessonColumns, LessonSupplied(c), LessonValue(c), id)
    ensures WellFormed(q)
    ensures ExecUpdate(lessons, LessonId, q, AssignLesson) == lessons
  {
    assert TargetId(q) == id;
    var t := ExecUpdate(lessons, LessonId, q, AssignLesson);
    assert forall k :: 0 <= k < |lessons| ==> t[k] == lessons[k];
  }

  lemma LessonUpdateOfExisting(lessons: seq<Lesson>, id: int, c: LessonChanges, q: UpdateQuery)
    requires Increasing(LessonIds(lessons))
    requires AppTables.FindLessonById(lessons, id).Some?
    requires BuiltFrom(q, LessonColumns, LessonSupplied(c), LessonValue(c), id)
    ensures WellFormed(q)
    ensures ExecUpdate(lessons, LessonId, q, AssignLesson) ==
      AppTables.UpdateLessonStep(lessons, id, c.title, c.description, c.difficulty, c.content, c.orderIndex).1
  {
    var i := AppTables.FindLessonById(lessons, id).value;
    LessonQueryRow(lessons[i], c, q, id);
    assert forall a, b :: 0 <= a < b < |lessons| ==> LessonIds(lessons)[a] < LessonIds(lessons)[b];
    ExecUpdatesOneRow(lessons, LessonId, q, AssignLesson, i);
  }

  /** A built lesson statement is well formed, targets the id it was built
      for, and rewrites a row as the application's `update_lesson` does. */
  lemma LessonQueryRow(l: Lesson, c: LessonChanges, q: UpdateQuery, id: int)
    requires BuiltFrom(q, LessonColumns, LessonSupplied(c), LessonValue(c), id)
    ensures WellFormed(q) && TargetId(q) == id
    ensures ApplySet(l, q.columns, q.params, AssignLesson) ==
      l.(title := if Truthy(c.title) then c.title.value else l.title,
         description := if Truthy(c.description) then c.description.value else l.description,
         difficulty := if Truthy(c.difficulty) then c.difficulty.value else l.difficulty,
         content := if Truthy(c.content) then c.content.value else l.content,
         orderIndex := if c.orderIndex.Some? then c.orderIndex.value else l.orderIndex)
  {
    ApplySetUsesValues(l, q.columns, q.params, LessonValue(c), AssignLesson);
    AssignLessonChanges(l, c);
  }

  /** With increasing ids, the statement changes the one row with the id. */
  lemma ExecUpdatesOneRow<R>(rows: seq<R>, rowId: R -> int, q: UpdateQuery, assign: (R, Column, Value) -> R, i: nat)
    requires WellFormed(q)
    requires i < |rows| && rowId(rows[i]) == TargetId(q)
    requires forall a, b :: 0 <= a < b < |rows| ==> rowId(rows[a]) < rowId(rows[b])
    ensures ExecUpdate(rows, rowId, q, assign) == rows[i := ApplySet(rows[i], q.columns, q.params, assign)]
  {
    var t := ExecUpdate(rows, rowId, q, assign);
    forall k | 0 <= k < |rows| && k != i
      ensures t[k] == rows[k]
    {
      assert rowId(rows[k]) != rowId(rows[i]);
    }
  }

  // ---------------------------------------------------------------------
  // update_quiz

  /** The keyword arguments of `update_quiz`. */
  datatype QuizChanges = QuizChanges(title: Option<string>, questions: Option<seq<string>>, totalPoints: Option<int>)

  const QuizColumns: seq<Column> := [Title, Questions, TotalPoints]

  /** Every column, `total_points` included, is supplied only by a truthy
      value, so a total of 0 is not. */
  predicate QuizSupplies(c: QuizChanges, column: Column) {
    match column
    case Title => Truthy(c.title)
    case Questions => NonEmpty(c.questions)
    case TotalPoints => c.totalPoints.Some? && c.totalPoints.value != 0
    case _ => false
  }

  function QuizSupplied(c: QuizChanges): Column -> bool {
    (column: Column) => QuizSupplies(c, column)
  }

  function QuizValue(c: QuizChanges): Column -> Value {
    (column: Column) =>
      match column
      case Title => Text(GetOr(c.title, ""))
      case Questions => List(GetOr(c.questions, []))
      case _ => Int(GetOr(c.totalPoints, 0))
  }

  predicate AnyQuizChange(c: QuizChanges) {
    Truthy(c.title) || NonEmpty(c.questions) || (c.totalPoints.Some? && c.totalPoints.value != 0)
  }

  function AssignQuiz(q: Quiz, column: Column, v: Value): Quiz {
    match (column, v)
    case (Title, Text(t)) => q.(title := t)
    case (Questions, List(items)) => q.(questions := items)
    case (TotalPoints, Int(n)) => q.(totalPoints := n)
    case _ => q
  }

  function QuizId(q: Quiz): int { q.id }

  /** The total the older code passes on: a total of 0 is dropped like a
      missing one. */
  function TruthyTotal(t: Option<int>): (r: Option<int>)
    ensures r.Some? <==> t.Some? && t.value != 0
    ensures r.Some? ==> r == t
  {
    if t.Some? && t.value != 0 then t else None
  }

  lemma AssignQuizChanges(qz: Quiz, c: QuizChanges)
    ensures ApplyValues(qz, Filter(QuizColumns, QuizSupplied(c)), QuizValue(c), AssignQuiz) ==
      qz.(title := if Truthy(c.title) then c.title.value else qz.title,
          questions := if NonEmpty(c.questions) then c.questions.value else qz.questions,
          totalPoints := if TruthyTotal(c.totalPoints).Some? then c.totalPoints.value else qz.totalPoints)
  {
    var s, v, a := QuizSupplied(c), QuizValue(c), AssignQuiz;
    var o := QuizColumns;
    ApplyFilteredInOrder(qz, o, s, v, a);
    var q1 := ApplyIf(qz, Title, s, v, a);
    var q2 := ApplyIf(q1, Questions, s, v, a);
    var q3 := ApplyIf(q2, TotalPoints, s, v, a);
    assert o[1..] == [Questions, TotalPoints];
    assert ApplyInOrder(qz, o, s, v, a) == ApplyInOrder(q1, o[1..], s, v, a);
    assert o[2..] == o[1..][1..];
    assert ApplyInOrder(q1, o[1..], s, v, a) == ApplyInOrder(q2, o[2..], s, v, a);
    assert ApplyInOrder(q2, o[2..], s, v, a) == ApplyInOrder(q3, [], s, v, a) == q3;
  }

  /** The older `update_quiz` leaves the table as the application's would
      with a total of 0 treated as missing. */
  lemma QuizUpdateMatchesApp(quizzes: seq<Quiz>, id: int, c: QuizChanges, q: Option<UpdateQuery>)
    requires Increasing(QuizIds(quizzes))
    requires q.None? <==> !AnyQuizChange(c)
    requires q.Some? ==> BuiltFrom(q.value, QuizColumns, QuizSupplied(c), QuizValue(c), id)
    ensures q.Some? ==> WellFormed(q.value)
    ensures (if q.None? then quizzes else ExecUpdate(quizzes, QuizId, q.value, AssignQuiz)) ==
      AppTables.UpdateQuizStep(quizzes, id, c.title, c.questions, TruthyTotal(c.totalPoints)).1
  {
    match AppTables.FindQuizById(quizzes, id)
    case None =>
      if q.Some? {
        var t := ExecUpdate(quizzes, QuizId, q.value, AssignQuiz);
        assert forall k :: 0 <= k < |quizzes| ==> t[k] == quizzes[k];
      }
    case Some(i) =>
      AssignQuizChanges(quizzes[i], c);
      if q.None? {
        assert quizzes[i := quizzes[i]] == quizzes;
      } else {
        QuizQueryRow(quizzes[i], c, q.value, id);
        assert forall a, b :: 0 <= a < b < |quizzes| ==> QuizIds(quizzes)[a] < QuizIds(quizzes)[b];
        ExecUpdatesOneRow(quizzes, QuizId, q.value, AssignQuiz, i);
      }
  }

  /** A built quiz statement is well formed, targets the id it was built
      for, and rewrites a row as the application's `update_quiz` does with a
      zero total dropped. */
  lemma QuizQueryRow(qz: Quiz, c: QuizChanges, q: UpdateQuery, id: int)
    requires BuiltFrom(q, QuizColumns, QuizSupplied(c), QuizValue(c), id)
    ensures WellFormed(q) && TargetId(q) == id
    ensures ApplySet(qz, q.columns, q.params, AssignQuiz) ==
      qz.(title := if Truthy(c.title) then c.title.value else qz.title,
          questions := if NonEmpty(c.questions) then c.questions.value else qz.questions,
          totalPoints := if TruthyTotal(c.totalPoints).Some? then c.totalPoints.value else qz.totalPoints)
  {
    ApplySetUsesValues(qz, q.columns, q.params, QuizValue(c), AssignQuiz);
    AssignQuizChanges(qz, c);
  }

  /** A total of 0, alone, sends no statement in the older code, while the
      application writes it. */
  lemma ZeroTotalIgnored(quizzes: seq<Quiz>, id: int)
    requires AppTables.FindQuizById(quizzes, id).Some?
    ensures !AnyQuizChange(QuizChanges(None, None, Some(0)))
    ensures var i := AppTables.FindQuizById(quizzes, id).value;
      AppTables.UpdateQuizStep(quizzes, id, None, None, Some(0)).1 == quizzes[i := quizzes[i].(totalPoints := 0)]
  {
  }

  // =====================================================================
  // Progress

  function ForPair(userId: int, lessonId: int): LegacyProgress -> bool {
    (p: LegacyProgress) => p.userId == userId && p.lessonId == lessonId
  }

  /** `save_progress` (older version): the INSERT OR REPLACE names no column
      with a unique key, so there is never anything to replace and every
      call appends a row stamped `now`. */
  function SaveProgressStep(progress: seq<LegacyProgress>, userId: int, lessonId: int, completed: bool,
                            percentage: real, timeSpent: int, now: Time): (r: (int, seq<LegacyProgress>))
    ensures r.1 == progress + [LegacyProgress(r.0, userId, lessonId, completed, percentage, timeSpent, now)]
    ensures Increasing(LegacyProgressIds(progress)) ==> Increasing(LegacyProgressIds(r.1))
    ensures Count(r.1, ForPair(userId, lessonId)) == Count(progress, ForPair(userId, lessonId)) + 1
  {
    var p := LegacyProgress(NextId(LegacyProgressIds(progress)), userId, lessonId, completed, percentage, timeSpent, now);
    assert LegacyProgressIds(progress + [p]) == LegacyProgressIds(progress) + [p.id];
    CountSnoc(progress, p, ForPair(userId, lessonId));
    (p.id, progress + [p])
  }

  /** `get_lesson_progress` (older version): the first row for the pair in
      rowid order, the order of SQLite's scan of a table without an index
      on these columns. */
  function LegacyLessonProgress(progress: seq<LegacyProgress>, userId: int, lessonId: int): (r: Option<LegacyProgress>)
    ensures r.None? <==> Count(progress, ForPair(userId, lessonId)) == 0
    ensures r.Some? ==> r.value in progress && r.value.userId == userId && r.value.lessonId == lessonId
  {
    match IndexWhere(progress, ForPair(userId, lessonId))
    case None => None
    case Some(i) => Some(progress[i])
  }

  /** `get_progress` (older version): all of the user's rows, duplicates included. */
  function LegacyProgressOf(progress: seq<LegacyProgress>, userId: int): (r: seq<LegacyProgress>)
    ensures forall p :: p in r <==> p in progress && p.userId == userId
  {
    Filter(progress, (p: LegacyProgress) => p.userId == userId)
  }

  /** Two saves for one pair leave two rows for it, where the application
      keeps one. */
  lemma SaveTwiceKeepsBoth(progress: seq<LegacyProgress>, userId: int, lessonId: int,
                           c1: bool, p1: real, t1: int, now1: Time, c2: bool, p2: real, t2: int, now2: Time)
    ensures var first := SaveProgressStep(progress, userId, lessonId, c1, p1, t1, now1);
      var second := SaveProgressStep(first.1, userId, lessonId, c2, p2, t2, now2);
      Count(second.1, ForPair(userId, lessonId)) == Count(progress, ForPair(userId, lessonId)) + 2 &&
      |second.1| == |progress| + 2
  {
  }

  /** Once a pair has a row, saving new values for it is never seen by
      `get_lesson_progress`: the read still returns the first row. */
  lemma SaveThenReadIsStale(progress: seq<LegacyProgress>, userId: int, lessonId: int, completed: bool,
                            percentage: real, timeSpent: int, now: Time)
    requires LegacyLessonProgress(progress, userId, lessonId).Some?
    ensures var after := SaveProgressStep(progress, userId, lessonId, completed, percentage, timeSpent, now).1;
      LegacyLessonProgress(after, userId, lessonId) == LegacyLessonProgress(progress, userId, lessonId)
  {
    var after := SaveProgressStep(progress, userId, lessonId, completed, percentage, timeSpent, now).1;
    var i := IndexWhere(progress, ForPair(userId, lessonId)).value;
    assert forall k :: 0 <= k < |progress| ==> after[k] == progress[k];
    var j := IndexWhere(after, ForPair(userId, lessonId)).value;
    assert j == i;
  }

  /** The smallest case: one save, then a second with other values; the
      read returns the first values. */
  lemma StaleReadExample()
    ensures var first := SaveProgressStep([], 1, 1, false, 10.0, 5, 100).1;
      var second := SaveProgressStep(first, 1, 1, true, 100.0, 30, 200).1;
      LegacyLessonProgress(second, 1, 1) == Some(LegacyProgress(1, 1, 1, false, 10.0, 5, 100))
  {
    var first := SaveProgressStep([], 1, 1, false, 10.0, 5, 100).1;
    assert first == [LegacyProgress(1, 1, 1, false, 10.0, 5, 100)];
    SaveThenReadIsStale(first, 1, 1, true, 100.0, 30, 200);
  }

  // =====================================================================
  // Statistics

  function VerifiedFlag(): LegacyUser -> bool {
    (u: LegacyUser) => u.isVerified == Some(true)
  }

  function AdminFlag(): LegacyUser -> bool {
    (u: LegacyUser) => u.isAdmin == Some(true)
  }

  /** `get_user_stats` (older version): `is_verified = 1` and `is_admin = 1`
      are false on NULL, so a row whose flags were never written counts in
      the total only. */
  function LegacyUserStats(users: seq<LegacyUser>): (c: AppTables.UserCounts)
    ensures c.total == |users| && c.verified <= c.total && c.admins <= c.total
    ensures c.verified == |Filter(users, VerifiedFlag())| && c.admins == |Filter(users, AdminFlag())|
    ensures c.verified == 0 <==> forall i :: 0 <= i < |users| ==> users[i].isVerified != Some(true)
    ensures c.admins == 0 <==> forall i :: 0 <= i < |users| ==> users[i].isAdmin != Some(true)
  {
    CountIsFilterLength(users, VerifiedFlag());
    CountIsFilterLength(users, AdminFlag());
    AppTables.UserCounts(|users|, Count(users, VerifiedFlag()), Count(users, AdminFlag()))
  }

  /** A registration adds to the total and to neither flag count. */
  lemma RegisterCountsInTotalOnly(users: seq<LegacyUser>, email: string, password: string, name: string, token: Option<Token>)
    requires RegisterStep(users, email, password, name, token).0.Some?
    ensures var before := LegacyUserStats(users);
      var after := LegacyUserStats(RegisterStep(users, email, password, name, token).1);
      after == before.(total := before.total + 1)
  {
    var r := RegisterStep(users, email, password, name, token);
    var u := r.1[|users|];
    assert r.1 == users + [u];
    CountSnoc(users, u, VerifiedFlag());
    CountSnoc(users, u, AdminFlag());
  }

  function LegacySum(progress: seq<LegacyProgress>): real {
    if |progress| == 0 then 0.0 else progress[0].completionPercentage + LegacySum(progress[1..])
  }

  function CompletedFlag(): LegacyProgress -> bool {
    (p: LegacyProgress) => p.completed
  }

  /** `get_progress_stats` (older version): the completed count is the
      number of completed rows, zero exactly when none is, and `AVG` is NULL
      exactly when the table is empty. */
  function LegacyProgressStats(progress: seq<LegacyProgress>): (c: AppTables.ProgressCounts)
    ensures c.total == |progress| && c.completed <= c.total
    ensures c.completed == |Filter(progress, CompletedFlag())|
    ensures c.completed == 0 <==> forall i :: 0 <= i < |progress| ==> !progress[i].completed
    ensures c.average.None? <==> |progress| == 0
  {
    CountIsFilterLength(progress, CompletedFlag());
    AppTables.ProgressCounts(|progress|, Count(progress, CompletedFlag()),
                             if |progress| == 0 then None else Some(LegacySum(progress) / (|progress| as real)))
  }

  /** Each save adds a row, so a pair saved twice counts twice in the
      total; completed rows grow by the new row's flag alone. */
  lemma SaveCountsEveryCall(progress: seq<LegacyProgress>, userId: int, lessonId: int, completed: bool,
                            percentage: real, timeSpent: int, now: Time)
    ensures var before := LegacyProgressStats(progress);
      var after := LegacyProgressStats(SaveProgressStep(progress, userId, lessonId, completed, percentage, timeSpent, now).1);
      after.total == before.total + 1 && after.completed == before.completed + (if completed then 1 else 0)
  {
    var r := SaveProgressStep(progress, userId, lessonId, completed, percentage, timeSpent, now);
    CountSnoc(progress, r.1[|progress|], CompletedFlag());
    assert r.1 == progress + [r.1[|progress|]];
  }

  // =====================================================================
  // Sessions

  predicate LegacySessionsValid(sessions: seq<LegacySession>) {
    forall i, j :: 0 <= i < j < |sessions| ==>
      sessions[i].id < sessions[j].id && sessions[i].sessionToken != sessions[j].sessionToken
  }

  /** `create_session` (older version): a token in use breaks the unique
      constraint and the insert raises (`None`); otherwise the row is
      appended and its id returned. */
  function CreateSessionStep(sessions: seq<LegacySession>, userId: int, token: Token, expiresAt: Option<Time>): (r: (Option<int>, seq<LegacySession>))
    ensures r.0.None? <==> exists i :: 0 <= i < |sessions| && sessions[i].sessionToken == token
    ensures r.0.None? ==> r.1 == sessions
    ensures r.0.Some? ==> r.1 == sessions + [LegacySession(r.0.value, userId, token, expiresAt)]
    ensures LegacySessionsValid(sessions) ==> LegacySessionsValid(r.1)
  {
    if IndexWhere(sessions, (s: LegacySession) => s.sessionToken == token).Some? then (None, sessions)
    else
      var ids := LegacySessionIds(sessions);
      assert Increasing(ids) <== LegacySessionsValid(sessions);
      var s := LegacySession(NextId(ids), userId, token, expiresAt);
      (Some(s.id), sessions + [s])
  }

  /** `expires_at < datetime('now')`; a NULL expiry never matches. */
  predicate LegacySessionExpired(s: LegacySession, now: Time) {
    s.expiresAt.Some? && s.expiresAt.value < now
  }

  function LegacySessionLiveAt(now: Time): LegacySession -> bool {
    (s: LegacySession) => !LegacySessionExpired(s, now)
  }

  /** `cleanup_expired_sessions` (older version): exactly the sessions that
      have not expired remain, in their order. */
  function CleanupSessionsStep(sessions: seq<LegacySession>, now: Time): (r: seq<LegacySession>)
    ensures forall s :: s in r <==> s in sessions && !LegacySessionExpired(s, now)
    ensures |r| <= |sessions|
  {
    Filter(sessions, LegacySessionLiveAt(now))
  }

  function LegacySessionOrder(): (LegacySession, LegacySession) -> bool {
    (a: LegacySession, b: LegacySession) => a.id < b.id && a.sessionToken != b.sessionToken
  }

  lemma CleanupSessionsPreservesValid(sessions: seq<LegacySession>, now: Time)
    requires LegacySessionsValid(sessions)
    ensures LegacySessionsValid(CleanupSessionsStep(sessions, now))
  {
    assert forall i, j :: 0 <= i < j < |sessions| ==> LegacySessionOrder()(sessions[i], sessions[j]);
    FilterKeepsOrderedPairs(sessions, LegacySessionLiveAt(now), LegacySessionOrder());
    var r := CleanupSessionsStep(sessions, now);
    assert r == Filter(sessions, LegacySessionLiveAt(now));
    assert forall i, j :: 0 <= i < j < |r| ==> LegacySessionOrder()(r[i], r[j]);
  }
}
