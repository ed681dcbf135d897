/** The older raw-SQL store (`database.py`) as one object whose tables the
    statements change. Each method does what the Python function's
    statement does and is proved to agree with the function of
    `LegacyTables` that specifies it, or directly with the application's
    rule where the two coincide.

    The password digest is the `digest` function the store is built with;
    the clock is the `now` argument. */
module LegacyDb {
  import opened Common
  import opened Records
  import opened LegacyTables
  import AppTables

  /** The SET list of `update_lesson`, built as the Python code builds it:
      one append per truthy text argument and one for an `order_index` that
      is not `None`, in that order, then the lesson id; no statement at all
      when nothing was appended. */
  method BuildLessonUpdate(lessonId: int, c: LessonChanges) returns (q: Option<UpdateQuery>)
    ensures q.None? <==> !AnyLessonChange(c)
    ensures q.Some? ==> BuiltFrom(q.value, LessonColumns, LessonSupplied(c), LessonValue(c), lessonId)
  {
    ghost var v := LessonValue(c);
    var updates: seq<Column> := [];
    var params: seq<Value> := [];
    ghost var before, pBefore := updates, params;
    var add0 := Truthy(c.title);
    if add0 {
      updates := updates + [Title];
      params := params + [Text(c.title.value)];
    }
    PairStep(before, pBefore, updates, params, v, add0, Title, Text(GetOr(c.title, "")));
    assert updates == When(add0, Title);
    before, pBefore := updates, params;
    var add1 := Truthy(c.description);
    if add1 {
      updates := updates + [Description];
      params := params + [Text(c.description.value)];
    }
    PairStep(before, pBefore, updates, params, v, add1, Description, Text(GetOr(c.description, "")));
    before, pBefore := updates, params;
    var add2 := Truthy(c.difficulty);
    if add2 {
      updates := updates + [Difficulty];
      params := params + [Text(c.difficulty.value)];
    }
    PairStep(before, pBefore, updates, params, v, add2, Difficulty, Text(GetOr(c.difficulty, "")));
    before, pBefore := updates, params;
    var add3 := Truthy(c.content);
    if add3 {
      updates := updates + [Content];
      params := params + [Text(c.content.value)];
    }
    PairStep(before, pBefore, updates, params, v, add3, Content, Text(GetOr(c.content, "")));
    before, pBefore := updates, params;
    var add4 := c.orderIndex.Some?;
    if add4 {
      updates := updates + [OrderIndex];
      params := params + [Int(c.orderIndex.value)];
    }
    PairStep(before, pBefore, updates, params, v, add4, OrderIndex, Int(GetOr(c.orderIndex, 0)));
    LessonListBuilt(updates, params, c, lessonId);
    if |updates| == 0 {
      return None;
    }
    params := params + [Int(lessonId)];
    q := Some(UpdateQuery(updates, params));
  }

  /** The SET list of `update_quiz`: title and questions when truthy, and
      `total_points` also only when truthy, then the quiz id. */
  method BuildQuizUpdate(quizId: int, c: QuizChanges) returns (q: Option<UpdateQuery>)
    ensures q.None? <==> !AnyQuizChange(c)
    ensures q.Some? ==> BuiltFrom(q.value, QuizColumns, QuizSupplied(c), QuizValue(c), quizId)
  {
    ghost var v := QuizValue(c);
    var updates: seq<Column> := [];
    var params: seq<Value> := [];
    ghost var before, pBefore := updates, params;
    var add0 := Truthy(c.title);
    if add0 {
      updates := updates + [Title];
      params := params + [Text(c.title.value)];
    }
    PairStep(before, pBefore, updates, params, v, add0, Title, Text(GetOr(c.title, "")));
    assert updates == When(add0, Title);
    before, pBefore := updates, params;
    var add1 := NonEmpty(c.questions);
    if add1 {
      updates := updates + [Questions];
      params := params + [List(c.questions.value)];
    }
    PairStep(before, pBefore, updates, params, v, add1, Questions, List(GetOr(c.questions, [])));
    before, pBefore := updates, params;
    var add2 := c.totalPoints.Some? && c.totalPoints.value != 0;
    if add2 {
      updates := updates + [TotalPoints];
      params := params + [Int(c.totalPoints.value)];
    }
    PairStep(before, pBefore, updates, params, v, add2, TotalPoints, Int(GetOr(c.totalPoints, 0)));
    QuizListBuilt(updates, params, c, quizId);
    if |updates| == 0 {
      return None;
    }
    params := params + [Int(quizId)];
    q := Some(UpdateQuery(updates, params));
  }

  /** Each SET column so far has its own value at the same position. */
  ghost predicate Paired(updates: seq<Column>, params: seq<Value>, value: Column -> Value) {
    |params| == |updates| && forall k :: 0 <= k < |updates| ==> params[k] == value(updates[k])
  }

  /** The column list without or with one more column. */
  function When(b: bool, column: Column): (r: seq<Column>)
    ensures r == [] <==> !b
    ensures b ==> r == [column]
  {
    if b then [column] else []
  }

  /** One conditional append of a column and its value keeps the two lists
      paired. */
  lemma PairStep(before: seq<Column>, pBefore: seq<Value>, after: seq<Column>, pAfter: seq<Value>,
                 v: Column -> Value, added: bool, column: Column, value: Value)
    requires Paired(before, pBefore, v) && (added ==> v(column) == value)
    requires after == (if added then before + [column] else before)
    requires pAfter == (if added then pBefore + [value] else pBefore)
    ensures Paired(after, pAfter, v)
    ensures after == before + When(added, column)
  {
    if !added {
      assert before + [] == before;
    }
  }

  /** Filtering a prefix one element longer appends that element when it
      passes. */
  lemma FilterPrefixStep(o: seq<Column>, k: nat, s: Column -> bool)
    requires k < |o|
    ensures Filter(o[..k + 1], s) == Filter(o[..k], s) + When(s(o[k]), o[k])
  {
    assert o[..k + 1] == o[..k] + [o[k]];
    FilterSnoc(o[..k], o[k], s);
  }

  /** Filtering five columns, written as the five conditional appends. */
  lemma FilterOfFive(o: seq<Column>, s: Column -> bool)
    requires |o| == 5
    ensures Filter(o, s) ==
      When(s(o[0]), o[0]) + When(s(o[1]), o[1]) + When(s(o[2]), o[2]) + When(s(o[3]), o[3]) + When(s(o[4]), o[4])
  {
    assert o[..0] == [];
    FilterPrefixStep(o, 0, s);
    assert Filter(o[..1], s) == When(s(o[0]), o[0]);
    FilterPrefixStep(o, 1, s);
    FilterPrefixStep(o, 2, s);
    FilterPrefixStep(o, 3, s);
    FilterPrefixStep(o, 4, s);
    assert o[..5] == o;
  }

  /** Filtering three columns, written as the three conditional appends. */
  lemma FilterOfThree(o: seq<Column>, s: Column -> bool)
    requires |o| == 3
    ensures Filter(o, s) == When(s(o[0]), o[0]) + When(s(o[1]), o[1]) + When(s(o[2]), o[2])
  {
    assert o[..0] == [];
    FilterPrefixStep(o, 0, s);
    assert Filter(o[..1], s) == When(s(o[0]), o[0]);
    FilterPrefixStep(o, 1, s);
    FilterPrefixStep(o, 2, s);
    assert o[..3] == o;
  }

  lemma LessonColumnsFiltered(c: LessonChanges)
    ensures Filter(LessonColumns, LessonSupplied(c)) ==
      When(Truthy(c.title), Title) + When(Truthy(c.description), Description) + When(Truthy(c.difficulty), Difficulty) +
      When(Truthy(c.content), Content) + When(c.orderIndex.Some?, OrderIndex)
  {
    var o, s := LessonColumns, LessonSupplied(c);
    assert o[0] == Title && o[1] == Description && o[2] == Difficulty && o[3] == Content && o[4] == OrderIndex;
    assert s(Title) == Truthy(c.title) && s(Description) == Truthy(c.description);
    assert s(Difficulty) == Truthy(c.difficulty) && s(Content) == Truthy(c.content);
    assert s(OrderIndex) == c.orderIndex.Some?;
    FilterOfFive(o, s);
  }

  lemma QuizColumnsFiltered(c: QuizChanges)
    ensures Filter(QuizColumns, QuizSupplied(c)) ==
      When(Truthy(c.title), Title) + When(NonEmpty(c.questions), Questions) +
      When(c.totalPoints.Some? && c.totalPoints.value != 0, TotalPoints)
  {
    var o, s := QuizColumns, QuizSupplied(c);
    assert o[0] == Title && o[1] == Questions && o[2] == TotalPoints;
    assert s(Title) == Truthy(c.title) && s(Questions) == NonEmpty(c.questions);
    assert s(TotalPoints) == (c.totalPoints.Some? && c.totalPoints.value != 0);
    FilterOfThree(o, s);
  }

  /** The finished lesson SET list is the supplied columns in order. */
  lemma LessonListBuilt(updates: seq<Column>, params: seq<Value>, c: LessonChanges, lessonId: int)
    requires Paired(updates, params, LessonValue(c))
    requires updates ==
      When(Truthy(c.title), Title) + When(Truthy(c.description), Description) + When(Truthy(c.difficulty), Difficulty) +
      When(Truthy(c.content), Content) + When(c.orderIndex.Some?, OrderIndex)
    ensures |updates| == 0 <==> !AnyLessonChange(c)
    ensures |updates| != 0 ==>
      BuiltFrom(UpdateQuery(updates, params + [Int(lessonId)]), LessonColumns, LessonSupplied(c), LessonValue(c), lessonId)
  {
    LessonColumnsFiltered(c);
  }

  /** The finished quiz SET list is the supplied columns in order. */
  lemma QuizListBuilt(updates: seq<Column>, params: seq<Value>, c: QuizChanges, quizId: int)
    requires Paired(updates, params, QuizValue(c))
    requires updates ==
      When(Truthy(c.title), Title) + When(NonEmpty(c.questions), Questions) +
      When(c.totalPoints.Some? && c.totalPoints.value != 0, TotalPoints)
    ensures |updates| == 0 <==> !AnyQuizChange(c)
    ensures |updates| != 0 ==>
      BuiltFrom(UpdateQuery(updates, params + [Int(quizId)]), QuizColumns, QuizSupplied(c), QuizValue(c), quizId)
  {
    QuizColumnsFiltered(c);
  }

  /** All tables at once, so that a method can say which one it changed. */
  datatype LegacyDbTables = LegacyDbTables(
    users: seq<LegacyUser>,
    lessons: seq<Lesson>,
    quizzes: seq<Quiz>,
    progress: seq<LegacyProgress>,
    sessions: seq<LegacySession>)

  /** The unique keys and the increasing row ids of every table. The
      progress table has only its row id as a key. */
  ghost predicate TablesValid(t: LegacyDbTables) {
    LegacyUsersValid(t.users) && Increasing(LessonIds(t.lessons)) && Increasing(QuizIds(t.quizzes)) &&
    Increasing(LegacyProgressIds(t.progress)) && LegacySessionsValid(t.sessions)
  }

  class LegacyStore {
    var users: seq<LegacyUser>
    var lessons: seq<Lesson>
    var quizzes: seq<Quiz>
    var progress: seq<LegacyProgress>
    var sessions: seq<LegacySession>
    /** `Utility.gethash_pwd` */
    const digest: string -> string

    function Snapshot(): LegacyDbTables
      reads this
    {
      LegacyDbTables(users, lessons, quizzes, progress, sessions)
    }

    ghost predicate Valid()
      reads this
    {
      TablesValid(Snapshot())
    }

    /** The store over an existing database file. */
    constructor(digest: string -> string, db: LegacyDbTables)
      requires TablesValid(db)
      ensures Valid() && Snapshot() == db && this.digest == digest
    {
      users := db.users;
      lessons := db.lessons;
      quizzes := db.quizzes;
      progress := db.progress;
      sessions := db.sessions;
      this.digest := digest;
    }

    /** `register_user` */
    method RegisterUser(email: string, password: string, name: string, token: Option<Token>)
      returns (id: Option<int>)
      requires Valid()
      modifies this
      ensures Valid()
      ensures (id, users) == RegisterStep(old(users), email, password, name, token)
      ensures Snapshot() == old(Snapshot()).(users := users)
    {
      var r := RegisterStep(users, email, password, name, token);
      if r.0.Some? {
        users := users + [LegacyUser(r.0.value, email, password, name, token, None, None)];
      }
      id := r.0;
    }

    /** `update_user_profile`: one of three statements, or none. */
    method UpdateUserProfile(id: int, name: Option<string>, email: Option<string>)
      returns (outcome: LegacyProfileOutcome)
      requires Valid()
      modifies this
      ensures Valid()
      ensures (outcome, users) == UpdateProfileStep(old(users), id, name, email)
      ensures Snapshot() == old(Snapshot()).(users := users)
    {
      var setName, setEmail;
      if Truthy(name) && Truthy(email) {
        setName, setEmail := true, true;
      } else if Truthy(name) {
        setName, setEmail := true, false;
      } else if Truthy(email) {
        setName, setEmail := false, true;
      } else {
        return NothingToUpdate;
      }
      if setEmail && EmailClash(users, id, email.value) {
        return UniqueViolation;
      }
      var t := users;
      var updated := seq(|t|, k requires 0 <= k < |t| =>
        if t[k].id != id then t[k]
        else t[k].(name := if setName then name.value else t[k].name,
                   email := if setEmail then email.value else t[k].email));
      assert setName == Truthy(name) && setEmail == Truthy(email);
      ghost var r := UpdateProfileStep(t, id, name, email);
      assert r.0.Executed?;
      assert forall k :: 0 <= k < |t| ==> updated[k] == r.1[k];
      assert updated == r.1;
      users := updated;
      outcome := Executed;
    }

    /** `update_lesson`: builds the SET list, then runs the statement. The
        lessons table ends up as the application's `update_lesson` would
        leave it; the result says only whether a statement was sent. */
    method UpdateLesson(id: int, c: LessonChanges) returns (executed: bool)
      requires Valid()
      modifies this
      ensures Valid()
      ensures executed <==> AnyLessonChange(c)
      ensures lessons == AppTables.UpdateLessonStep(old(lessons), id, c.title, c.description, c.difficulty,
                                                    c.content, c.orderIndex).1
      ensures Snapshot() == old(Snapshot()).(lessons := lessons)
    {
      var q := BuildLessonUpdate(id, c);
      LessonUpdateMatchesApp(lessons, id, c, q);
      LessonUpdateKeepsIds(lessons, id, c);
      if q.None? {
        return false;
      }
      lessons := ExecUpdate(lessons, LessonId, q.value, AssignLesson);
      executed := true;
    }

    /** `update_quiz`: as the application's `update_quiz` with a total of
        0 treated as missing. */
    method UpdateQuiz(id: int, c: QuizChanges) returns (executed: bool)
      requires Valid()
      modifies this
      ensures Valid()
      ensures executed <==> AnyQuizChange(c)
      ensures quizzes == AppTables.UpdateQuizStep(old(quizzes), id, c.title, c.questions, TruthyTotal(c.totalPoints)).1
      ensures Snapshot() == old(Snapshot()).(quizzes := quizzes)
    {
      var q := BuildQuizUpdate(id, c);
      QuizUpdateMatchesApp(quizzes, id, c, q);
      QuizUpdateKeepsIds(quizzes, id, c);
      if q.None? {
        return false;
      }
      quizzes := ExecUpdate(quizzes, QuizId, q.value, AssignQuiz);
      executed := true;
    }

    /** `save_progress`: the INSERT OR REPLACE, which always inserts. */
    method SaveProgress(userId: int, lessonId: int, completed: bool, percentage: real, timeSpent: int, now: Time)
      returns (rowId: int)
      requires Valid()
      modifies this
      ensures Valid()
      ensures (rowId, progress) == SaveProgressStep(old(progress), userId, lessonId, completed, percentage, timeSpent, now)
      ensures Snapshot() == old(Snapshot()).(progress := progress)
    {
      rowId := NextId(LegacyProgressIds(progress));
      progress := progress + [LegacyProgress(rowId, userId, lessonId, completed, percentage, timeSpent, now)];
    }

    /** `create_session` */
    method CreateSession(userId: int, token: Token, expiresAt: Option<Time>) returns (id: Option<int>)
      requires Valid()
      modifies this
      ensures Valid()
      ensures (id, sessions) == CreateSessionStep(old(sessions), userId, token, expiresAt)
      ensures Snapshot() == old(Snapshot()).(sessions := sessions)
    {
      var r := CreateSessionStep(sessions, userId, token, expiresAt);
      if r.0.Some? {
        sessions := sessions + [LegacySession(r.0.value, userId, token, expiresAt)];
      }
      id := r.0;
    }

    /** `cleanup_expired_sessions`: one DELETE of the expired rows. */
    method CleanupExpiredSessions(now: Time)
      requires Valid()
      modifies this
      ensures Valid()
      ensures sessions == CleanupSessionsStep(old(sessions), now)
      ensures forall s :: s in sessions <==> s in old(sessions) && !LegacySessionExpired(s, now)
      ensures Snapshot() == old(Snapshot()).(sessions := sessions)
    {
      CleanupSessionsPreservesValid(sessions, now);
      sessions := CleanupSessionsStep(sessions, now);
    }
  }

  lemma LessonUpdateKeepsIds(lessons: seq<Lesson>, id: int, c: LessonChanges)
    ensures LessonIds(AppTables.UpdateLessonStep(lessons, id, c.title, c.description, c.difficulty, c.content, c.orderIndex).1)
      == LessonIds(lessons)
  {
  }

  lemma QuizUpdateKeepsIds(quizzes: seq<Quiz>, id: int, c: QuizChanges)
    ensures QuizIds(AppTables.UpdateQuizStep(quizzes, id, c.title, c.questions, TruthyTotal(c.totalPoints)).1)
      == QuizIds(quizzes)
  {
  }
}
