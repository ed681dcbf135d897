/** The application's store (`app/database.py`) as one object whose tables
    are updated in place. Each method does what the Python function does to
    the database and is proved to agree with the function of `AppTables`
    that specifies it; the properties of those functions are proved there.

    The clock is the `now` argument, the password hash is the `hash`
    function the store is built with, and a token that `generate_token`
    would produce is passed in as `newToken`. */
module AppDatabase {
  import opened Common
  import opened Records
  import opened AppTables

  /** All tables at once, so that a method can say which one it changed. */
  datatype Tables = Tables(
    users: seq<User>,
    lessons: seq<Lesson>,
    quizzes: seq<Quiz>,
    submissions: seq<QuizSubmission>,
    progress: seq<Progress>,
    hints: seq<Hint>,
    sessions: seq<UserSession>)

  class Store {
    var users: seq<User>
    var lessons: seq<Lesson>
    var quizzes: seq<Quiz>
    var submissions: seq<QuizSubmission>
    var progress: seq<Progress>
    var hints: seq<Hint>
    var sessions: seq<UserSession>
    /** `hash_password`; `verify_password(p, h)` is `hash(p) == h`. */
    const hash: string -> string

    function Snapshot(): Tables
      reads this
    {
      Tables(users, lessons, quizzes, submissions, progress, hints, sessions)
    }

    /** The unique keys and the increasing row ids of every table. */
    ghost predicate Valid()
      reads this
    {
      UsersValid(users) && Increasing(LessonIds(lessons)) && Increasing(QuizIds(quizzes)) &&
      Increasing(SubmissionIds(submissions)) && ProgressValid(progress) &&
      Increasing(HintIds(hints)) && SessionsValid(sessions)
    }

    /** `init_db` on an empty database. */
    constructor(hash: string -> string)
      ensures Valid() && this.hash == hash
      ensures Snapshot() == Tables([], [], [], [], [], [], [])
    {
      users := [];
      lessons := [];
      quizzes := [];
      submissions := [];
      progress := [];
      hints := [];
      sessions := [];
      this.hash := hash;
    }

    /** `register_user` */
    method RegisterUser(email: string, password: string, name: string, newToken: Token, now: Time)
      returns (outcome: RegisterOutcome)
      requires Valid() && FreshToken(users, newToken)
      modifies this
      ensures Valid()
      ensures (outcome, users) == RegisterStep(old(users), email, hash(password), name, newToken, now)
      ensures Snapshot() == old(Snapshot()).(users := users)
    {
      RegisterPreservesValid(users, email, hash(password), name, newToken, now);
      if FindUserByEmail(users, email).Some? {
        outcome := EmailAlreadyRegistered;
        return;
      }
      var user := NewUser(NextId(UserIds(users)), email, hash(password), name,
                          Some(newToken), Some(TokenExpiry(now)), now);
      users := users + [user];
      outcome := Registered(newToken);
    }

    /** `login_user`: the row's token and expiry are assigned in place when a
        new token is issued. */
    method LoginUser(email: string, password: string, now: Time, newToken: Token)
      returns (outcome: LoginOutcome)
      requires Valid() && FreshToken(users, newToken)
      modifies this
      ensures Valid()
      ensures (outcome, users) == LoginStep(old(users), email, password, hash, now, newToken)
      ensures Snapshot() == old(Snapshot()).(users := users)
    {
      LoginPreservesValid(users, email, password, hash, now, newToken);
      var found := FindUserByEmail(users, email);
      if found.None? {
        return EmailNotFound;
      }
      var i := found.value;
      var user := users[i];
      if hash(password) != user.password {
        return InvalidPassword;
      }
      if user.tokenExpiresAt.Some? && user.tokenExpiresAt.value < now {
        users := users[i := user.(token := Some(newToken), tokenExpiresAt := Some(TokenExpiry(now)))];
        return LoggedIn(newToken);
      }
      if user.token.Some? && user.token.value != "" && user.tokenExpiresAt.Some? && user.tokenExpiresAt.value > now {
        return LoggedIn(user.token.value);
      }
      users := users[i := user.(token := Some(newToken), tokenExpiresAt := Some(TokenExpiry(now)))];
      outcome := LoggedIn(newToken);
    }

    /** `update_user_profile` */
    method UpdateUserProfile(id: int, name: Option<string>, email: Option<string>)
      returns (outcome: ProfileOutcome)
      requires Valid()
      modifies this
      ensures Valid()
      ensures (outcome, users) == UpdateProfileStep(old(users), id, name, email)
      ensures Snapshot() == old(Snapshot()).(users := users)
    {
      UpdateProfilePreservesValid(users, id, name, email);
      var found := FindUserById(users, id);
      if found.None? {
        return ProfileNotFound;
      }
      var i := found.value;
      var user := users[i];
      if Truthy(name) {
        user := user.(name := name.value);
      }
      if Truthy(email) {
        if EmailHeldByOther(users, i, email.value) {
          return EmailConflict;
        }
        user := user.(email := email.value);
      }
      users := users[i := user];
      outcome := ProfileUpdated(user);
    }

    /** `make_user_admin` */
    method MakeUserAdmin(id: int) returns (result: Option<User>)
      requires Valid()
      modifies this
      ensures Valid()
      ensures (result, users) == MakeAdminStep(old(users), id)
      ensures Snapshot() == old(Snapshot()).(users := users)
    {
      MakeAdminPreservesValid(users, id);
      var found := FindUserById(users, id);
      if found.None? {
        return None;
      }
      var i := found.value;
      users := users[i := users[i].(isAdmin := true)];
      result := Some(users[i]);
    }

    /** `create_lesson` */
    method CreateLesson(title: string, description: string, difficulty: string, content: string,
                        orderIndex: int, now: Time) returns (lesson: Lesson)
      requires Valid()
      modifies this
      ensures Valid()
      ensures (lesson, lessons) == CreateLessonStep(old(lessons), title, description, difficulty, content, orderIndex, now)
      ensures Snapshot() == old(Snapshot()).(lessons := lessons)
    {
      ghost var r := CreateLessonStep(lessons, title, description, difficulty, content, orderIndex, now);
      lesson := Lesson(NextId(LessonIds(lessons)), title, description, difficulty, content, orderIndex, now);
      lessons := lessons + [lesson];
    }

    /** `update_lesson`: each field of the found row is assigned in turn. */
    method UpdateLesson(id: int, title: Option<string>, description: Option<string>, difficulty: Option<string>,
                        content: Option<string>, orderIndex: Option<int>) returns (result: Option<Lesson>)
      requires Valid()
      modifies this
      ensures Valid()
      ensures (result, lessons) == UpdateLessonStep(old(lessons), id, title, description, difficulty, content, orderIndex)
      ensures Snapshot() == old(Snapshot()).(lessons := lessons)
    {
      var found := FindLessonById(lessons, id);
      if found.None? {
        return None;
      }
      var i := found.value;
      var lesson := lessons[i];
      if Truthy(title) {
        lesson := lesson.(title := title.value);
      }
      if Truthy(description) {
        lesson := lesson.(description := description.value);
      }
      if Truthy(difficulty) {
        lesson := lesson.(difficulty := difficulty.value);
      }
      if Truthy(content) {
        lesson := lesson.(content := content.value);
      }
      if orderIndex.Some? {
        lesson := lesson.(orderIndex := orderIndex.value);
      }
      assert LessonIds(lessons[i := lesson]) == LessonIds(lessons);
      lessons := lessons[i := lesson];
      result := Some(lesson);
    }

    /** `delete_lesson`: `true` when a row was removed, `false` for the source's `None`. */
    method DeleteLesson(id: int) returns (deleted: bool)
      requires Valid()
      modifies this
      ensures Valid()
      ensures (deleted, lessons) == DeleteLessonStep(old(lessons), id)
      ensures Snapshot() == old(Snapshot()).(lessons := lessons)
    {
      ghost var r := DeleteLessonStep(lessons, id);
      var found := FindLessonById(lessons, id);
      if found.None? {
        return false;
      }
      var i := found.value;
      lessons := lessons[..i] + lessons[i + 1..];
      deleted := true;
    }

    /** `create_quiz` */
    method CreateQuiz(lessonId: int, title: string, questions: seq<string>, totalPoints: int, now: Time)
      returns (quiz: Quiz)
      requires Valid()
      modifies this
      ensures Valid()
      ensures (quiz, quizzes) == CreateQuizStep(old(quizzes), lessonId, title, questions, totalPoints, now)
      ensures Snapshot() == old(Snapshot()).(quizzes := quizzes)
    {
      ghost var r := CreateQuizStep(quizzes, lessonId, title, questions, totalPoints, now);
      quiz := Quiz(NextId(QuizIds(quizzes)), lessonId, title, questions, totalPoints, now);
      quizzes := quizzes + [quiz];
    }

    /** `update_quiz` */
    method UpdateQuiz(id: int, title: Option<string>, questions: Option<seq<string>>, totalPoints: Option<int>)
      returns (result: Option<Quiz>)
      requires Valid()
      modifies this
      ensures Valid()
      ensures (result, quizzes) == UpdateQuizStep(old(quizzes), id, title, questions, totalPoints)
      ensures Snapshot() == old(Snapshot()).(quizzes := quizzes)
    {
      var found := FindQuizById(quizzes, id);
      if found.None? {
        return None;
      }
      var i := found.value;
      var quiz := quizzes[i];
      if Truthy(title) {
        quiz := quiz.(title := title.value);
      }
      if NonEmpty(questions) {
        quiz := quiz.(questions := questions.value);
      }
      if totalPoints.Some? {
        quiz := quiz.(totalPoints := totalPoints.value);
      }
      assert QuizIds(quizzes[i := quiz]) == QuizIds(quizzes);
      quizzes := quizzes[i := quiz];
      result := Some(quiz);
    }

    /** `submit_quiz`: appends to the ledger. */
    method SubmitQuiz(userId: int, quizId: int, lessonId: int, answers: seq<string>, score: real,
                      maxScore: real, now: Time) returns (submission: QuizSubmission)
      requires Valid()
      modifies this
      ensures Valid()
      ensures (submission, submissions) == SubmitStep(old(submissions), userId, quizId, lessonId, answers, score, maxScore, now)
      ensures Snapshot() == old(Snapshot()).(submissions := submissions)
    {
      ghost var r := SubmitStep(submissions, userId, quizId, lessonId, answers, score, maxScore, now);
      submission := NewSubmission(NextId(SubmissionIds(submissions)), userId, quizId, lessonId, answers, score, maxScore, now);
      submissions := submissions + [submission];
    }

    /** `save_progress`: insert for a new pair, otherwise the found row's
        fields are assigned in place. */
    method SaveProgress(userId: int, lessonId: int, completed: bool, percentage: real, timeSpent: int, now: Time)
      returns (row: Progress)
      requires Valid()
      modifies this
      ensures Valid()
      ensures (row, progress) == SaveProgressStep(old(progress), userId, lessonId, completed, percentage, timeSpent, now)
      ensures Snapshot() == old(Snapshot()).(progress := progress)
    {
      SaveProgressUpserts(progress, userId, lessonId, completed, percentage, timeSpent, now);
      var found := FindProgress(progress, userId, lessonId);
      if found.None? {
        row := Progress(NextId(ProgressIds(progress)), userId, lessonId, completed, percentage, timeSpent, now, now);
        progress := progress + [row];
      } else {
        var i := found.value;
        row := progress[i];
        row := row.(completed := completed);
        row := row.(completionPercentage := percentage);
        row := row.(timeSpent := timeSpent);
        row := row.(lastAccessed := now);
        progress := progress[i := row];
      }
    }

    /** `create_hint` */
    method CreateHint(lessonId: int, text: string, level: int, now: Time) returns (hint: Hint)
      requires Valid()
      modifies this
      ensures Valid()
      ensures (hint, hints) == CreateHintStep(old(hints), lessonId, text, level, now)
      ensures Snapshot() == old(Snapshot()).(hints := hints)
    {
      ghost var r := CreateHintStep(hints, lessonId, text, level, now);
      hint := Hint(NextId(HintIds(hints)), lessonId, text, level, now);
      hints := hints + [hint];
    }

    /** `create_session`: `None` when the token is taken and the insert fails. */
    method CreateSession(userId: int, token: Token, expiresAt: Option<Time>, now: Time)
      returns (session: Option<UserSession>)
      requires Valid()
      modifies this
      ensures Valid()
      ensures (session, sessions) == CreateSessionStep(old(sessions), userId, token, expiresAt, now)
      ensures Snapshot() == old(Snapshot()).(sessions := sessions)
    {
      ghost var r := CreateSessionStep(sessions, userId, token, expiresAt, now);
      if FindSession(sessions, token).Some? {
        return None;
      }
      var s := UserSession(NextId(SessionIds(sessions)), userId, token, expiresAt, now);
      sessions := sessions + [s];
      session := Some(s);
    }

    /** `delete_session` */
    method DeleteSession(token: Token) returns (deleted: bool)
      requires Valid()
      modifies this
      ensures Valid()
      ensures (deleted, sessions) == DeleteSessionStep(old(sessions), token)
      ensures Snapshot() == old(Snapshot()).(sessions := sessions)
    {
      DeleteSessionRemovesToken(sessions, token);
      var found := FindSession(sessions, token);
      if found.None? {
        return false;
      }
      var i := found.value;
      sessions := sessions[..i] + sessions[i + 1..];
      deleted := true;
    }

    /** `cleanup_expired_sessions`: removes every session whose expiry is
        before `now`, one at a time, and returns `True`. */
    method CleanupExpiredSessions(now: Time) returns (done: bool)
      requires Valid()
      modifies this
      ensures Valid() && done
      ensures sessions == LiveSessions(old(sessions), now)
      ensures Snapshot() == old(Snapshot()).(sessions := sessions)
    {
      CleanupSessionsPreservesValid(sessions, now);
      var kept: seq<UserSession> := [];
      var i := 0;
      while i < |sessions|
        invariant 0 <= i <= |sessions|
        invariant kept == LiveSessions(sessions[..i], now)
        invariant Snapshot() == old(Snapshot())
      {
        assert sessions[..i + 1] == sessions[..i] + [sessions[i]];
        FilterSnoc(sessions[..i], sessions[i], SessionLiveAt(now));
        if !SessionExpired(sessions[i], now) {
          kept := kept + [sessions[i]];
        }
        i := i + 1;
      }
      assert sessions[..i] == sessions;
      sessions := kept;
      done := true;
    }

    /** `cleanup_expired_tokens`: clears token and expiry of every user whose
        expiry is before `now`, and returns how many there were. */
    method CleanupExpiredTokens(now: Time) returns (cleared: nat)
      requires Valid()
      modifies this
      ensures Valid()
      ensures users == ClearExpiredTokens(old(users), now)
      ensures cleared == ExpiredTokenCount(old(users), now)
      ensures Snapshot() == old(Snapshot()).(users := users)
    {
      ClearExpiredTokensPreservesValid(users, now);
      var table;
      table, cleared := ClearExpired(users, now);
      users := table;
    }
  }

  /** The loop of `cleanup_expired_tokens` over a copy of the users table:
      each expired row has its token and expiry cleared, and the cleared
      rows are counted. */
  method ClearExpired(original: seq<User>, now: Time) returns (table: seq<User>, cleared: nat)
    ensures table == ClearExpiredTokens(original, now)
    ensures cleared == ExpiredTokenCount(original, now)
  {
    ghost var spec := ClearExpiredTokens(original, now);
    table := original;
    cleared := 0;
    var i := 0;
    while i < |table|
      invariant 0 <= i <= |table| && |table| == |original| == |spec|
      invariant forall k :: 0 <= k < i ==> table[k] == spec[k]
      invariant forall k :: i <= k < |table| ==> table[k] == original[k]
      invariant cleared == ExpiredTokenCount(original[..i], now)
    {
      ExpiredCountStep(original, i, now);
      if TokenExpired(table[i], now) {
        table := table[i := ClearToken(table[i])];
        cleared := cleared + 1;
      }
      i := i + 1;
    }
    assert original[..i] == original;
  }

  /** One more row scanned adds one to the count exactly when it is expired. */
  lemma ExpiredCountStep(original: seq<User>, i: nat, now: Time)
    requires i < |original|
    ensures ExpiredTokenCount(original[..i + 1], now) ==
      ExpiredTokenCount(original[..i], now) + (if TokenExpired(original[i], now) then 1 else 0)
  {
    assert original[..i + 1] == original[..i] + [original[i]];
    CountSnoc(original[..i], original[i], TokenExpiredAt(now));
  }
}
