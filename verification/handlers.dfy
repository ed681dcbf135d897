/** The decision ladders of the user-facing handlers. `app/main.py` and
    `app/api/user_endpoints.py` hold the same handlers, check for check; each
    ladder below is both. A ladder is a function of the request's fields and
    of what the store calls it makes return, checked in the order the
    handler checks them, with the first failing check deciding the status.
    A handler behind `auth_required` first reads the user's id from
    `request.user` (`Guard.UserIdOf`); its `try` turns a raise there into
    500 before any check runs.

    A request field is `None` when the JSON body lacks it. */
module Handlers {
  import opened Common
  import opened Records
  import AppTables
  import Validators
  import Guard

  /** A handler's response: an error status with its message, or success
      (status 200) with what the body reports. */
  datatype Reply<T> = Failure(status: int, error: string) | Success(body: T) {
    function Status(): int {
      if Failure? then status else 200
    }
  }

  // ---------------------------------------------------------------------
  // register

  /** The checks `register` makes before touching the store. */
  predicate RegisterInputsValid(email: Option<string>, password: Option<string>, name: Option<string>) {
    Truthy(email) && Truthy(password) && Truthy(name) &&
    Validators.IsValidEmail(email.value) && Validators.IsValidPassword(password.value)
  }

  /** `register`: missing fields, a bad email, a short password (400 each);
      an email `get_user` finds (409); a failed or falsy `register_user`
      (500); otherwise the new token. */
  function RegisterLadder(email: Option<string>, password: Option<string>, name: Option<string>,
                          alreadyExists: bool, registered: AppTables.RegisterOutcome): (r: Reply<Token>)
    ensures r.Status() == 400 <==> !RegisterInputsValid(email, password, name)
    ensures r.Status() == 409 <==> RegisterInputsValid(email, password, name) && alreadyExists
    ensures r.Status() == 500 <==> (RegisterInputsValid(email, password, name) && !alreadyExists &&
                                    (registered.EmailAlreadyRegistered? || registered.token == ""))
    ensures r.Success? <==> (RegisterInputsValid(email, password, name) && !alreadyExists &&
                             registered.Registered? && registered.token != "")
    ensures r.Success? ==> r.body == registered.token
  {
    if !Truthy(email) || !Truthy(password) || !Truthy(name) then
      Failure(400, "Email, password, and name are required")
    else if !Validators.IsValidEmail(email.value) then Failure(400, "Invalid email format")
    else if !Validators.IsValidPassword(password.value) then
      Failure(400, "Password must be at least 8 characters long")
    else if alreadyExists then Failure(409, "User already exists")
    else match registered
      case EmailAlreadyRegistered => Failure(500, "Internal server error")
      case Registered(token) =>
        if token == "" then Failure(500, "Failed to register user") else Success(token)
  }

  /** Against one state of the users table, with a fresh token, the
      pre-check and the insert agree: registration never ends in 500, and a
      success hands out a token that authenticates the new user until it
      expires. */
  lemma RegisterAgainstStore(users: seq<User>, email: string, password: string, name: string,
                             hash: string -> string, token: Token, now: Time)
    requires AppTables.FreshToken(users, token)
    ensures var step := AppTables.RegisterStep(users, email, hash(password), name, token, now);
      var r := RegisterLadder(Some(email), Some(password), Some(name), AppTables.EmailRegistered(users, email), step.0);
      r.Status() in {200, 400, 409} &&
      (r.Success? ==> AppTables.UserByToken(step.1, r.body, now).Some?)
  {
    var step := AppTables.RegisterStep(users, email, hash(password), name, token, now);
    var r := RegisterLadder(Some(email), Some(password), Some(name), AppTables.EmailRegistered(users, email), step.0);
    if r.Success? {
      AppTables.RegisterThenResolve(users, email, hash(password), name, token, now, now);
    }
  }

  /** The check-then-insert race: when another request registers the same
      email between `get_user` and `register_user`, the insert fails and the
      handler answers 500, not 409. */
  lemma RegisterRaceIsServerError(before: seq<User>, after: seq<User>, email: string, password: string,
                                  name: string, hashed: string, token: Token, now: Time)
    requires RegisterInputsValid(Some(email), Some(password), Some(name))
    requires !AppTables.EmailRegistered(before, email) && AppTables.EmailRegistered(after, email)
    ensures var step := AppTables.RegisterStep(after, email, hashed, name, token, now);
      RegisterLadder(Some(email), Some(password), Some(name), AppTables.EmailRegistered(before, email), step.0).Status() == 500 &&
      step.1 == after
  {
  }

  // ---------------------------------------------------------------------
  // login

  predicate LoginInputsValid(email: Option<string>, password: Option<string>) {
    Truthy(email) && Truthy(password) && Validators.IsValidEmail(email.value)
  }

  /** `login`: missing fields or a bad email (400), an unknown email (404), a
      wrong password (401), otherwise the token `login_user` returns. */
  function LoginLadder(email: Option<string>, password: Option<string>, outcome: AppTables.LoginOutcome): (r: Reply<Token>)
    ensures r.Status() == 400 <==> !LoginInputsValid(email, password)
    ensures r.Status() == 404 <==> LoginInputsValid(email, password) && outcome.EmailNotFound?
    ensures r.Status() == 401 <==> LoginInputsValid(email, password) && outcome.InvalidPassword?
    ensures r.Success? <==> LoginInputsValid(email, password) && outcome.LoggedIn?
    ensures r.Success? ==> r.body == outcome.token
  {
    if !Truthy(email) || !Truthy(password) then Failure(400, "Email and password are required")
    else if !Validators.IsValidEmail(email.value) then Failure(400, "Invalid email format")
    else match outcome
      case EmailNotFound => Failure(404, "User not found")
      case InvalidPassword => Failure(401, "Invalid credentials")
      case LoggedIn(token) => Success(token)
  }

  /** A successful login answers with a token that authenticates the user
      with that email at once; 404 means exactly that no user has the
      email. */
  lemma LoginAgainstStore(users: seq<User>, email: string, password: string, hash: string -> string,
                          now: Time, newToken: Token)
    requires AppTables.UsersValid(users) && AppTables.FreshToken(users, newToken)
    requires LoginInputsValid(Some(email), Some(password))
    ensures var step := AppTables.LoginStep(users, email, password, hash, now, newToken);
      var r := LoginLadder(Some(email), Some(password), step.0);
      (r.Status() == 404 <==> !AppTables.EmailRegistered(users, email)) &&
      (r.Success? ==> AppTables.UserByToken(step.1, r.body, now).Some? &&
                      AppTables.UserByToken(step.1, r.body, now).value.email == email)
  {
    var step := AppTables.LoginStep(users, email, password, hash, now, newToken);
    if step.0.LoggedIn? {
      AppTables.LoginTokenResolves(users, email, password, hash, now, newToken);
    }
  }

  // ---------------------------------------------------------------------
  // update_profile

  /** `update_profile`: neither field supplied, or a supplied email that is
      not valid (400); `update_user_profile` returning `None` or failing on
      the unique email (500); otherwise success. */
  function UpdateProfileLadder(name: Option<string>, email: Option<string>, outcome: AppTables.ProfileOutcome): (r: Reply<()>)
    ensures r.Status() == 400 <==>
      (!Truthy(name) && !Truthy(email)) || (Truthy(email) && !Validators.IsValidEmail(email.value))
    ensures r.Status() == 500 <==> r.Status() != 400 && !outcome.ProfileUpdated?
    ensures r.Success? <==> r.Status() != 400 && outcome.ProfileUpdated?
  {
    if !Truthy(name) && !Truthy(email) then Failure(400, "Name or email is required")
    else if Truthy(email) && !Validators.IsValidEmail(email.value) then Failure(400, "Invalid email format")
    else match outcome
      case ProfileUpdated(_) => Success(())
      case ProfileNotFound => Failure(500, "Failed to update profile")
      case EmailConflict => Failure(500, "Internal server error")
  }

  /** `update_profile` with its store call: the id is read from the bound
      user first; the store is called only past the 400 checks, and the
      table changes only on success. */
  function UpdateProfile(user: Guard.Binding, users: seq<User>, name: Option<string>, email: Option<string>): (r: (Reply<()>, seq<User>))
    ensures Guard.UserIdOf(user).Raises? ==> r.0.Status() == 500 && r.1 == users
    ensures Guard.UserIdOf(user).Reads? ==>
      var step := AppTables.UpdateProfileStep(users, user.who.id, name, email);
      r.0 == UpdateProfileLadder(name, email, step.0) &&
      r.1 == (if r.0.Success? then step.1 else users)
  {
    match Guard.UserIdOf(user)
    case Raises(e) => (Failure(500, "Internal server error: " + e), users)
    case Reads(id) =>
      var step := AppTables.UpdateProfileStep(users, id, name, email);
      var reply := UpdateProfileLadder(name, email, step.0);
      (reply, if reply.Success? then step.1 else users)
  }

  /** For the user the guard bound as a mapping (a row of a valid table),
      the store always finds the row: a 500 comes only from an email another
      user holds, and a success rewrites that user's row alone. */
  lemma UpdateProfileOfBoundUser(users: seq<User>, i: nat, name: Option<string>, email: Option<string>)
    requires AppTables.UsersValid(users) && i < |users|
    ensures var r := UpdateProfile(Guard.ColumnMap(Guard.IdentityOf(users[i])), users, name, email);
      (r.0.Status() == 500 <==> r.0.Status() != 400 && Truthy(email) && AppTables.EmailHeldByOther(users, i, email.value)) &&
      (r.0.Success? ==> |r.1| == |users| && forall k :: 0 <= k < |users| && k != i ==> r.1[k] == users[k])
  {
    var id := users[i].id;
    assert AppTables.FindUserById(users, id) == Some(i);
  }

  /** As written the user is bound as the ORM row, so the id read raises and
      every `update_profile` answers 500 with the table untouched; bound as a
      mapping, the same request (a new name, no email) succeeds and writes
      the name. */
  lemma UpdateProfileAsWrittenFails(users: seq<User>, i: nat, name: string)
    requires AppTables.UsersValid(users) && i < |users| && name != ""
    ensures var r := UpdateProfile(Guard.OrmRow(Guard.IdentityOf(users[i])), users, Some(name), None);
      r.0.Status() == 500 && r.1 == users
    ensures var r := UpdateProfile(Guard.ColumnMap(Guard.IdentityOf(users[i])), users, Some(name), None);
      r.0.Success? && r.1[i].name == name
  {
    RenameOfBoundUser(users, i, name);
  }

  lemma RenameOfBoundUser(users: seq<User>, i: nat, name: string)
    requires AppTables.UsersValid(users) && i < |users| && name != ""
    ensures var r := UpdateProfile(Guard.ColumnMap(Guard.IdentityOf(users[i])), users, Some(name), None);
      r.0.Success? && r.1[i].name == name
  {
    var id := users[i].id;
    assert AppTables.FindUserById(users, id) == Some(i);
    var step := AppTables.UpdateProfileStep(users, id, Some(name), None);
    assert step.0.ProfileUpdated? && step.1 == users[i := step.0.user];
    assert UpdateProfileLadder(Some(name), None, step.0) == Success(());
  }

  // ---------------------------------------------------------------------
  // submit_lesson_quiz

  /** What `submit_quiz` is called with. */
  datatype SubmitCall = SubmitCall(quizId: int, score: real, maxScore: real)

  /** `quiz["id"]` on what `get_quiz` returns. As written that is the ORM
      `Quiz` row `scalar_one_or_none` gives back; its class defines no
      `__getitem__`, so the subscript raises `TypeError`. A mapping of the
      row's columns gives the id. */
  function QuizIdOf(form: Guard.BindingForm, quiz: Quiz): (r: Guard.Access<int>)
    ensures r.Reads? <==> form == Guard.AsMapping
    ensures r.Reads? ==> r.value == quiz.id
  {
    match form
    case AsWritten => Guard.Raises("'Quiz' object is not subscriptable")
    case AsMapping => Guard.Reads(quiz.id)
  }

  /** `submit_lesson_quiz`: empty answers (400), no quiz for the lesson (404),
      several (the lookup raises: 500); one quiz whose id read raises (500);
      otherwise the submission is made with the found quiz's id and the
      score and maximum defaulting to 0 and 100. `quizRow` says how the
      found quiz is handed back: as written, the ORM row. */
  function SubmitLadder(answers: Option<seq<string>>, score: Option<real>, maxScore: Option<real>,
                        lookup: AppTables.QuizLookup, quizRow: Guard.BindingForm): (r: Reply<SubmitCall>)
    ensures r.Status() == 400 <==> !NonEmpty(answers)
    ensures r.Status() == 404 <==> NonEmpty(answers) && lookup.NoQuiz?
    ensures r.Status() == 500 <==>
      NonEmpty(answers) && (lookup.ManyQuizzes? || (lookup.OneQuiz? && quizRow == Guard.AsWritten))
    ensures r.Success? <==> NonEmpty(answers) && lookup.OneQuiz? && quizRow == Guard.AsMapping
    ensures r.Success? ==>
      r.body.quizId == lookup.quiz.id && r.body.score == GetOr(score, 0.0) && r.body.maxScore == GetOr(maxScore, 100.0)
  {
    if !NonEmpty(answers) then Failure(400, "Answers are required")
    else match lookup
      case NoQuiz => Failure(404, "Quiz not found")
      case ManyQuizzes => Failure(500, "Internal server error")
      case OneQuiz(quiz) =>
        match QuizIdOf(quizRow, quiz)
        case Raises(e) => Failure(500, "Internal server error: " + e)
        case Reads(quizId) => Success(SubmitCall(quizId, GetOr(score, 0.0), GetOr(maxScore, 100.0)))
  }

  /** The handler with its store calls: read the user's id, look up the
      lesson's quiz, run the ladder, and on success append the submission. */
  function SubmitLessonQuiz(quizzes: seq<Quiz>, submissions: seq<QuizSubmission>, user: Guard.Binding,
                            quizRow: Guard.BindingForm, lessonId: int,
                            answers: Option<seq<string>>, score: Option<real>, maxScore: Option<real>,
                            now: Time): (r: (int, seq<QuizSubmission>))
    ensures r.0 != 200 ==> r.1 == submissions
    ensures user.OrmRow? ==> r.0 == 500
    ensures user.ColumnMap? ==>
      r.0 == SubmitLadder(answers, score, maxScore, AppTables.QuizForLesson(quizzes, lessonId), quizRow).Status()
    ensures r.0 == 200 ==>
      var userId := user.who.id;
      NonEmpty(answers) && |r.1| == |submissions| + 1 && r.1[..|submissions|] == submissions &&
      var s := r.1[|submissions|];
      s.userId == userId && s.lessonId == lessonId && s.answers == answers.value &&
      s.score == GetOr(score, 0.0) && s.maxScore == GetOr(maxScore, 100.0) &&
      exists q :: q in quizzes && q.lessonId == lessonId && s.quizId == q.id
  {
    if Guard.UserIdOf(user).Raises? then (500, submissions)
    else
    var userId := Guard.UserIdOf(user).value;
    var lookup := AppTables.QuizForLesson(quizzes, lessonId);
    match SubmitLadder(answers, score, maxScore, lookup, quizRow)
    case Failure(status, _) => (status, submissions)
    case Success(call) =>
      var step := AppTables.SubmitStep(submissions, userId, call.quizId, lessonId, answers.value, call.score, call.maxScore, now);
      assert step.1[..|submissions|] == submissions;
      (200, step.1)
  }

  /** As written no submission is ever stored: the quiz comes back as the
      ORM row, so once the 400 and 404 checks pass the `quiz["id"]` read
      raises, even for a user bound as a mapping, and on a lesson with
      exactly one quiz (the one at `k`) the answer is 500 with the ledger
      unchanged. */
  lemma SubmitLessonQuizAsWrittenFails(quizzes: seq<Quiz>, submissions: seq<QuizSubmission>, who: Guard.Identity,
                                       k: nat, answers: seq<string>, now: Time)
    requires k < |quizzes| && answers != []
    requires forall j :: 0 <= j < |quizzes| && j != k ==> quizzes[j].lessonId != quizzes[k].lessonId
    ensures forall user, lessonId ::
      SubmitLessonQuiz(quizzes, submissions, user, Guard.AsWritten, lessonId, Some(answers), None, None, now).1 == submissions
    ensures var r := SubmitLessonQuiz(quizzes, submissions, Guard.ColumnMap(who), Guard.AsWritten,
                                      quizzes[k].lessonId, Some(answers), None, None, now);
      r.0 == 500 && r.1 == submissions
  {
    OnlyQuizOfLesson(quizzes, k);
  }

  /** With the user and the quiz both read as mappings, a request with
      answers on a lesson whose only quiz is the one at `k` is stored: one
      submission is appended, for that user, lesson and quiz, with the
      answers and the default score 0 out of 100. */
  lemma SubmitToOnlyQuizStores(quizzes: seq<Quiz>, submissions: seq<QuizSubmission>, who: Guard.Identity,
                               k: nat, answers: seq<string>, now: Time)
    requires k < |quizzes| && answers != []
    requires forall j :: 0 <= j < |quizzes| && j != k ==> quizzes[j].lessonId != quizzes[k].lessonId
    ensures var r := SubmitLessonQuiz(quizzes, submissions, Guard.ColumnMap(who), Guard.AsMapping,
                                      quizzes[k].lessonId, Some(answers), None, None, now);
      r.0 == 200 && |r.1| == |submissions| + 1 && r.1[..|submissions|] == submissions &&
      var s := r.1[|submissions|];
      s.quizId == quizzes[k].id && s.userId == who.id && s.lessonId == quizzes[k].lessonId &&
      s.answers == answers && s.score == 0.0 && s.maxScore == 100.0
  {
    OnlyQuizOfLesson(quizzes, k);
  }

  /** A lesson whose only quiz is the one at `k` looks that quiz up. */
  lemma OnlyQuizOfLesson(quizzes: seq<Quiz>, k: nat)
    requires k < |quizzes|
    requires forall j :: 0 <= j < |quizzes| && j != k ==> quizzes[j].lessonId != quizzes[k].lessonId
    ensures AppTables.QuizForLesson(quizzes, quizzes[k].lessonId) == AppTables.OneQuiz(quizzes[k])
  {
    var lessonId := quizzes[k].lessonId;
    var r := AppTables.QuizForLesson(quizzes, lessonId);
    assert !r.NoQuiz?;
    CountOnlyOne(quizzes, k, AppTables.ForLesson(lessonId));
    var i :| 0 <= i < |quizzes| && quizzes[i] == r.quiz;
    assert i == k;
  }

  // ---------------------------------------------------------------------
  // update_lesson_progress

  /** `update_lesson_progress`: once the user's id is read there are no
      checks; the absent fields default to not completed, 0.0 per cent and
      no time, and `save_progress` always returns its row, so the answer is
      200. */
  function UpdateLessonProgress(progress: seq<Progress>, user: Guard.Binding, lessonId: int, completed: Option<bool>,
                                percentage: Option<real>, timeSpent: Option<int>, now: Time): (r: (int, seq<Progress>))
    requires AppTables.ProgressValid(progress)
    ensures AppTables.ProgressValid(r.1)
    ensures r.0 == 200 <==> user.ColumnMap?
    ensures r.0 != 200 ==> r.0 == 500 && r.1 == progress
    ensures r.0 == 200 ==>
      var userId := user.who.id;
      var row := AppTables.LessonProgress(r.1, userId, lessonId);
      row.Some? && row.value.completed == GetOr(completed, false) &&
      row.value.completionPercentage == GetOr(percentage, 0.0) && row.value.timeSpent == GetOr(timeSpent, 0) &&
      row.value.lastAccessed == now
    ensures forall u, l :: (u, l) != (user.who.id, lessonId) ==>
      AppTables.LessonProgress(r.1, u, l) == AppTables.LessonProgress(progress, u, l)
  {
    if Guard.UserIdOf(user).Raises? then (500, progress)
    else
    var userId := Guard.UserIdOf(user).value;
    var step := AppTables.SaveProgressStep(progress, userId, lessonId, GetOr(completed, false),
                                           GetOr(percentage, 0.0), GetOr(timeSpent, 0), now);
    AppTables.SaveProgressUpserts(progress, userId, lessonId, GetOr(completed, false),
                                  GetOr(percentage, 0.0), GetOr(timeSpent, 0), now);
    (200, step.1)
  }

  /** Because `save_progress` replaces rather than accumulates, a request
      with an empty body resets the pair's row to not completed, 0.0 per
      cent and no time, whatever it held, and touches no other pair. */
  lemma EmptyProgressRequestResets(progress: seq<Progress>, who: Guard.Identity, lessonId: int, now: Time)
    requires AppTables.ProgressValid(progress)
    ensures var after := UpdateLessonProgress(progress, Guard.ColumnMap(who), lessonId, None, None, None, now).1;
      var row := AppTables.LessonProgress(after, who.id, lessonId);
      row.Some? && !row.value.completed && row.value.completionPercentage == 0.0 && row.value.timeSpent == 0
  {
  }
}
