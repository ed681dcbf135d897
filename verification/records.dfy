/** The rows of the application's tables (`app/models.py`) and the values
    they start with.

    Timestamps are whole seconds in UTC (the `_DateTime` column type makes
    every stored value UTC, see `UtcDateTime`). Nullable columns are
    `Option`s; a column the application always fills is a plain value. */
module Records {
  import opened Common

  /** Seconds since the epoch, UTC. */
  type Time = int
  type Token = string

  /** `USER_TOKEN_LIFETIME_HOURS`, 24 unless configured otherwise. */
  const TokenLifetimeHours: nat := 24
  const SecondsPerHour: nat := 3600
  const TokenLifetime: nat := TokenLifetimeHours * SecondsPerHour

  /** The expiry half of `generate_token`: `now` plus the token lifetime.
      The token half is a fresh value supplied by the caller. */
  function TokenExpiry(now: Time): (expiresAt: Time)
    ensures expiresAt > now
    ensures expiresAt - now == 24 * 60 * 60
  {
    now + TokenLifetime
  }

  /** `users`: `email` unique and not null; `token` unique but nullable;
      `token_expires_at` nullable. */
  datatype User = User(
    id: int,
    email: string,
    password: string,
    name: string,
    token: Option<Token>,
    tokenExpiresAt: Option<Time>,
    isAdmin: bool,
    isVerified: bool,
    createdAt: Time)

  datatype Lesson = Lesson(
    id: int,
    title: string,
    description: string,
    difficulty: string,
    content: string,
    orderIndex: int,
    createdAt: Time)

  /** `questions` is a JSON array; its items are kept as strings. */
  datatype Quiz = Quiz(
    id: int,
    lessonId: int,
    title: string,
    questions: seq<string>,
    totalPoints: int,
    createdAt: Time)

  datatype QuizSubmission = QuizSubmission(
    id: int,
    userId: int,
    quizId: int,
    lessonId: int,
    answers: seq<string>,
    score: real,
    maxScore: real,
    completed: bool,
    submittedAt: Time)

  datatype Progress = Progress(
    id: int,
    userId: int,
    lessonId: int,
    completed: bool,
    completionPercentage: real,
    timeSpent: int,
    lastAccessed: Time,
    createdAt: Time)

  datatype Hint = Hint(
    id: int,
    lessonId: int,
    hintText: string,
    difficultyLevel: int,
    createdAt: Time)

  /** `user_sessions`: `session_token` unique, `expires_at` nullable. */
  datatype UserSession = UserSession(
    id: int,
    userId: int,
    sessionToken: Token,
    expiresAt: Option<Time>,
    createdAt: Time)

  // ---------------------------------------------------------------------
  // Column defaults

  const DefaultTotalPoints: int := 100
  const DefaultHintLevel: int := 1

  /** A new user row: `is_admin` and `is_verified` default to false and
      `created_at` to the time of the insert. */
  function NewUser(id: int, email: string, password: string, name: string, token: Option<Token>,
                   expiresAt: Option<Time>, now: Time): (u: User)
    ensures !u.isAdmin && !u.isVerified && u.createdAt == now
    ensures u.id == id && u.email == email && u.password == password && u.name == name
    ensures u.token == token && u.tokenExpiresAt == expiresAt
  {
    User(id, email, password, name, token, expiresAt, false, false, now)
  }

  /** A new submission row: `completed` defaults to true, `submitted_at` to
      the time of the insert. */
  function NewSubmission(id: int, userId: int, quizId: int, lessonId: int, answers: seq<string>,
                         score: real, maxScore: real, now: Time): (s: QuizSubmission)
    ensures s.completed && s.submittedAt == now
    ensures s.id == id && s.userId == userId && s.quizId == quizId && s.lessonId == lessonId
    ensures s.answers == answers && s.score == score && s.maxScore == maxScore
  {
    QuizSubmission(id, userId, quizId, lessonId, answers, score, maxScore, true, now)
  }

  /** The progress row that `save_progress` inserts when called with its own
      defaults: not completed, 0.0 per cent, no time spent. */
  function DefaultProgress(id: int, userId: int, lessonId: int, now: Time): (p: Progress)
    ensures !p.completed && p.completionPercentage == 0.0 && p.timeSpent == 0
    ensures p.id == id && p.userId == userId && p.lessonId == lessonId
    ensures p.lastAccessed == now && p.createdAt == now
  {
    Progress(id, userId, lessonId, false, 0.0, 0, now, now)
  }

  // ---------------------------------------------------------------------
  // Row ids

  /** Primary keys in table order; SQLite hands them out in increasing order. */
  predicate Increasing(ids: seq<int>) {
    forall i, j :: 0 <= i < j < |ids| ==> ids[i] < ids[j]
  }

  /** The next rowid SQLite assigns: one more than the largest, 1 for an
      empty table. */
  function NextId(ids: seq<int>): (n: int)
    ensures Increasing(ids) ==> forall i :: 0 <= i < |ids| ==> ids[i] < n
    ensures Increasing(ids) ==> Increasing(ids + [n])
  {
    if |ids| == 0 then 1 else ids[|ids| - 1] + 1
  }

  function UserIds(t: seq<User>): (ids: seq<int>)
    ensures |ids| == |t| && forall i :: 0 <= i < |t| ==> ids[i] == t[i].id
  {
    seq(|t|, i requires 0 <= i < |t| => t[i].id)
  }

  function LessonIds(t: seq<Lesson>): (ids: seq<int>)
    ensures |ids| == |t| && forall i :: 0 <= i < |t| ==> ids[i] == t[i].id
  {
    seq(|t|, i requires 0 <= i < |t| => t[i].id)
  }

  function QuizIds(t: seq<Quiz>): (ids: seq<int>)
    ensures |ids| == |t| && forall i :: 0 <= i < |t| ==> ids[i] == t[i].id
  {
    seq(|t|, i requires 0 <= i < |t| => t[i].id)
  }

  function SubmissionIds(t: seq<QuizSubmission>): (ids: seq<int>)
    ensures |ids| == |t| && forall i :: 0 <= i < |t| ==> ids[i] == t[i].id
  {
    seq(|t|, i requires 0 <= i < |t| => t[i].id)
  }

  function ProgressIds(t: seq<Progress>): (ids: seq<int>)
    ensures |ids| == |t| && forall i :: 0 <= i < |t| ==> ids[i] == t[i].id
  {
    seq(|t|, i requires 0 <= i < |t| => t[i].id)
  }

  function HintIds(t: seq<Hint>): (ids: seq<int>)
    ensures |ids| == |t| && forall i :: 0 <= i < |t| ==> ids[i] == t[i].id
  {
    seq(|t|, i requires 0 <= i < |t| => t[i].id)
  }

  function SessionIds(t: seq<UserSession>): (ids: seq<int>)
    ensures |ids| == |t| && forall i :: 0 <= i < |t| ==> ids[i] == t[i].id
  {
    seq(|t|, i requires 0 <= i < |t| => t[i].id)
  }
}
