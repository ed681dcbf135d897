/** The admin handlers (`app/api/admin_endpoints.py`, and their copies behind
    both guards in `app/main.py`), each with the store call it makes. A
    handler checks its required fields (400), fills in the defaults of the
    absent ones, calls the store, and answers 500 when the store returns
    nothing. A request field is `None` when the JSON body lacks it. */
module AdminHandlers {
  import opened Common
  import opened Records
  import AppTables
  import opened Handlers

  const DefaultDifficulty: string := "beginner"

  /** `create_lesson_admin`: a missing or empty title is refused; otherwise
      description, difficulty, content and order default to "", "beginner",
      "" and 0 and the lesson is appended. */
  function CreateLessonAdmin(lessons: seq<Lesson>, title: Option<string>, description: Option<string>,
                             difficulty: Option<string>, content: Option<string>, orderIndex: Option<int>,
                             now: Time): (r: (Reply<Lesson>, seq<Lesson>))
    ensures r.0.Status() == 400 <==> !Truthy(title)
    ensures r.0.Status() == 400 ==> r.1 == lessons
    ensures r.0.Status() in {200, 400}
    ensures r.0.Success? ==>
      var l := r.0.body;
      r.1 == lessons + [l] && l.title == title.value && l.description == GetOr(description, "") &&
      l.difficulty == GetOr(difficulty, DefaultDifficulty) && l.content == GetOr(content, "") &&
      l.orderIndex == GetOr(orderIndex, 0) && l.createdAt == now
  {
    if !Truthy(title) then (Failure(400, "Title is required"), lessons)
    else
      var step := AppTables.CreateLessonStep(lessons, title.value, GetOr(description, ""),
                                             GetOr(difficulty, DefaultDifficulty), GetOr(content, ""),
                                             GetOr(orderIndex, 0), now);
      (Success(step.0), step.1)
  }

  /** `create_quiz_admin`: a missing title or an empty question list is
      refused; otherwise the total defaults to 100 and the quiz is appended
      to the lesson. */
  function CreateQuizAdmin(quizzes: seq<Quiz>, lessonId: int, title: Option<string>, questions: Option<seq<string>>,
                           totalPoints: Option<int>, now: Time): (r: (Reply<Quiz>, seq<Quiz>))
    ensures r.0.Status() == 400 <==> !Truthy(title) || !NonEmpty(questions)
    ensures r.0.Status() == 400 ==> r.1 == quizzes
    ensures r.0.Status() in {200, 400}
    ensures r.0.Success? ==>
      var q := r.0.body;
      r.1 == quizzes + [q] && q.lessonId == lessonId && q.title == title.value && q.questions == questions.value &&
      q.totalPoints == GetOr(totalPoints, DefaultTotalPoints) && q.createdAt == now
  {
    if !Truthy(title) || !NonEmpty(questions) then (Failure(400, "Title and questions are required"), quizzes)
    else
      var step := AppTables.CreateQuizStep(quizzes, lessonId, title.value, questions.value,
                                           GetOr(totalPoints, DefaultTotalPoints), now);
      (Success(step.0), step.1)
  }

  /** `create_hint_admin`: a missing or empty hint text is refused; otherwise
      the level defaults to 1 and the hint is appended. */
  function CreateHintAdmin(hints: seq<Hint>, lessonId: int, hintText: Option<string>, level: Option<int>,
                           now: Time): (r: (Reply<Hint>, seq<Hint>))
    ensures r.0.Status() == 400 <==> !Truthy(hintText)
    ensures r.0.Status() == 400 ==> r.1 == hints
    ensures r.0.Status() in {200, 400}
    ensures r.0.Success? ==>
      var h := r.0.body;
      r.1 == hints + [h] && h.lessonId == lessonId && h.hintText == hintText.value &&
      h.difficultyLevel == GetOr(level, DefaultHintLevel) && h.createdAt == now
  {
    if !Truthy(hintText) then (Failure(400, "Hint text is required"), hints)
    else
      var step := AppTables.CreateHintStep(hints, lessonId, hintText.value, GetOr(level, DefaultHintLevel), now);
      (Success(step.0), step.1)
  }

  /** `make_admin`: 500 for an id no user has, with nothing changed;
      otherwise that user is an admin. */
  function MakeAdmin(users: seq<User>, id: int): (r: (Reply<()>, seq<User>))
    ensures r.0.Status() == 500 <==> AppTables.GetUserById(users, id).None?
    ensures r.0.Status() in {200, 500}
    ensures r.0.Status() == 500 ==> r.1 == users
    ensures r.0.Success? ==>
      AppTables.FindUserById(users, id).Some? &&
      var i := AppTables.FindUserById(users, id).value;
      users[i].id == id && r.1 == users[i := users[i].(isAdmin := true)]
  {
    var step := AppTables.MakeAdminStep(users, id);
    if step.0.None? then (Failure(500, "Failed to promote user"), step.1) else (Success(()), step.1)
  }

  /** `update_lesson_admin`: 500 for an id no lesson has, with nothing
      changed; otherwise the found lesson gets the truthy fields (and an
      order that is present), keeps the rest, and no other lesson changes. */
  function UpdateLessonAdmin(lessons: seq<Lesson>, id: int, title: Option<string>, description: Option<string>,
                             difficulty: Option<string>, content: Option<string>, orderIndex: Option<int>): (r: (Reply<()>, seq<Lesson>))
    ensures r.0.Status() == 500 <==> AppTables.FindLessonById(lessons, id).None?
    ensures r.0.Status() in {200, 500}
    ensures r.0.Status() == 500 ==> r.1 == lessons
    ensures r.0.Success? ==>
      var i := AppTables.FindLessonById(lessons, id).value;
      |r.1| == |lessons| && (forall k :: 0 <= k < |lessons| && k != i ==> r.1[k] == lessons[k]) &&
      var l := r.1[i];
      l.id == id && l.createdAt == lessons[i].createdAt &&
      l.title == (if Truthy(title) then title.value else lessons[i].title) &&
      l.description == (if Truthy(description) then description.value else lessons[i].description) &&
      l.difficulty == (if Truthy(difficulty) then difficulty.value else lessons[i].difficulty) &&
      l.content == (if Truthy(content) then content.value else lessons[i].content) &&
      l.orderIndex == (if orderIndex.Some? then orderIndex.value else lessons[i].orderIndex)
  {
    var step := AppTables.UpdateLessonStep(lessons, id, title, description, difficulty, content, orderIndex);
    if step.0.None? then (Failure(500, "Failed to update lesson"), step.1) else (Success(()), step.1)
  }

  /** `delete_lesson_admin`: 500 for an id no lesson has, with nothing
      changed; otherwise that lesson is gone and the others remain, unchanged
      and in their order. */
  function DeleteLessonAdmin(lessons: seq<Lesson>, id: int): (r: (Reply<()>, seq<Lesson>))
    requires Increasing(LessonIds(lessons))
    ensures r.0.Status() == 500 <==> AppTables.FindLessonById(lessons, id).None?
    ensures r.0.Status() in {200, 500}
    ensures r.0.Status() == 500 ==> r.1 == lessons
    ensures r.0.Success? ==> |r.1| == |lessons| - 1 && forall k :: 0 <= k < |r.1| ==> r.1[k].id != id
    ensures r.0.Success? ==>
      var i := AppTables.FindLessonById(lessons, id).value;
      forall k :: 0 <= k < |r.1| ==> r.1[k] == if k < i then lessons[k] else lessons[k + 1]
  {
    var step := AppTables.DeleteLessonStep(lessons, id);
    if !step.0 then (Failure(500, "Failed to delete lesson"), step.1) else (Success(()), step.1)
  }
}
