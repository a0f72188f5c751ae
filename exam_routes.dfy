/**
 * src/routes/exam.routes.js: starting an exam, submitting answers and recordings, ending it,
 * the upload filter and the text comparison that grades coding answers.
 * The exam lookup by id is done by the caller: a handler receives the exam or `null`.
 */
module ExamRoutes {
  import opened Wrappers
  import opened Text
  import opened ExamModel
  import QuestionModel
  import QuestionRoutes

  type Question = QuestionModel.Question
  type TestCase = QuestionModel.TestCase

  // ---------------------------------------------------------------------------
  // Upload filter and stored path
  // ---------------------------------------------------------------------------

  const VideoMimePrefix: string := "video/"

  /** The upload's `fileFilter`: only video mimetypes get through. */
  predicate FileFilter(mimetype: string) {
    StartsWith(mimetype, VideoMimePrefix)
  }

  lemma FileFilterIff(mimetype: string)
    ensures FileFilter(mimetype) <==> exists rest :: mimetype == VideoMimePrefix + rest
  {
    if FileFilter(mimetype) {
      assert mimetype == VideoMimePrefix + mimetype[|VideoMimePrefix|..];
    }
    forall rest | mimetype == VideoMimePrefix + rest
      ensures FileFilter(mimetype)
    {
      assert mimetype[..|VideoMimePrefix|] == VideoMimePrefix;
    }
  }

  /** The uploaded file as the handler sees it. */
  datatype Upload = Upload(mimetype: string, originalName: string)

  /** `req.file.path`: the upload directory, then `Date.now() + "-" + originalname`. */
  function StoredPath(stamp: nat, originalName: string): string {
    UploadDir + NatToString(stamp) + "-" + originalName
  }

  /** No stored upload path matches the video URL pattern: its host part `uploads` has no dot. */
  lemma UploadPathNeverMatches(stamp: nat, originalName: string)
    ensures !MatchesVideoUrl(StoredPath(stamp, originalName))
  {
    var p := StoredPath(stamp, originalName);
    assert p[..8] == "uploads/";
    assert p[..7] != "http://" && p[..8] != "https://";
    var host := p[..7];
    assert IndexOfChar(p, '/') == Some(7) by {
      assert forall j :: 0 <= j < 7 ==> p[j] != '/';
      assert p[7] == '/';
    }
    assert host == "uploads";
    assert forall j :: 0 <= j < |host| ==> host[j] != '.';
    assert LastIndexOfChar(host, '.').None?;
  }

  /** Every stored upload path is a video reference the corrected schema accepts. */
  lemma UploadPathIsReference(stamp: nat, originalName: string)
    ensures IsVideoReference(StoredPath(stamp, originalName))
  {
    var p := StoredPath(stamp, originalName);
    assert p[..|UploadDir|] == UploadDir;
  }

  // ---------------------------------------------------------------------------
  // Guard chain and question lookup
  // ---------------------------------------------------------------------------

  /** Owner check (403), then status check (400); `None` lets the handler go on. */
  function Guard(exam: Exam?, caller: UserId): (r: Option<int>)
    reads exam
    ensures r.None? <==> exam != null && exam.user == caller && exam.status == InProgress
    ensures r == Some(403) <==> exam == null || exam.user != caller
    ensures r.Some? ==> r == Some(403) || r == Some(400)
  {
    if exam == null || exam.user != caller then Some(403)
    else if exam.status != InProgress then Some(400)
    else None
  }

  datatype Lookup = SkipError | NotFound | Found(question: Question)

  /**
   * `findOne({ section }).sort({ createdAt: 1 }).skip(questionNumber - 1)`: a negative skip is a
   * query error; otherwise the `questionNumber`-th question of the section, if there is one.
   */
  function QuestionAt(qs: seq<Question>, section: string, questionNumber: int): (r: Lookup)
    ensures r == SkipError <==> questionNumber < 1
    ensures r == NotFound <==> questionNumber >= 1 && |QuestionRoutes.OfSection(qs, section)| < questionNumber
    ensures r.Found? ==> r.question in qs && r.question.section == section
  {
    var matching := QuestionRoutes.OfSection(qs, section);
    if questionNumber < 1 then SkipError
    else if questionNumber - 1 < |matching| then
      QuestionRoutes.OfSectionMembers(qs, section);
      assert matching[questionNumber - 1] in matching;
      Found(matching[questionNumber - 1])
    else NotFound
  }

  /** A found question is the catalog entry preceded by exactly `questionNumber - 1` questions of its section. */
  lemma QuestionAtPosition(qs: seq<Question>, section: string, questionNumber: int)
    requires QuestionAt(qs, section, questionNumber).Found?
    ensures exists j :: 0 <= j < |qs| && qs[j] == QuestionAt(qs, section, questionNumber).question
                        && |QuestionRoutes.OfSection(qs[..j], section)| == questionNumber - 1
  {
    var j := QuestionRoutes.OfSectionPosition(qs, section, questionNumber - 1);
    assert qs[j] == QuestionAt(qs, section, questionNumber).question;
  }

  // ---------------------------------------------------------------------------
  // Grading
  // ---------------------------------------------------------------------------

  /**
   * `evaluateCode`: `testCases.every(t => code.trim() === t.output.trim())`. The submitted code is
   * compared as text; `None` is the error of trimming a missing code, raised only if a test case is visited.
   */
  function EvaluateCode(code: Option<string>, testCases: seq<TestCase>): (r: Option<bool>)
    ensures r.None? <==> code.None? && testCases != []
    ensures testCases == [] ==> r == Some(true)
    ensures code.Some? ==>
              r == Some(forall i :: 0 <= i < |testCases| ==> Trim(testCases[i].output) == Trim(code.value))
  {
    if testCases == [] then Some(true)
    else if code.None? then None
    else if Trim(code.value) == Trim(testCases[0].output) then
      assert forall i :: 1 <= i < |testCases| ==> testCases[i] == testCases[1..][i - 1];
      EvaluateCode(code, testCases[1..])
    else Some(false)
  }

  /** Two test cases with different expected outputs can never both be met: such a question is never passed. */
  lemma DifferentOutputsNeverPass(code: Option<string>, testCases: seq<TestCase>, i: nat, j: nat)
    requires i < |testCases| && j < |testCases|
    requires Trim(testCases[i].output) != Trim(testCases[j].output)
    ensures EvaluateCode(code, testCases) != Some(true)
  {
    if code.Some? {
      var c := Trim(code.value);
      assert Trim(testCases[i].output) != c || Trim(testCases[j].output) != c;
    }
  }

  /** Hiding test cases does not change the verdict: only the outputs are looked at. */
  lemma EvaluateIgnoresHiding(code: Option<string>, section: string, testCases: seq<TestCase>)
    ensures EvaluateCode(code, QuestionModel.HideBeyondTwo(section, testCases)) == EvaluateCode(code, testCases)
  {
    var h := QuestionModel.HideBeyondTwo(section, testCases);
    if code.Some? {
      assert forall i :: 0 <= i < |h| ==> h[i].output == testCases[i].output;
    }
  }

  /** Coding questions are graded by `evaluateCode`, the others by strict equality with the stored answer. */
  function Grade(q: Question, answer: Option<string>, code: Option<string>): (r: Option<bool>)
    ensures q.section == QuestionModel.Coding ==> r == EvaluateCode(code, q.testCases)
    ensures q.section != QuestionModel.Coding ==> r.Some?
  {
    if q.section == QuestionModel.Coding then EvaluateCode(code, q.testCases)
    else Some(answer == q.answer)
  }

  /**
   * On a stored question: a choice answer is right iff it is exactly the stored answer (a missing
   * one never is); a coding answer fails with an error iff the code is missing, and is right iff it
   * equals every trimmed expected output.
   */
  lemma GradeStored(q: Question, answer: Option<string>, code: Option<string>)
    requires QuestionModel.ValidQuestion(q)
    ensures QuestionModel.IsChoiceSection(q.section) ==>
              (Grade(q, answer, code) == Some(true) <==> answer.Some? && answer.value == q.answer.value)
    ensures QuestionModel.IsChoiceSection(q.section) ==> Grade(q, None, code) == Some(false)
    ensures q.section == QuestionModel.Coding ==> (Grade(q, answer, code).None? <==> code.None?)
    ensures q.section == QuestionModel.Coding && code.Some? ==>
              (Grade(q, answer, code) == Some(true) <==>
                 forall i :: 0 <= i < |q.testCases| ==> Trim(q.testCases[i].output) == Trim(code.value))
  {
    QuestionModel.ValidShape(q);
  }

  // ---------------------------------------------------------------------------
  // Handlers
  // ---------------------------------------------------------------------------

  /**
   * `POST /start`: a missing or non-positive duration is refused; otherwise an in-progress exam
   * owned by the caller starts at `now` and auto-submit is scheduled at clock reading `scheduledAt`.
   */
  method Start(caller: UserId, duration: Option<int>, allowedUsers: seq<UserId>, now: int, scheduledAt: int,
               handle: TimerHandle) returns (status: int, exam: Exam?)
    ensures duration.None? || duration.value <= 0 ==> status == 400 && exam == null
    ensures duration.Some? && duration.value > 0 ==>
              && status == 201 && exam != null && fresh(exam) && exam.Valid()
              && exam.user == caller && exam.allowedUsers == allowedUsers
              && exam.startTime == now && exam.duration == duration.value && exam.answers == []
              && exam.score == 0.0 && exam.videoRecording == None
              && (scheduledAt < now + duration.value * MillisPerMinute ==>
                    && exam.status == InProgress && exam.endTime == None
                    && exam.autoSubmitTimerId == Some(handle))
              && (scheduledAt >= now + duration.value * MillisPerMinute ==>
                    && exam.status == Completed && exam.endTime == Some(scheduledAt)
                    && exam.autoSubmitTimerId == None)
  {
    if duration.None? || duration.value <= 0 {
      return 400, null;
    }
    exam := new Exam(caller, now, duration.value, allowedUsers);
    var _ := exam.ScheduleAutoSubmit(scheduledAt, handle);
    status := 201;
  }

  /** Every field of the exam is as it was, except possibly its answers or its video reference. */
  twostate predicate KeepsAllBut(exam: Exam, answers: bool, video: bool)
    reads exam
  {
    && exam.startTime == old(exam.startTime) && exam.duration == old(exam.duration)
    && exam.endTime == old(exam.endTime) && exam.autoSubmitTimerId == old(exam.autoSubmitTimerId)
    && exam.status == old(exam.status) && exam.score == old(exam.score)
    && (answers || exam.answers == old(exam.answers))
    && (video || exam.videoRecording == old(exam.videoRecording))
  }

  /** `POST /:examId/answer`: guards, question lookup, grading, then exactly one record is appended. */
  method SubmitAnswer(exam: Exam?, caller: UserId, questions: seq<Question>, section: string, questionNumber: int,
                      answer: Option<string>, code: Option<string>) returns (status: int, isCorrect: Option<bool>)
    requires exam != null ==> exam.Valid()
    modifies exam
    ensures exam != null ==> exam.Valid()
    ensures exam != null ==> KeepsAllBut(exam, true, false)
    ensures old(Guard(exam, caller)).Some? ==> status == old(Guard(exam, caller)).value
    ensures old(Guard(exam, caller)).None? ==>
              var found := QuestionAt(questions, section, questionNumber);
              && (found == SkipError ==> status == 500)
              && (found == NotFound ==> status == 404)
              && (found.Found? ==>
                    var g := Grade(found.question, answer, code);
                    && (g.None? || section == [] ==> status == 500)
                    && (g.Some? && section != [] ==>
                          && status == 200 && isCorrect == g
                          && exam.answers == old(exam.answers)
                                             + [Answer(found.question.id, section, questionNumber, answer, code, g.value)]))
    ensures status != 200 ==> isCorrect.None? && (exam == null || exam.answers == old(exam.answers))
  {
    var guard := Guard(exam, caller);
    if guard.Some? {
      return guard.value, None;
    }
    var found := QuestionAt(questions, section, questionNumber);
    if found == SkipError {
      return 500, None;
    }
    if found == NotFound {
      return 404, None;
    }
    var q := found.question;
    var g := Grade(q, answer, code);
    if g.None? {
      return 500, None;
    }
    if section == [] {
      // the answer record's `section` is required, so the save fails
      return 500, None;
    }
    exam.answers := exam.answers + [Answer(q.id, section, questionNumber, answer, code, g.value)];
    return 200, g;
  }

  /** Submitting twice appends two records: resubmissions are kept, not replaced. */
  method SubmitTwice(exam: Exam, caller: UserId, questions: seq<Question>, section: string, questionNumber: int,
                     answer: Option<string>, code: Option<string>)
    requires exam.Valid() && Guard(exam, caller).None?
    requires QuestionAt(questions, section, questionNumber).Found? && section != []
    requires Grade(QuestionAt(questions, section, questionNumber).question, answer, code).Some?
    modifies exam
    ensures |exam.answers| == |old(exam.answers)| + 2
    ensures exam.answers[|exam.answers| - 1] == exam.answers[|exam.answers| - 2]
  {
    var s1, _ := SubmitAnswer(exam, caller, questions, section, questionNumber, answer, code);
    var s2, _ := SubmitAnswer(exam, caller, questions, section, questionNumber, answer, code);
  }

  /**
   * `POST /:examId/recording` as written: the upload filter (500 for a non-video), the guards, a
   * missing file (500), then the schema's pattern check on the stored path (500 when it fails).
   */
  method RecordingAsWritten(exam: Exam?, caller: UserId, file: Option<Upload>, stamp: nat) returns (status: int)
    requires exam != null ==> exam.Valid()
    modifies exam
    ensures exam != null ==> exam.Valid()
    ensures exam != null ==> KeepsAllBut(exam, false, true)
    ensures file.Some? && !FileFilter(file.value.mimetype) ==> status == 500
    ensures status == 200 <==>
              && old(Guard(exam, caller)).None? && file.Some? && FileFilter(file.value.mimetype)
              && MatchesVideoUrl(StoredPath(stamp, file.value.originalName))
    ensures status == 200 ==> exam.videoRecording == Some(StoredPath(stamp, file.value.originalName))
    ensures status != 200 ==> exam == null || exam.videoRecording == old(exam.videoRecording)
  {
    if file.Some? && !FileFilter(file.value.mimetype) {
      return 500;
    }
    var guard := Guard(exam, caller);
    if guard.Some? {
      return guard.value;
    }
    if file.None? {
      return 500;
    }
    var path := StoredPath(stamp, file.value.originalName);
    if !MatchesVideoUrl(path) {
      return 500;
    }
    exam.videoRecording := Some(path);
    return 200;
  }

  /**
   * `POST /:examId/recording` with the schema accepting stored upload paths: after the filter, the
   * guards and the file check, the exam records where the upload was written.
   */
  method SubmitRecording(exam: Exam?, caller: UserId, file: Option<Upload>, stamp: nat) returns (status: int)
    requires exam != null ==> exam.Valid()
    modifies exam
    ensures exam != null ==> exam.Valid()
    ensures exam != null ==> KeepsAllBut(exam, false, true)
    ensures file.Some? && !FileFilter(file.value.mimetype) ==> status == 500
    ensures (file.None? || FileFilter(file.value.mimetype)) && old(Guard(exam, caller)).Some? ==>
              status == old(Guard(exam, caller)).value
    ensures old(Guard(exam, caller)).None? && file.None? ==> status == 500
    ensures status == 200 <==> old(Guard(exam, caller)).None? && file.Some? && FileFilter(file.value.mimetype)
    ensures status == 200 ==> exam.videoRecording == Some(StoredPath(stamp, file.value.originalName))
    ensures status != 200 ==> exam == null || exam.videoRecording == old(exam.videoRecording)
  {
    if file.Some? && !FileFilter(file.value.mimetype) {
      return 500;
    }
    var guard := Guard(exam, caller);
    if guard.Some? {
      return guard.value;
    }
    if file.None? {
      return 500;
    }
    UploadPathIsReference(stamp, file.value.originalName);
    exam.videoRecording := Some(StoredPath(stamp, file.value.originalName));
    return 200;
  }

  /** `POST /:examId/end`: after the guards, the exam is completed and scored at `now`. */
  method End(exam: Exam?, caller: UserId, now: int) returns (status: int)
    requires exam != null ==> exam.Valid()
    modifies exam
    ensures exam != null ==> exam.Valid()
    ensures old(Guard(exam, caller)).Some? ==> status == old(Guard(exam, caller)).value
    ensures exam != null && old(Guard(exam, caller)).Some? ==> unchanged(exam)
    ensures old(Guard(exam, caller)).None? ==>
              && status == 200 && exam != null && exam.CompletedAt(now)
  {
    var guard := Guard(exam, caller);
    if guard.Some? {
      return guard.value;
    }
    exam.CompleteExam(now);
    return 200;
  }
}
