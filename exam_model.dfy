/**
 * The exam document (src/models/exam.model.js): its status machine, the auto-submit
 * timer handle, completion, scoring and the video-URL check.
 */
module ExamModel {
  import opened Wrappers
  import opened Text
  import UserModel
  import QuestionModel

  type UserId = UserModel.UserId
  type QuestionId = QuestionModel.QuestionId

  /** The `status` enum; a new exam is `InProgress`. */
  datatype Status = InProgress | Completed | Terminated

  /** One element of `answers`: what was submitted for a question and whether it was right. */
  datatype Answer = Answer(
    question: QuestionId,
    section: string,
    questionNumber: int,
    answer: Option<string>,
    code: Option<string>,
    isCorrect: bool)

  /** An opaque handle of an armed timer (what `setTimeout` returned). */
  type TimerHandle = nat

  const MillisPerMinute: int := 60 * 1000

  // ---------------------------------------------------------------------------
  // The video URL pattern  ^(https?:\/\/)?([a-z0-9]+\.)+[a-z0-9]{2,4}\/[^\s]*$
  // ---------------------------------------------------------------------------

  predicate IsHostChar(c: char) {
    'a' <= c <= 'z' || '0' <= c <= '9'
  }

  predicate AllHostChars(s: string) {
    forall i :: 0 <= i < |s| ==> IsHostChar(s[i])
  }

  /** `([a-z0-9]+\.)+`, read as a grammar: a label, a dot, and optionally more of the same. */
  ghost predicate LabelsPattern(d: string)
    decreases |d|
  {
    exists m :: 0 < m < |d| && d[m] == '.' && AllHostChars(d[..m])
                && (m + 1 == |d| || LabelsPattern(d[m + 1..]))
  }

  /** `([a-z0-9]+\.)+[a-z0-9]{2,4}`: dotted labels, then a final label of 2 to 4 characters. */
  ghost predicate HostPattern(h: string) {
    exists k :: 0 < k < |h| && LabelsPattern(h[..k]) && 2 <= |h| - k <= 4 && AllHostChars(h[k..])
  }

  /** What follows the optional scheme: host, `/`, then any non-space characters. */
  ghost predicate PathPattern(r: string) {
    exists j :: 0 <= j < |r| && HostPattern(r[..j]) && r[j] == '/' && NoSpace(r[j + 1..])
  }

  ghost predicate SchemePattern(p: string) {
    p == [] || p == "http://" || p == "https://"
  }

  /** The whole pattern: some split of `s` into an optional scheme and a matching rest. */
  ghost predicate VideoUrlPattern(s: string) {
    exists i :: 0 <= i <= |s| && SchemePattern(s[..i]) && PathPattern(s[i..])
  }

  /** Deterministic scan for the labels: each label ends at the next dot. */
  predicate Labels(d: string)
    decreases |d|
  {
    match IndexOfChar(d, '.')
    case None => false
    case Some(m) => 0 < m && AllHostChars(d[..m]) && (m + 1 == |d| || Labels(d[m + 1..]))
  }

  /** The host ends at its last dot, which must follow the labels and precede a 2-4 character label. */
  predicate HostOk(h: string) {
    match LastIndexOfChar(h, '.')
    case None => false
    case Some(p) => Labels(h[..p + 1]) && 2 <= |h| - (p + 1) <= 4 && AllHostChars(h[p + 1..])
  }

  /** The host runs up to the first `/`; the rest holds no white space. */
  predicate PathOk(r: string) {
    match IndexOfChar(r, '/')
    case None => false
    case Some(j) => HostOk(r[..j]) && NoSpace(r[j + 1..])
  }

  /** `videoUrlPattern.test(s)`, trying each of the three possible scheme prefixes. */
  predicate MatchesVideoUrl(s: string) {
    PathOk(s)
    || (StartsWith(s, "http://") && PathOk(s[7..]))
    || (StartsWith(s, "https://") && PathOk(s[8..]))
  }

  lemma {:induction false} LabelsShape(d: string)
    requires LabelsPattern(d)
    ensures |d| >= 2 && d[|d| - 1] == '.'
    ensures forall i :: 0 <= i < |d| ==> IsHostChar(d[i]) || d[i] == '.'
    decreases |d|
  {
    var m :| 0 < m < |d| && d[m] == '.' && AllHostChars(d[..m])
             && (m + 1 == |d| || LabelsPattern(d[m + 1..]));
    if m + 1 < |d| {
      var rest := d[m + 1..];
      LabelsShape(rest);
      forall i | 0 <= i < |d| ensures IsHostChar(d[i]) || d[i] == '.' {
        if i > m { assert d[i] == rest[i - m - 1]; }
        else if i < m { assert d[i] == d[..m][i]; }
      }
    } else {
      forall i | 0 <= i < |d| ensures IsHostChar(d[i]) || d[i] == '.' {
        if i < m { assert d[i] == d[..m][i]; }
      }
    }
  }

  /** Inside a run of host characters there is no dot. */
  lemma NoDotBefore(d: string, m: int)
    requires 0 <= m <= |d| && AllHostChars(d[..m])
    ensures forall i :: 0 <= i < m ==> d[i] != '.'
  {
    forall i | 0 <= i < m ensures d[i] != '.' {
      assert d[i] == d[..m][i];
    }
  }

  lemma {:induction false} LabelsToPattern(d: string)
    requires Labels(d)
    ensures LabelsPattern(d)
    decreases |d|
  {
    var m := IndexOfChar(d, '.').value;
    if m + 1 < |d| { LabelsToPattern(d[m + 1..]); }
    assert 0 < m < |d| && d[m] == '.' && AllHostChars(d[..m])
           && (m + 1 == |d| || LabelsPattern(d[m + 1..]));
  }

  lemma {:induction false} PatternToLabels(d: string)
    requires LabelsPattern(d)
    ensures Labels(d)
    decreases |d|
  {
    var m' :| 0 < m' < |d| && d[m'] == '.' && AllHostChars(d[..m'])
              && (m' + 1 == |d| || LabelsPattern(d[m' + 1..]));
    NoDotBefore(d, m');
    var f := IndexOfChar(d, '.');
    assert d[m'] == '.';
    assert f.Some? && f.value <= m';
    var m := f.value;
    assert m == m';
    if m + 1 < |d| { PatternToLabels(d[m + 1..]); }
    assert 0 < m && AllHostChars(d[..m]) && (m + 1 == |d| || Labels(d[m + 1..]));
  }

  lemma LabelsIff(d: string)
    ensures Labels(d) <==> LabelsPattern(d)
  {
    if Labels(d) { LabelsToPattern(d); }
    if LabelsPattern(d) { PatternToLabels(d); }
  }

  lemma HostOkToPattern(h: string)
    requires HostOk(h)
    ensures HostPattern(h)
  {
    var p := LastIndexOfChar(h, '.').value;
    LabelsIff(h[..p + 1]);
    assert 0 < p + 1 < |h| && LabelsPattern(h[..p + 1]) && 2 <= |h| - (p + 1) <= 4 && AllHostChars(h[p + 1..]);
  }

  lemma PatternToHostOk(h: string)
    requires HostPattern(h)
    ensures HostOk(h)
  {
    var k :| 0 < k < |h| && LabelsPattern(h[..k]) && 2 <= |h| - k <= 4 && AllHostChars(h[k..]);
    LabelsShape(h[..k]);
    assert h[k - 1] == '.' by { assert h[k - 1] == h[..k][k - 1]; }
    forall i | k <= i < |h| ensures h[i] != '.' {
      assert h[i] == h[k..][i - k];
    }
    LastDotAt(h, k - 1);
    PatternToLabels(h[..k]);
    var p := k - 1;
    assert h[..p + 1] == h[..k] && h[p + 1..] == h[k..];
    assert Labels(h[..p + 1]) && 2 <= |h| - (p + 1) <= 4 && AllHostChars(h[p + 1..]);
  }

  /** A dot with no dot after it is the last dot. */
  lemma LastDotAt(h: string, p: nat)
    requires p < |h| && h[p] == '.'
    requires forall i :: p < i < |h| ==> h[i] != '.'
    ensures LastIndexOfChar(h, '.') == Some(p)
  {
    var f := LastIndexOfChar(h, '.');
    assert f.Some? && f.value >= p;
  }

  lemma HostIff(h: string)
    ensures HostOk(h) <==> HostPattern(h)
  {
    if HostOk(h) { HostOkToPattern(h); }
    if HostPattern(h) { PatternToHostOk(h); }
  }

  /** A matching host holds no `/`, so the host always ends at the first `/`. */
  lemma HostHasNoSlash(h: string)
    requires HostPattern(h)
    ensures forall i :: 0 <= i < |h| ==> h[i] != '/'
  {
    var k :| 0 < k < |h| && LabelsPattern(h[..k]) && 2 <= |h| - k <= 4 && AllHostChars(h[k..]);
    LabelsShape(h[..k]);
    forall i | 0 <= i < |h| ensures h[i] != '/' {
      if i < k { assert h[i] == h[..k][i]; } else { assert h[i] == h[k..][i - k]; }
    }
  }

  lemma PathIff(r: string)
    ensures PathOk(r) <==> PathPattern(r)
  {
    if PathOk(r) {
      var j := IndexOfChar(r, '/').value;
      HostIff(r[..j]);
    }
    if PathPattern(r) {
      var j' :| 0 <= j' < |r| && HostPattern(r[..j']) && r[j'] == '/' && NoSpace(r[j' + 1..]);
      HostHasNoSlash(r[..j']);
      forall i | 0 <= i < j' ensures r[i] != '/' {
        assert r[i] == r[..j'][i];
      }
      var j := IndexOfChar(r, '/').value;
      assert j == j';
      HostIff(r[..j]);
    }
  }

  /** The hand-written matcher accepts exactly the strings the regular expression accepts. */
  lemma MatchesVideoUrlIff(s: string)
    ensures MatchesVideoUrl(s) <==> VideoUrlPattern(s)
  {
    if MatchesVideoUrl(s) {
      if PathOk(s) {
        PathIff(s);
        assert s[..0] == [] && s[0..] == s;
      } else if StartsWith(s, "http://") && PathOk(s[7..]) {
        PathIff(s[7..]);
        assert SchemePattern(s[..7]);
      } else {
        PathIff(s[8..]);
        assert SchemePattern(s[..8]);
      }
    }
    if VideoUrlPattern(s) {
      var i :| 0 <= i <= |s| && SchemePattern(s[..i]) && PathPattern(s[i..]);
      PathIff(s[i..]);
      if s[..i] == [] {
        assert i == 0 && s[i..] == s;
      } else if s[..i] == "http://" {
        assert i == 7 && StartsWith(s, "http://");
      } else {
        assert i == 8 && StartsWith(s, "https://");
      }
    }
  }

  /** Where the upload middleware writes files: the stored `req.file.path` starts with it. */
  const UploadDir: string := "uploads/"

  predicate IsUploadPath(r: string) {
    StartsWith(r, UploadDir) && |r| > |UploadDir|
  }

  /**
   * What `videoRecording` may hold in this model: a URL matching the pattern, or a path
   * of a stored upload (the correction described in README, Findings).
   */
  predicate IsVideoReference(r: string) {
    MatchesVideoUrl(r) || IsUploadPath(r)
  }

  // ---------------------------------------------------------------------------
  // Score
  // ---------------------------------------------------------------------------

  /** `answers.filter(a => a.isCorrect).length` */
  function CorrectCount(answers: seq<Answer>): (c: nat)
    ensures c <= |answers|
  {
    if answers == [] then 0
    else (if answers[0].isCorrect then 1 else 0) + CorrectCount(answers[1..])
  }

  lemma {:induction false} CorrectCountAll(answers: seq<Answer>)
    ensures CorrectCount(answers) == |answers| <==> forall i :: 0 <= i < |answers| ==> answers[i].isCorrect
  {
    if answers != [] {
      CorrectCountAll(answers[1..]);
      assert forall i :: 1 <= i < |answers| ==> answers[i] == answers[1..][i - 1];
    }
  }

  lemma {:induction false} CorrectCountNone(answers: seq<Answer>)
    ensures CorrectCount(answers) == 0 <==> forall i :: 0 <= i < |answers| ==> !answers[i].isCorrect
  {
    if answers != [] {
      CorrectCountNone(answers[1..]);
      assert forall i :: 1 <= i < |answers| ==> answers[i] == answers[1..][i - 1];
    }
  }

  /** The percentage of correct answers, computed exactly. */
  function PercentScore(answers: seq<Answer>): real
    requires |answers| > 0
  {
    (CorrectCount(answers) as real) / (|answers| as real) * 100.0
  }

  /** A score lies between 0 and 100; it is 100 iff every answer is right and 0 iff none is. */
  lemma PercentScoreRange(answers: seq<Answer>)
    requires |answers| > 0
    ensures 0.0 <= PercentScore(answers) <= 100.0
    ensures PercentScore(answers) == 100.0 <==> forall i :: 0 <= i < |answers| ==> answers[i].isCorrect
    ensures PercentScore(answers) == 0.0 <==> forall i :: 0 <= i < |answers| ==> !answers[i].isCorrect
  {
    var c, n := CorrectCount(answers), |answers|;
    RatioBounds(c as real, n as real);
    CorrectCountAll(answers);
    CorrectCountNone(answers);
  }

  /** A ratio of a part to a positive whole lies in [0, 1], reaching 1 only for the whole and 0 only for nothing. */
  lemma RatioBounds(c: real, n: real)
    requires 0.0 <= c <= n && n > 0.0
    ensures 0.0 <= c / n <= 1.0
    ensures c / n == 1.0 <==> c == n
    ensures c / n == 0.0 <==> c == 0.0
  {
    var q := c / n;
    assert q * n == c;
    assert (1.0 - q) * n == n - c;
  }

  // ---------------------------------------------------------------------------
  // The exam document
  // ---------------------------------------------------------------------------

  datatype ScheduleOutcome = CompletedNow | Armed | AlreadyArmed

  class Exam {
    const user: UserId
    const allowedUsers: seq<UserId>
    var startTime: int        // milliseconds since the epoch
    var duration: int         // minutes
    var endTime: Option<int>
    var autoSubmitTimerId: Option<TimerHandle>
    var answers: seq<Answer>
    var videoRecording: Option<string>
    var status: Status
    var score: real

    /** The score is a percentage, a completed exam has an end time, a stored video reference is well formed. */
    ghost predicate Valid()
      reads this
    {
      && 0.0 <= score <= 100.0
      && (status == Completed ==> endTime.Some?)
      && (videoRecording.Some? ==> IsVideoReference(videoRecording.value))
    }

    /** `Exam.create(...)` with the schema defaults. */
    constructor (user: UserId, startTime: int, duration: int, allowedUsers: seq<UserId>)
      ensures Valid()
      ensures this.user == user && this.startTime == startTime && this.duration == duration
      ensures this.allowedUsers == allowedUsers
      ensures status == InProgress && score == 0.0 && answers == []
      ensures endTime == None && autoSubmitTimerId == None && videoRecording == None
    {
      this.user := user;
      this.allowedUsers := allowedUsers;
      this.startTime := startTime;
      this.duration := duration;
      endTime := None;
      autoSubmitTimerId := None;
      answers := [];
      videoRecording := None;
      status := InProgress;
      score := 0.0;
    }

    /** The moment the allotted time runs out. */
    function Deadline(): int
      reads this
    {
      startTime + duration * MillisPerMinute
    }

    /**
     * The state `completeExam` leaves behind when it acts: completed at `now`, no timer,
     * the score recomputed from the kept answers, and every other field kept.
     */
    twostate predicate CompletedAt(now: int)
      reads this
    {
      && status == Completed
      && endTime == Some(now)
      && autoSubmitTimerId == None
      && answers == old(answers)
      && videoRecording == old(videoRecording)
      && startTime == old(startTime) && duration == old(duration)
      && score == (if answers == [] then old(score) else PercentScore(answers))
    }

    /** `calculateScore`: with no answers the score stays; otherwise it is the percentage correct. */
    method CalculateScore()
      requires Valid()
      modifies this`score
      ensures Valid()
      ensures answers == [] ==> score == old(score)
      ensures answers != [] ==> score == PercentScore(answers)
    {
      if |answers| == 0 {
        return;
      }
      PercentScoreRange(answers);
      score := PercentScore(answers);
    }

    /** `completeExam`: a no-op unless in progress; else drop the timer, complete, stamp and score. */
    method CompleteExam(now: int)
      requires Valid()
      modifies this
      ensures Valid()
      ensures old(status) != InProgress ==> unchanged(this)
      ensures old(status) == InProgress ==> CompletedAt(now)
    {
      if status != InProgress {
        return;
      }
      if autoSubmitTimerId.Some? {
        autoSubmitTimerId := None;
      }
      status := Completed;
      endTime := Some(now);
      CalculateScore();
    }

    /** `submitVideo`: stores a non-empty URL that matches the pattern; otherwise fails and keeps the old one. */
    method SubmitVideo(url: string) returns (ok: bool)
      requires Valid()
      modifies this`videoRecording
      ensures Valid()
      ensures ok <==> url != [] && MatchesVideoUrl(url)
      ensures videoRecording == if ok then Some(url) else old(videoRecording)
    {
      if url != [] && MatchesVideoUrl(url) {
        videoRecording := Some(url);
        ok := true;
      } else {
        ok := false;
      }
    }

    /**
     * `scheduleAutoSubmit` at clock reading `now`: completes at once when the deadline has
     * passed; otherwise arms a timer (recording `handle`) only if none is recorded.
     */
    method ScheduleAutoSubmit(now: int, handle: TimerHandle) returns (outcome: ScheduleOutcome)
      requires Valid()
      modifies this
      ensures Valid()
      ensures outcome == CompletedNow <==> now >= old(Deadline())
      ensures outcome == CompletedNow ==>
                if old(status) == InProgress then CompletedAt(now) else unchanged(this)
      ensures outcome == Armed <==> now < old(Deadline()) && old(autoSubmitTimerId) == None
      ensures outcome == Armed ==>
                autoSubmitTimerId == Some(handle) && status == old(status) && endTime == old(endTime)
                && answers == old(answers) && score == old(score) && videoRecording == old(videoRecording)
                && startTime == old(startTime) && duration == old(duration)
      ensures outcome == AlreadyArmed ==> unchanged(this)
      ensures startTime == old(startTime) && duration == old(duration) && answers == old(answers)
    {
      var timeLeft := Deadline() - now;
      if timeLeft <= 0 {
        CompleteExam(now);
        return CompletedNow;
      }
      if autoSubmitTimerId == None {
        autoSubmitTimerId := Some(handle);
        return Armed;
      }
      return AlreadyArmed;
    }
  }

  /**
   * The armed timer's callback: reload the exam and complete it only if it still exists
   * and is in progress.
   */
  method AutoSubmitCallback(exam: Exam?, now: int)
    requires exam != null ==> exam.Valid()
    modifies exam
    ensures exam != null ==> exam.Valid()
    ensures exam != null && old(exam.status) != InProgress ==> unchanged(exam)
    ensures exam != null && old(exam.status) == InProgress ==> exam.CompletedAt(now)
  {
    if exam != null && exam.status == InProgress {
      exam.CompleteExam(now);
    }
  }

  /** Completing twice has the effect of completing once. */
  method CompleteTwice(exam: Exam, now: int, later: int)
    requires exam.Valid() && exam.status == InProgress
    modifies exam
    ensures exam.status == Completed && exam.endTime == Some(now)
  {
    exam.CompleteExam(now);
    exam.CompleteExam(later);
  }
}
