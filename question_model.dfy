/**
 * src/models/question.model.js: the question document, its field validators, the derived
 * `questionId`, the pre-validate cleanup and the pre-save hook that hides test cases.
 *
 * Mongoose gives an array path the empty array when it is missing, and the validators treat
 * an undefined array and an empty one alike, so `options` and `testCases` are plain sequences
 * here and "removing" one of them makes it empty. `answer` keeps the difference between
 * undefined (`None`) and a string, because the coding validator rejects any string.
 */
module QuestionModel {
  import opened Wrappers
  import opened Text
  import UserModel

  type QuestionId = string
  type UserId = UserModel.UserId

  const Mcqs: string := "mcqs"
  const Aptitude: string := "aptitude"
  const Ai: string := "ai"
  const Coding: string := "coding"

  /** The section enum, in the order the `/user` listing walks it. */
  const Sections: seq<string> := [Mcqs, Aptitude, Ai, Coding]

  const Active: string := "active"
  const Inactive: string := "inactive"

  /** Sections whose questions are answered by picking one of four options. */
  predicate IsChoiceSection(s: string) {
    s == Mcqs || s == Aptitude || s == Ai
  }

  predicate IsSection(s: string) {
    IsChoiceSection(s) || s == Coding
  }

  predicate IsStatus(s: string) {
    s == Active || s == Inactive
  }

  datatype TestCase = TestCase(input: string, output: string, isHidden: bool)

  datatype Question = Question(
    id: QuestionId,               // the document's `_id`
    questionId: string,           // derived: section-questionNumber
    section: string,
    questionNumber: Option<int>,
    text: string,
    options: seq<string>,
    answer: Option<string>,
    testCases: seq<TestCase>,
    status: string,
    createdBy: UserId)

  // ---------------------------------------------------------------------------
  // Validators
  // ---------------------------------------------------------------------------

  /** Four options in a choice section, none elsewhere. */
  predicate OptionsValid(section: string, options: seq<string>) {
    if IsChoiceSection(section) then |options| == 4 else |options| == 0
  }

  /** A non-empty answer in a choice section; no answer at all elsewhere. */
  predicate AnswerValid(section: string, answer: Option<string>) {
    if IsChoiceSection(section) then answer.Some? && answer.value != [] else answer.None?
  }

  /** Both strings of a test case are required. */
  predicate TestCaseValid(t: TestCase) {
    t.input != [] && t.output != []
  }

  /** At least one test case in the coding section, none elsewhere. */
  predicate TestCasesValid(section: string, testCases: seq<TestCase>) {
    && (if section == Coding then |testCases| > 0 else |testCases| == 0)
    && forall i :: 0 <= i < |testCases| ==> TestCaseValid(testCases[i])
  }

  /** Every schema rule: required fields, the two enums and the three section-dependent validators. */
  predicate ValidQuestion(q: Question) {
    && q.questionId != []
    && IsSection(q.section)
    && q.questionNumber.Some?
    && q.text != []
    && OptionsValid(q.section, q.options)
    && AnswerValid(q.section, q.answer)
    && TestCasesValid(q.section, q.testCases)
    && IsStatus(q.status)
    && q.createdBy != []
  }

  /** A valid question is either a choice question or a coding question, never a mix of both. */
  lemma ValidShape(q: Question)
    requires ValidQuestion(q)
    ensures IsChoiceSection(q.section) <==> q.section != Coding
    ensures IsChoiceSection(q.section) ==>
              |q.options| == 4 && q.answer.Some? && q.answer.value != [] && q.testCases == []
    ensures q.section == Coding ==> q.options == [] && q.answer.None? && |q.testCases| > 0
  {
  }

  // ---------------------------------------------------------------------------
  // Hooks
  // ---------------------------------------------------------------------------

  /** The template string `${section}-${questionNumber}`; a missing number prints as `undefined`. */
  function QuestionIdFor(section: string, n: Option<int>): string {
    section + "-" + (match n case Some(k) => IntToString(k) case None => "undefined")
  }

  /** For questions in the section enum, equal derived ids mean equal (section, questionNumber) keys. */
  lemma QuestionIdInjective(s1: string, n1: int, s2: string, n2: int)
    requires IsSection(s1) && IsSection(s2)
    ensures QuestionIdFor(s1, Some(n1)) == QuestionIdFor(s2, Some(n2)) <==> s1 == s2 && n1 == n2
  {
    var a, b := QuestionIdFor(s1, Some(n1)), QuestionIdFor(s2, Some(n2));
    if a == b {
      assert a[0] == s1[0] && a[1] == s1[1];
      assert b[0] == s2[0] && b[1] == s2[1];
      assert s1 == s2;
      assert a[|s1| + 1..] == IntToString(n1);
      assert b[|s2| + 1..] == IntToString(n2);
      IntToStringInjective(n1, n2);
    }
  }

  /** The cleanup hook: drops the test cases of a choice question and the options of a coding one. */
  function Cleaned(q: Question): (r: Question)
    ensures IsChoiceSection(q.section) ==> r.testCases == [] && r.options == q.options
    ensures q.section == Coding ==> r.options == [] && r.testCases == q.testCases
    ensures !IsSection(q.section) ==> r == q
    ensures r.(options := q.options, testCases := q.testCases) == q
  {
    var q1 := if IsChoiceSection(q.section) then q.(testCases := []) else q;
    if q1.section == Coding then q1.(options := []) else q1
  }

  /** Re-marks visibility: with more than two test cases in a coding question only the first two stay visible. */
  function HideBeyondTwo(section: string, testCases: seq<TestCase>): (r: seq<TestCase>)
    ensures |r| == |testCases|
    ensures forall i :: 0 <= i < |r| ==> r[i].input == testCases[i].input && r[i].output == testCases[i].output
    ensures section == Coding && |testCases| > 2 ==> forall i :: 0 <= i < |r| ==> (r[i].isHidden <==> i >= 2)
    ensures !(section == Coding && |testCases| > 2) ==> r == testCases
  {
    if section == Coding && |testCases| > 2
    then seq(|testCases|, i requires 0 <= i < |testCases| => testCases[i].(isHidden := i >= 2))
    else testCases
  }

  lemma HideBeyondTwoIdempotent(section: string, testCases: seq<TestCase>)
    ensures HideBeyondTwo(section, HideBeyondTwo(section, testCases)) == HideBeyondTwo(section, testCases)
  {
    var r := HideBeyondTwo(section, testCases);
    var rr := HideBeyondTwo(section, r);
    assert |rr| == |r|;
    forall i | 0 <= i < |r|
      ensures rr[i] == r[i]
    {
    }
  }

  /** The two pre-validate hooks, in the order they are registered. */
  function PreValidate(q: Question): Question {
    Cleaned(q.(questionId := QuestionIdFor(q.section, q.questionNumber)))
  }

  /** `save()`: pre-validate hooks, then validation, then the pre-save hook; `None` when validation fails. */
  function Saved(q: Question): Option<Question> {
    var p := PreValidate(q);
    if ValidQuestion(p) then Some(p.(testCases := HideBeyondTwo(p.section, p.testCases))) else None
  }

  /**
   * What a successful save stores: a valid question of the required shape, its id derived from
   * its key, the caller's other fields untouched, and test cases beyond the second hidden.
   * Saving it again changes nothing.
   */
  lemma SavedQuestion(q: Question)
    ensures Saved(q).Some? <==> ValidQuestion(PreValidate(q))
    ensures Saved(q).Some? ==>
              var r := Saved(q).value;
              && ValidQuestion(r)
              && r.questionId == QuestionIdFor(q.section, q.questionNumber)
              && r.(questionId := q.questionId, options := q.options, testCases := q.testCases) == q
              && (IsChoiceSection(q.section) ==> r.options == q.options && r.testCases == [])
              && (q.section == Coding ==>
                    && r.options == []
                    && |r.testCases| == |q.testCases|
                    && (forall i :: 0 <= i < |r.testCases| ==>
                          r.testCases[i].input == q.testCases[i].input
                          && r.testCases[i].output == q.testCases[i].output)
                    && (|q.testCases| > 2 ==> forall i :: 0 <= i < |r.testCases| ==> (r.testCases[i].isHidden <==> i >= 2)))
              && Saved(r) == Some(r)
  {
    var p := PreValidate(q);
    if ValidQuestion(p) {
      var r := Saved(q).value;
      assert r.testCases == HideBeyondTwo(p.section, p.testCases);
      assert TestCasesValid(r.section, r.testCases) by {
        forall i | 0 <= i < |r.testCases|
          ensures TestCaseValid(r.testCases[i])
        {
          assert TestCaseValid(p.testCases[i]);
        }
      }
      assert ValidQuestion(r);
      assert PreValidate(r) == r;
      HideBeyondTwoIdempotent(p.section, p.testCases);
    }
  }

  // ---------------------------------------------------------------------------
  // The question document
  // ---------------------------------------------------------------------------

  /** A question document whose hooks reassign its fields in place. */
  class QuestionDoc {
    const id: QuestionId
    var questionId: string
    var section: string
    var questionNumber: Option<int>
    var text: string
    var options: seq<string>
    var answer: Option<string>
    var testCases: seq<TestCase>
    var status: string
    var createdBy: UserId

    function Snapshot(): Question
      reads this
    {
      Question(id, questionId, section, questionNumber, text, options, answer, testCases, status, createdBy)
    }

    /** `new Question(...)`: a missing array is empty and a missing status is `active`. */
    constructor (id: QuestionId, section: string, questionNumber: Option<int>, text: string,
                 options: Option<seq<string>>, answer: Option<string>, testCases: Option<seq<TestCase>>,
                 status: Option<string>, createdBy: UserId)
      ensures Snapshot() == Question(id, "", section, questionNumber, text, options.GetOr([]), answer,
                                     testCases.GetOr([]), status.GetOr(Active), createdBy)
    {
      this.id := id;
      questionId := "";
      this.section := section;
      this.questionNumber := questionNumber;
      this.text := text;
      this.options := options.GetOr([]);
      this.answer := answer;
      this.testCases := testCases.GetOr([]);
      this.status := status.GetOr(Active);
      this.createdBy := createdBy;
    }

    /** Loads a stored question. */
    constructor Load(q: Question)
      ensures Snapshot() == q
    {
      id := q.id;
      questionId := q.questionId;
      section := q.section;
      questionNumber := q.questionNumber;
      text := q.text;
      options := q.options;
      answer := q.answer;
      testCases := q.testCases;
      status := q.status;
      createdBy := q.createdBy;
    }

    /** First pre-validate hook. */
    method AssignQuestionId()
      modifies this`questionId
      ensures Snapshot() == old(Snapshot()).(questionId := QuestionIdFor(section, questionNumber))
    {
      questionId := QuestionIdFor(section, questionNumber);
    }

    /** Second pre-validate hook. */
    method Cleanup()
      modifies this`options, this`testCases
      ensures Snapshot() == Cleaned(old(Snapshot()))
    {
      if IsChoiceSection(section) {
        testCases := [];
      }
      if section == Coding {
        options := [];
      }
    }

    /** The pre-save hook. */
    method HideTestCases()
      modifies this`testCases
      ensures Snapshot() == old(Snapshot()).(testCases := HideBeyondTwo(section, old(testCases)))
    {
      testCases := HideBeyondTwo(section, testCases);
    }

    /** `save()` up to the write: hooks and validation; `ok` is false when validation throws. */
    method Save() returns (ok: bool)
      modifies this
      ensures ok <==> Saved(old(Snapshot())).Some?
      ensures ok ==> Snapshot() == Saved(old(Snapshot())).value
      ensures !ok ==> Snapshot() == PreValidate(old(Snapshot()))
    {
      AssignQuestionId();
      Cleanup();
      if !ValidQuestion(Snapshot()) {
        return false;
      }
      HideTestCases();
      return true;
    }
  }
}
