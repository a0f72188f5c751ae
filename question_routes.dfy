/**
 * src/routes/question.routes.js: the question catalog with its create, update and delete
 * routes, and the `/user` listing of every section sorted by question number.
 * The catalog is the question collection in `createdAt` order.
 */
module QuestionRoutes {
  import opened Wrappers
  import opened Text
  import opened QuestionModel

  /** The JSON body of create and update; a key that is absent is `None`. */
  datatype QuestionBody = QuestionBody(
    section: Option<string>,
    questionNumber: Option<int>,
    text: Option<string>,
    options: Option<seq<string>>,
    answer: Option<string>,
    testCases: Option<seq<TestCase>>,
    status: Option<string>)

  /** A string value JavaScript treats as true: present and non-empty. */
  predicate Truthy(s: Option<string>) {
    s.Some? && s.value != []
  }

  predicate BodyIsChoice(b: QuestionBody) {
    b.section.Some? && IsChoiceSection(b.section.value)
  }

  predicate BodyIsCoding(b: QuestionBody) {
    b.section == Some(Coding)
  }

  // ---------------------------------------------------------------------------
  // Catalog invariant
  // ---------------------------------------------------------------------------

  /** Two questions share the unique `(section, questionNumber)` index key. */
  predicate SameKey(a: Question, b: Question) {
    a.section == b.section && a.questionNumber == b.questionNumber
  }

  /** A stored question is one that `save()` leaves as it is. */
  predicate Stored(q: Question) {
    Saved(q) == Some(q)
  }

  predicate CatalogInvariant(qs: seq<Question>) {
    && (forall i :: 0 <= i < |qs| ==> Stored(qs[i]))
    && (forall i, j :: 0 <= i < j < |qs| ==> qs[i].id != qs[j].id)
    && (forall i, j :: 0 <= i < j < |qs| ==> !SameKey(qs[i], qs[j]))
  }

  /** Stored questions satisfy the schema; their derived ids are unique because their keys are. */
  lemma CatalogQuestionIds(qs: seq<Question>)
    requires CatalogInvariant(qs)
    ensures forall i :: 0 <= i < |qs| ==> ValidQuestion(qs[i])
    ensures forall i, j :: 0 <= i < j < |qs| ==> qs[i].questionId != qs[j].questionId
  {
    forall i | 0 <= i < |qs|
      ensures ValidQuestion(qs[i])
    {
      SavedQuestion(qs[i]);
    }
    forall i, j | 0 <= i < j < |qs|
      ensures qs[i].questionId != qs[j].questionId
    {
      SavedQuestion(qs[i]);
      SavedQuestion(qs[j]);
      QuestionIdInjective(qs[i].section, qs[i].questionNumber.value, qs[j].section, qs[j].questionNumber.value);
    }
  }

  /** Some question other than the one at `skip` would violate a unique index (`_id`, key, `questionId`). */
  predicate Conflicts(qs: seq<Question>, q: Question, skip: int) {
    exists j :: 0 <= j < |qs| && j != skip && (qs[j].id == q.id || SameKey(qs[j], q) || qs[j].questionId == q.questionId)
  }

  lemma AppendKeepsInvariant(qs: seq<Question>, q: Question)
    requires CatalogInvariant(qs) && Stored(q) && !Conflicts(qs, q, -1)
    ensures CatalogInvariant(qs + [q])
  {
    var r := qs + [q];
    forall i, j | 0 <= i < j < |r|
      ensures r[i].id != r[j].id && !SameKey(r[i], r[j])
    {
      if j == |qs| {
        assert r[i] == qs[i];
      }
    }
  }

  lemma ReplaceKeepsInvariant(qs: seq<Question>, k: nat, q: Question)
    requires CatalogInvariant(qs) && k < |qs| && Stored(q) && !Conflicts(qs, q, k)
    ensures CatalogInvariant(qs[k := q])
  {
    var r := qs[k := q];
    forall i, j | 0 <= i < j < |r|
      ensures r[i].id != r[j].id && !SameKey(r[i], r[j])
    {
      if i == k {
        assert r[j] == qs[j];
      } else if j == k {
        assert r[i] == qs[i];
      }
    }
  }

  lemma RemoveKeepsInvariant(qs: seq<Question>, k: nat)
    requires CatalogInvariant(qs) && k < |qs|
    ensures CatalogInvariant(qs[..k] + qs[k + 1..])
  {
    var r := qs[..k] + qs[k + 1..];
    assert forall i :: 0 <= i < |r| ==> r[i] == qs[if i < k then i else i + 1];
  }

  /** With unique ids, no question left after removing the one at `k` has its id. */
  lemma RemovedIdGone(qs: seq<Question>, k: nat)
    requires k < |qs| && forall i, j :: 0 <= i < j < |qs| ==> qs[i].id != qs[j].id
    ensures forall q :: q in qs[..k] + qs[k + 1..] ==> q.id != qs[k].id
  {
    var r := qs[..k] + qs[k + 1..];
    forall q | q in r
      ensures q.id != qs[k].id
    {
      var i :| 0 <= i < |r| && r[i] == q;
      assert r[i] == qs[if i < k then i else i + 1];
    }
  }

  // ---------------------------------------------------------------------------
  // Lookup
  // ---------------------------------------------------------------------------

  function FindFrom(qs: seq<Question>, id: QuestionId, from: nat): (r: Option<nat>)
    requires from <= |qs|
    ensures r.Some? ==> from <= r.value < |qs| && qs[r.value].id == id
                        && forall j :: from <= j < r.value ==> qs[j].id != id
    ensures r.None? ==> forall j :: from <= j < |qs| ==> qs[j].id != id
    decreases |qs| - from
  {
    if from == |qs| then None
    else if qs[from].id == id then Some(from)
    else FindFrom(qs, id, from + 1)
  }

  /** `findById`: an id parameter is matched case-insensitively, as its hex digits are. */
  function FindById(qs: seq<Question>, rawId: string): (r: Option<nat>)
    ensures r.Some? ==> r.value < |qs| && qs[r.value].id == ToLower(rawId)
    ensures r.None? <==> forall j :: 0 <= j < |qs| ==> qs[j].id != ToLower(rawId)
  {
    FindFrom(qs, ToLower(rawId), 0)
  }

  // ---------------------------------------------------------------------------
  // Create and update checks
  // ---------------------------------------------------------------------------

  /** The create route's own checks: the 400 answers, in the order they are made. */
  predicate CreateRejects(b: QuestionBody) {
    || !Truthy(b.text)
    || (BodyIsChoice(b) && (b.options.None? || |b.options.value| != 4))
    || (BodyIsChoice(b) && !Truthy(b.answer))
    || (BodyIsCoding(b) && (b.testCases.None? || |b.testCases.value| == 0))
  }

  /** `new Question({ ...req.body, createdBy: req.user._id })` before any hook runs. */
  function NewQuestion(caller: UserId, b: QuestionBody, newId: QuestionId): (q: Question)
    ensures q.createdBy == caller && q.id == newId
  {
    Question(newId, "", b.section.GetOr(""), b.questionNumber, b.text.GetOr(""), b.options.GetOr([]),
             b.answer, b.testCases.GetOr([]), b.status.GetOr(Active), caller)
  }

  /** The create checks only turn into a 400 what validation would have refused with a 500. */
  lemma CreateChecksSound(caller: UserId, b: QuestionBody, newId: QuestionId)
    requires CreateRejects(b)
    ensures Saved(NewQuestion(caller, b, newId)).None?
  {
    var p := PreValidate(NewQuestion(caller, b, newId));
    assert p.section == b.section.GetOr("") && p.text == b.text.GetOr("");
    if BodyIsCoding(b) && (b.testCases.None? || |b.testCases.value| == 0) {
      assert !TestCasesValid(p.section, p.testCases);
    }
  }

  /** The update route's own checks: the option count only when options are sent, an answer always. */
  predicate UpdateRejects(b: QuestionBody) {
    || (BodyIsChoice(b) && b.options.Some? && |b.options.value| != 4)
    || (BodyIsChoice(b) && !Truthy(b.answer))
    || (BodyIsCoding(b) && b.testCases.Some? && |b.testCases.value| == 0)
  }

  /** `Object.assign(question, req.body)`: every key the body carries overwrites the stored field. */
  function Merge(q: Question, b: QuestionBody): (r: Question)
    ensures r.id == q.id && r.questionId == q.questionId && r.createdBy == q.createdBy
    ensures b.section.Some? ==> r.section == b.section.value
    ensures b.section.None? ==> r.section == q.section
    ensures b.answer.Some? ==> r.answer == b.answer
    ensures b.answer.None? ==> r.answer == q.answer
    ensures b.questionNumber.Some? ==> r.questionNumber == b.questionNumber
    ensures b.questionNumber.None? ==> r.questionNumber == q.questionNumber
    ensures b.text.Some? ==> r.text == b.text.value
    ensures b.text.None? ==> r.text == q.text
    ensures b.options.Some? ==> r.options == b.options.value
    ensures b.options.None? ==> r.options == q.options
    ensures b.testCases.Some? ==> r.testCases == b.testCases.value
    ensures b.testCases.None? ==> r.testCases == q.testCases
    ensures b.status.Some? ==> r.status == b.status.value
    ensures b.status.None? ==> r.status == q.status
  {
    q.(section := b.section.GetOr(q.section),
       questionNumber := if b.questionNumber.Some? then b.questionNumber else q.questionNumber,
       text := b.text.GetOr(q.text),
       options := b.options.GetOr(q.options),
       answer := if b.answer.Some? then b.answer else q.answer,
       testCases := b.testCases.GetOr(q.testCases),
       status := b.status.GetOr(q.status))
  }

  /** An empty body changes nothing, and merging the same body twice is merging it once. */
  lemma MergeLaws(q: Question, b: QuestionBody)
    ensures Merge(q, QuestionBody(None, None, None, None, None, None, None)) == q
    ensures Merge(Merge(q, b), b) == Merge(q, b)
  {
  }

  /** An update whose body sends no field at all saves a stored question unchanged. */
  lemma EmptyUpdateKeepsQuestion(q: Question)
    requires Stored(q)
    ensures Saved(Merge(q, QuestionBody(None, None, None, None, None, None, None))) == Some(q)
  {
    MergeLaws(q, QuestionBody(None, None, None, None, None, None, None));
  }

  /** `Object.assign` on a loaded document, one key at a time. */
  method AssignBody(doc: QuestionDoc, b: QuestionBody)
    modifies doc
    ensures doc.Snapshot() == Merge(old(doc.Snapshot()), b)
  {
    if b.section.Some? { doc.section := b.section.value; }
    if b.questionNumber.Some? { doc.questionNumber := b.questionNumber; }
    if b.text.Some? { doc.text := b.text.value; }
    if b.options.Some? { doc.options := b.options.value; }
    if b.answer.Some? { doc.answer := b.answer; }
    if b.testCases.Some? { doc.testCases := b.testCases.value; }
    if b.status.Some? { doc.status := b.status.value; }
  }

  // ---------------------------------------------------------------------------
  // Listing
  // ---------------------------------------------------------------------------

  /** `find({ section })`: the section's questions, in catalog order. */
  function OfSection(qs: seq<Question>, s: string): (r: seq<Question>)
    ensures |r| <= |qs|
    ensures forall i :: 0 <= i < |r| ==> r[i].section == s
  {
    if qs == [] then []
    else if qs[0].section == s then [qs[0]] + OfSection(qs[1..], s)
    else OfSection(qs[1..], s)
  }

  /** The section's query returns exactly the section's questions, none more often than stored. */
  lemma {:induction false} OfSectionMembers(qs: seq<Question>, s: string)
    ensures forall q :: q in OfSection(qs, s) <==> q in qs && q.section == s
    ensures multiset(OfSection(qs, s)) <= multiset(qs)
  {
    if qs != [] {
      OfSectionMembers(qs[1..], s);
      assert qs == [qs[0]] + qs[1..];
    }
  }

  lemma {:induction false} OfSectionAppend(a: seq<Question>, b: seq<Question>, s: string)
    ensures OfSection(a + b, s) == OfSection(a, s) + OfSection(b, s)
  {
    var ab := a + b;
    if a != [] {
      assert ab[0] == a[0] && ab[1..] == a[1..] + b;
      OfSectionAppend(a[1..], b, s);
      var x, y := OfSection(a[1..], s), OfSection(b, s);
      if a[0].section == s {
        assert OfSection(ab, s) == [a[0]] + (x + y);
        assert OfSection(a, s) == [a[0]] + x;
        assert [a[0]] + (x + y) == ([a[0]] + x) + y;
      } else {
        assert OfSection(ab, s) == x + y;
        assert OfSection(a, s) == x;
      }
    } else {
      assert ab == b;
    }
  }

  /**
   * The `k`-th (0-based) question of a section is the catalog entry `j` preceded by exactly
   * `k` questions of that section.
   */
  lemma {:induction false} OfSectionPosition(qs: seq<Question>, s: string, k: nat) returns (j: nat)
    requires k < |OfSection(qs, s)|
    ensures j < |qs| && qs[j] == OfSection(qs, s)[k] && qs[j].section == s
    ensures |OfSection(qs[..j], s)| == k
  {
    assert qs != [];
    var head: seq<Question> := if qs[0].section == s then [qs[0]] else [];
    var rest := OfSection(qs[1..], s);
    assert OfSection(qs, s) == head + rest;
    if qs[0].section == s && k == 0 {
      assert qs[..0] == [];
      return 0;
    }
    var k' := k - |head|;
    assert OfSection(qs, s)[k] == rest[k'];
    var j' := OfSectionPosition(qs[1..], s, k');
    assert qs[j' + 1] == qs[1..][j'];
    OfSectionPrefix(qs, s, j');
    return j' + 1;
  }

  /** Filtering a prefix of length `n + 1` sees the first question, then the next `n`. */
  lemma OfSectionPrefix(qs: seq<Question>, s: string, n: nat)
    requires n < |qs|
    ensures OfSection(qs[..n + 1], s)
            == (if qs[0].section == s then [qs[0]] else []) + OfSection(qs[1..][..n], s)
  {
    var p := qs[..n + 1];
    assert p[0] == qs[0] && p[1..] == qs[1..][..n];
  }

  /** The sort key: stored questions always carry a number. */
  function Num(q: Question): int {
    q.questionNumber.GetOr(0)
  }

  predicate SortedByNumber(qs: seq<Question>) {
    forall i, j :: 0 <= i < j < |qs| ==> Num(qs[i]) <= Num(qs[j])
  }

  /** Inserts `q` before the first question with a number at least its own. */
  function InsertByNumber(q: Question, qs: seq<Question>): (r: seq<Question>)
    requires SortedByNumber(qs)
    ensures SortedByNumber(r)
    ensures multiset(r) == multiset(qs) + multiset{q}
    ensures |r| == |qs| + 1 && (r[0] == q || (qs != [] && r[0] == qs[0]))
  {
    if qs == [] then [q]
    else if Num(q) <= Num(qs[0]) then [q] + qs
    else
      var rest := InsertByNumber(q, qs[1..]);
      ConsSorted(qs[0], rest);
      assert qs == [qs[0]] + qs[1..];
      [qs[0]] + rest
  }

  /** A question numbered no higher than the head of a sorted list keeps it sorted in front. */
  lemma ConsSorted(x: Question, rest: seq<Question>)
    requires SortedByNumber(rest)
    requires rest != [] ==> Num(x) <= Num(rest[0])
    ensures SortedByNumber([x] + rest)
  {
    var r := [x] + rest;
    forall i, j | 0 <= i < j < |r| ensures Num(r[i]) <= Num(r[j]) {
      assert r[j] == rest[j - 1];
      if i > 0 {
        assert r[i] == rest[i - 1];
      } else {
        assert Num(rest[0]) <= Num(rest[j - 1]);
      }
    }
  }

  /** `.sort({ questionNumber: 1 })`, as an insertion sort. */
  function SortByNumber(qs: seq<Question>): (r: seq<Question>)
    ensures SortedByNumber(r)
    ensures multiset(r) == multiset(qs)
  {
    if qs == [] then []
    else
      assert qs == [qs[0]] + qs[1..];
      InsertByNumber(qs[0], SortByNumber(qs[1..]))
  }

  /** A listing entry holds exactly its section's questions, each once, in ascending number order. */
  lemma SectionListing(qs: seq<Question>, s: string)
    ensures SortedByNumber(SortByNumber(OfSection(qs, s)))
    ensures multiset(SortByNumber(OfSection(qs, s))) == multiset(OfSection(qs, s))
    ensures forall q :: q in SortByNumber(OfSection(qs, s)) <==> q in qs && q.section == s
  {
    var r := SortByNumber(OfSection(qs, s));
    OfSectionMembers(qs, s);
    forall q
      ensures q in r <==> q in OfSection(qs, s)
    {
      assert q in r <==> q in multiset(r);
      assert q in OfSection(qs, s) <==> q in multiset(OfSection(qs, s));
    }
  }

  // ---------------------------------------------------------------------------
  // The catalog
  // ---------------------------------------------------------------------------

  class Catalog {
    /** The question collection, in `createdAt` order. */
    var questions: seq<Question>

    ghost predicate Valid()
      reads this
    {
      CatalogInvariant(questions)
    }

    constructor ()
      ensures Valid() && questions == []
    {
      questions := [];
    }

    /** `POST /`: the route checks (400), then save and the unique indexes (500), then 201. */
    method Create(caller: UserId, b: QuestionBody, newId: QuestionId) returns (code: int)
      requires Valid()
      modifies this
      ensures Valid()
      ensures code == 400 <==> CreateRejects(b)
      ensures code == 201 <==> !CreateRejects(b) && Saved(NewQuestion(caller, b, newId)).Some?
                               && !Conflicts(old(questions), Saved(NewQuestion(caller, b, newId)).value, -1)
      ensures code == 400 || code == 500 || code == 201
      ensures code != 201 ==> questions == old(questions)
      ensures code == 201 ==> questions == old(questions) + [Saved(NewQuestion(caller, b, newId)).value]
    {
      if CreateRejects(b) {
        return 400;
      }
      var doc := new QuestionDoc(newId, b.section.GetOr(""), b.questionNumber, b.text.GetOr(""),
                                 b.options, b.answer, b.testCases, b.status, caller);
      var ok := doc.Save();
      if !ok {
        return 500;
      }
      var q := doc.Snapshot();
      if Conflicts(questions, q, -1) {
        return 500;
      }
      SavedQuestion(NewQuestion(caller, b, newId));
      AppendKeepsInvariant(questions, q);
      questions := questions + [q];
      return 201;
    }

    /** `PUT /:id`: id check (400), lookup (404), route checks (400), merge and save (500), then 200. */
    method Update(rawId: string, b: QuestionBody) returns (code: int)
      requires Valid()
      modifies this
      ensures Valid()
      ensures !IsValidObjectId(rawId) ==> code == 400
      ensures IsValidObjectId(rawId) && FindById(old(questions), rawId).None? ==> code == 404
      ensures IsValidObjectId(rawId) && FindById(old(questions), rawId).Some? ==>
                var k := FindById(old(questions), rawId).value;
                var merged := Saved(Merge(old(questions)[k], b));
                && (UpdateRejects(b) ==> code == 400)
                && (!UpdateRejects(b) && merged.Some? && !Conflicts(old(questions), merged.value, k) ==>
                      code == 200 && questions == old(questions)[k := merged.value])
                && (!UpdateRejects(b) && (merged.None? || Conflicts(old(questions), merged.value, k)) ==>
                      code == 500)
      ensures code != 200 ==> questions == old(questions)
    {
      if !IsValidObjectId(rawId) {
        return 400;
      }
      var found := FindById(questions, rawId);
      if found.None? {
        return 404;
      }
      var k := found.value;
      if UpdateRejects(b) {
        return 400;
      }
      var doc := new QuestionDoc.Load(questions[k]);
      AssignBody(doc, b);
      var ok := doc.Save();
      if !ok {
        return 500;
      }
      var q := doc.Snapshot();
      if Conflicts(questions, q, k) {
        return 500;
      }
      SavedQuestion(Merge(questions[k], b));
      ReplaceKeepsInvariant(questions, k, q);
      questions := questions[k := q];
      return 200;
    }

    /** `DELETE /:id`: id check (400), lookup (404), otherwise removes exactly that question (200). */
    method Delete(rawId: string) returns (code: int)
      requires Valid()
      modifies this
      ensures Valid()
      ensures !IsValidObjectId(rawId) ==> code == 400
      ensures IsValidObjectId(rawId) && FindById(old(questions), rawId).None? ==> code == 404
      ensures IsValidObjectId(rawId) && FindById(old(questions), rawId).Some? ==>
                var k := FindById(old(questions), rawId).value;
                code == 200 && questions == old(questions)[..k] + old(questions)[k + 1..]
      ensures code != 200 ==> questions == old(questions)
      ensures code == 200 ==> forall q :: q in questions ==> q.id != ToLower(rawId)
    {
      if !IsValidObjectId(rawId) {
        return 400;
      }
      var found := FindById(questions, rawId);
      if found.None? {
        return 404;
      }
      var k := found.value;
      RemoveKeepsInvariant(questions, k);
      RemovedIdGone(questions, k);
      questions := questions[..k] + questions[k + 1..];
      return 200;
    }

    /** `GET /user`: for each of the four sections, that section's questions sorted by number. */
    method ListForUser() returns (listing: map<string, seq<Question>>)
      ensures forall s :: s in listing <==> s in Sections
      ensures forall s :: s in listing ==> listing[s] == SortByNumber(OfSection(questions, s))
    {
      listing := map[];
      for n := 0 to |Sections|
        invariant forall s :: s in listing <==> s in Sections[..n]
        invariant forall s :: s in listing ==> listing[s] == SortByNumber(OfSection(questions, s))
      {
        var section := Sections[n];
        assert Sections[..n + 1] == Sections[..n] + [section];
        listing := listing[section := SortByNumber(OfSection(questions, section))];
      }
      assert Sections[..|Sections|] == Sections;
    }
  }
}
