/** What each store command does to the records, stated as functions of the
    records before the command. The `Store` class in module App performs the
    same changes step by step and is proved to end in these states. */
module Commands {
  import opened Domain
  import opened Text
  import opened Scoring

  // ---------------------------------------------------------------------
  // At most one submission per (test, student): submitTest (app.js:937-941)

  function NotPair(testId: int, studentId: string): Submission -> bool {
    (s: Submission) => !(s.testId == testId && s.studentId == studentId)
  }

  /** Drop the pair's earlier submissions, then append the new one. */
  function AfterSubmit(subs: seq<Submission>, sub: Submission): (r: seq<Submission>)
    ensures sub in r && r[|r| - 1] == sub
  {
    Filter(NotPair(sub.testId, sub.studentId), subs) + [sub]
  }

  /** The store holds at most one submission for every (test, student). */
  ghost predicate OnePerPair(subs: seq<Submission>) {
    forall t: int, u: string :: Count(IsPair(t, u), subs) <= 1
  }

  lemma FilterNone<T(!new)>(p: T -> bool, s: seq<T>)
    requires forall x :: x in s ==> !p(x)
    ensures Filter(p, s) == []
  {
  }

  /** After a submission, the pair's submissions are exactly the new one. */
  lemma SubmitLeavesOnlyNew(subs: seq<Submission>, sub: Submission)
    ensures Filter(IsPair(sub.testId, sub.studentId), AfterSubmit(subs, sub)) == [sub]
  {
    var p := IsPair(sub.testId, sub.studentId);
    var kept := Filter(NotPair(sub.testId, sub.studentId), subs);
    FilterAppend(p, kept, [sub]);
    FilterNone(p, kept);
    assert Filter(p, [sub]) == [sub] by {
      assert [sub][1..] == [];
    }
  }

  /** The submissions of every other pair are the same ones, in the same
      order, as before. */
  lemma SubmitKeepsOtherPairs(subs: seq<Submission>, sub: Submission, t: int, u: string)
    requires !(t == sub.testId && u == sub.studentId)
    ensures Filter(IsPair(t, u), AfterSubmit(subs, sub)) == Filter(IsPair(t, u), subs)
  {
    var p := IsPair(t, u);
    var notSub := NotPair(sub.testId, sub.studentId);
    var kept := Filter(notSub, subs);
    FilterAppend(p, kept, [sub]);
    FilterAbsorb(notSub, p, subs);
    assert Filter(p, [sub]) == [] by {
      assert [sub][1..] == [];
    }
    assert kept + [] == kept;
  }

  lemma SubmitKeepsOnePerPair(subs: seq<Submission>, sub: Submission)
    requires OnePerPair(subs)
    ensures OnePerPair(AfterSubmit(subs, sub))
  {
    var r := AfterSubmit(subs, sub);
    forall t: int, u: string ensures Count(IsPair(t, u), r) <= 1 {
      CountIsFilterLength(IsPair(t, u), r);
      if t == sub.testId && u == sub.studentId {
        SubmitLeavesOnlyNew(subs, sub);
      } else {
        SubmitKeepsOtherPairs(subs, sub, t, u);
        CountIsFilterLength(IsPair(t, u), subs);
      }
    }
  }

  /** The results dialog then finds the new submission for the pair. */
  lemma SubmitIsFound(subs: seq<Submission>, sub: Submission)
    ensures FindSubmission(AfterSubmit(subs, sub), sub.testId, sub.studentId) == Some(sub)
  {
    var r := AfterSubmit(subs, sub);
    var found := FindSubmission(r, sub.testId, sub.studentId);
    assert IsPair(sub.testId, sub.studentId)(r[|r| - 1]);
    SubmitLeavesOnlyNew(subs, sub);
    assert found.value in Filter(IsPair(sub.testId, sub.studentId), r);
  }

  // ---------------------------------------------------------------------
  // gradeAnswer (app.js:815-819)

  function HasId(id: int): Submission -> bool {
    (s: Submission) => s.id == id
  }

  function AtQuestion(questionIndex: int): Answer -> bool {
    (a: Answer) => a.questionIndex == questionIndex
  }

  function Graded(a: Answer, isCorrect: bool, comment: string): Answer {
    a.(reviewed := true, correct := isCorrect, comment := comment)
  }

  /** The first submission with the id, and in it the first answer with the
      question index, becomes reviewed with the verdict and the comment. */
  function Grade(subs: seq<Submission>, submissionId: int, questionIndex: int, isCorrect: bool, comment: string)
    : (r: Result<seq<Submission>>)
    ensures r == Err(SubmissionNotFound) <==> forall i :: 0 <= i < |subs| ==> subs[i].id != submissionId
    ensures r.Ok? ==> |r.value| == |subs|
  {
    match FirstIndex(HasId(submissionId), subs)
    case None => Err(SubmissionNotFound)
    case Some(i) =>
      var answers := subs[i].answers;
      match FirstIndex(AtQuestion(questionIndex), answers)
      case None => Err(AnswerNotFound)
      case Some(k) =>
        Ok(subs[i := subs[i].(answers := answers[k := Graded(answers[k], isCorrect, comment)])])
  }

  /** Exactly one answer changes, and in it only the review fields. */
  lemma GradeChangesOneAnswer(subs: seq<Submission>, submissionId: int, questionIndex: int, isCorrect: bool, comment: string)
    ensures match Grade(subs, submissionId, questionIndex, isCorrect, comment)
      case Err(e) => e == SubmissionNotFound || e == AnswerNotFound
      case Ok(r) =>
        exists i, k :: 0 <= i < |subs| && subs[i].id == submissionId
          && 0 <= k < |subs[i].answers| && subs[i].answers[k].questionIndex == questionIndex
          && r == subs[i := subs[i].(answers := subs[i].answers[k := Graded(subs[i].answers[k], isCorrect, comment)])]
    ensures Grade(subs, submissionId, questionIndex, isCorrect, comment) == Err(AnswerNotFound) <==>
      exists i :: 0 <= i < |subs| && subs[i].id == submissionId
        && (forall j :: 0 <= j < i ==> subs[j].id != submissionId)
        && forall k :: 0 <= k < |subs[i].answers| ==> subs[i].answers[k].questionIndex != questionIndex
  {
    match FirstIndex(HasId(submissionId), subs)
    case None =>
    case Some(i) =>
      match FirstIndex(AtQuestion(questionIndex), subs[i].answers)
      case None =>
      case Some(k) =>
  }

  /** Grading the same answer twice with the same verdict changes nothing the
      second time. */
  lemma GradeIdempotent(subs: seq<Submission>, submissionId: int, questionIndex: int, isCorrect: bool, comment: string)
    ensures match Grade(subs, submissionId, questionIndex, isCorrect, comment)
      case Ok(r) => Grade(r, submissionId, questionIndex, isCorrect, comment) == Ok(r)
      case Err(_) => true
  {
    match FirstIndex(HasId(submissionId), subs)
    case None =>
    case Some(i) =>
      var answers := subs[i].answers;
      match FirstIndex(AtQuestion(questionIndex), answers)
      case None =>
      case Some(k) =>
        var a := answers[k := Graded(answers[k], isCorrect, comment)];
        var r := subs[i := subs[i].(answers := a)];
        assert FirstIndex(HasId(submissionId), r) == Some(i) by {
          assert forall j :: 0 <= j < i ==> r[j] == subs[j];
        }
        assert FirstIndex(AtQuestion(questionIndex), a) == Some(k) by {
          assert forall j :: 0 <= j < k ==> a[j] == answers[j];
        }
        assert a[k := Graded(a[k], isCorrect, comment)] == a;
        assert r[i := r[i].(answers := a)] == r;
  }

  /** Grading never raises the pending-review count, and lowers it by one
      exactly when the graded answer was the last unreviewed long answer of
      its submission. */
  lemma GradePendingCount(subs: seq<Submission>, submissionId: int, questionIndex: int, isCorrect: bool, comment: string)
    ensures match Grade(subs, submissionId, questionIndex, isCorrect, comment)
      case Err(_) => true
      case Ok(r) =>
        var i := FirstIndex(HasId(submissionId), subs).value;
        var k := FirstIndex(AtQuestion(questionIndex), subs[i].answers).value;
        && PendingCount(r) <= PendingCount(subs)
        && (PendingCount(r) + 1 == PendingCount(subs) <==>
              IsLongPending(subs[i].answers[k]) && Count(IsLongPending, subs[i].answers) == 1)
  {
    match FirstIndex(HasId(submissionId), subs)
    case None =>
    case Some(i) =>
      var answers := subs[i].answers;
      match FirstIndex(AtQuestion(questionIndex), answers)
      case None =>
      case Some(k) =>
        var g := Graded(answers[k], isCorrect, comment);
        var s' := subs[i].(answers := answers[k := g]);
        var r := subs[i := s'];
        CountUpdate(IsLongPending, answers, k, g);
        assert !IsLongPending(g);
        HasPendingIff(subs[i]);
        HasPendingIff(s');
        CountUpdate(HasPending, subs, i, s');
  }

  // ---------------------------------------------------------------------
  // Deletions and resets (app.js:506-509, 588-604, 726-729, 436-439)

  function OfTest(testId: int): Submission -> bool {
    (s: Submission) => s.testId == testId
  }

  function NotOfTest(testId: int): Submission -> bool {
    (s: Submission) => s.testId != testId
  }

  function NotOfStudent(studentId: string): Submission -> bool {
    (s: Submission) => s.studentId != studentId
  }

  function TestsWithout(tests: seq<Test>, testId: int): (r: seq<Test>)
    ensures forall t :: t in r <==> t in tests && t.id != testId
  {
    Filter((t: Test) => t.id != testId, tests)
  }

  /** `deleteTest`'s change to the submissions. */
  function SubmissionsWithoutTest(subs: seq<Submission>, testId: int): (r: seq<Submission>)
    ensures forall s :: s in r <==> s in subs && s.testId != testId
  {
    Filter(NotOfTest(testId), subs)
  }

  /** Deleting a test keeps the submissions of every other test, in order. */
  lemma DeleteTestKeepsOthers(subs: seq<Submission>, testId: int, other: int)
    requires other != testId
    ensures Filter(OfTest(other), SubmissionsWithoutTest(subs, testId)) == Filter(OfTest(other), subs)
  {
    FilterAbsorb(NotOfTest(testId), OfTest(other), subs);
  }

  /** `resetStudent`, and `deleteStudent`'s change to the submissions. */
  function SubmissionsWithoutStudent(subs: seq<Submission>, studentId: string): (r: seq<Submission>)
    ensures forall s :: s in r <==> s in subs && s.studentId != studentId
  {
    Filter(NotOfStudent(studentId), subs)
  }

  function StudentsWithout(students: seq<Student>, studentId: string): (r: seq<Student>)
    ensures forall s :: s in r <==> s in students && s.id != studentId
  {
    Filter((s: Student) => s.id != studentId, students)
  }

  /** The ids left after removing a student are the old ids without that
      one, in the same order. */
  lemma {:induction false} StudentIdsWithout(students: seq<Student>, studentId: string)
    ensures StudentIds(StudentsWithout(students, studentId)) == Remove(StudentIds(students), studentId)
  {
    if students != [] {
      StudentIdsWithout(students[1..], studentId);
      assert StudentIds(students)[1..] == StudentIds(students[1..]);
      if students[0].id != studentId {
        var rest := StudentsWithout(students[1..], studentId);
        assert StudentsWithout(students, studentId) == [students[0]] + rest;
        assert StudentIds([students[0]] + rest) == [students[0].id] + StudentIds(rest);
      }
    }
  }

  /** Removing a student keeps the remaining ids unique. */
  lemma StudentsWithoutKeepsDistinct(students: seq<Student>, studentId: string)
    requires Distinct(StudentIds(students))
    ensures Distinct(StudentIds(StudentsWithout(students, studentId)))
  {
    StudentIdsWithout(students, studentId);
    RemoveDistinct(StudentIds(students), studentId);
  }

  /** `deleteStudent`'s change to one test: the id leaves the assignment. */
  function Unassign(t: Test, studentId: string): (r: Test)
    ensures r == t.(assignedStudents := r.assignedStudents)
    ensures forall sid :: sid in r.assignedStudents <==> sid in t.assignedStudents && sid != studentId
  {
    t.(assignedStudents := Remove(t.assignedStudents, studentId))
  }

  function UnassignAll(tests: seq<Test>, studentId: string): (r: seq<Test>)
    ensures |r| == |tests|
    ensures forall i :: 0 <= i < |r| ==> r[i] == Unassign(tests[i], studentId)
  {
    seq(|tests|, i requires 0 <= i < |tests| => Unassign(tests[i], studentId))
  }

  /** After `deleteStudent` nothing refers to the student any more, and
      every other reference is kept. */
  lemma DeleteStudentLeavesNoReference(students: seq<Student>, subs: seq<Submission>, tests: seq<Test>, studentId: string)
    ensures forall s :: s in StudentsWithout(students, studentId) ==> s.id != studentId
    ensures forall s :: s in SubmissionsWithoutStudent(subs, studentId) ==> s.studentId != studentId
    ensures forall t :: t in UnassignAll(tests, studentId) ==> studentId !in t.assignedStudents
    ensures forall i, sid :: 0 <= i < |tests| && sid in tests[i].assignedStudents && sid != studentId ==>
      sid in UnassignAll(tests, studentId)[i].assignedStudents
  {
  }

  function QuestionsWithout(qs: seq<Question>, questionId: int): (r: seq<Question>)
    ensures forall q :: q in r <==> q in qs && q.id != questionId
  {
    Filter((q: Question) => q.id != questionId, qs)
  }

  /** `deleteQuestion`'s change to one test's snapshot. */
  function StripQuestion(t: Test, questionId: int): (r: Test)
    ensures r == t.(questions := r.questions)
    ensures forall q :: q in r.questions <==> q in t.questions && q.id != questionId
  {
    t.(questions := QuestionsWithout(t.questions, questionId))
  }

  function CategoriesWithout(cats: seq<string>, cat: string): (r: seq<string>)
    ensures cat !in r
    ensures forall c :: c != cat ==> (c in r <==> c in cats)
  {
    Remove(cats, cat)
  }

  /** `deleteCategory`'s change to one question. */
  function StripCategory(q: Question, cat: string): (r: Question)
    ensures r == q.(categories := r.categories)
    ensures cat !in r.categories
    ensures forall c :: c != cat ==> (c in r.categories <==> c in q.categories)
  {
    q.(categories := CategoriesWithout(q.categories, cat))
  }

  /** `deleteCategory` resets the chip filter when it showed that category. */
  function ChipAfterDelete(selected: string, cat: string): (r: string)
    ensures r != cat || cat == ""
    ensures selected != cat ==> r == selected
  {
    if selected != "" && selected == cat then "" else selected
  }

  lemma DeleteCategoryKeepsDistinct(cats: seq<string>, cat: string)
    requires Distinct(cats)
    ensures Distinct(CategoriesWithout(cats, cat))
  {
    RemoveDistinct(cats, cat);
  }

  // ---------------------------------------------------------------------
  // The question list's filter (app.js:714-724)

  /** `s.includes(sub)`, scanning from the front. */
  predicate Includes(s: string, sub: string)
    decreases |s|
  {
    |sub| <= |s| && (s[..|sub|] == sub || Includes(s[1..], sub))
  }

  /** `sub` occurs in `s` starting at position k. */
  predicate OccursAt(s: string, sub: string, k: nat) {
    k + |sub| <= |s| && s[k..k + |sub|] == sub
  }

  /** `Includes` holds exactly when `sub` occurs at some position of `s`. */
  lemma {:induction false} IncludesIff(s: string, sub: string)
    ensures Includes(s, sub) <==> exists k: nat :: OccursAt(s, sub, k)
    decreases |s|
  {
    if |sub| <= |s| {
      if s[..|sub|] == sub {
        assert OccursAt(s, sub, 0);
      } else {
        IncludesIff(s[1..], sub);
        if exists k: nat :: OccursAt(s, sub, k) {
          var k: nat :| OccursAt(s, sub, k);
          assert k != 0;
          assert s[1..][k - 1..k - 1 + |sub|] == s[k..k + |sub|];
          assert OccursAt(s[1..], sub, k - 1);
        }
        if Includes(s[1..], sub) {
          var k: nat :| OccursAt(s[1..], sub, k);
          assert s[1..][k..k + |sub|] == s[k + 1..k + 1 + |sub|];
          assert OccursAt(s, sub, k + 1);
        }
      }
    } else {
      assert forall k: nat :: !OccursAt(s, sub, k);
    }
  }

  /** The category filter ("" for all) and the lower-cased search text ("" for
      none) of `getFilteredQuestions`. */
  function QuestionMatches(category: string, search: string): Question -> bool {
    (q: Question) => (category == "" || category in q.categories) && (search == "" || Includes(Lower(q.text), search))
  }

  /** `getFilteredQuestions`: `category` is the selected chip, or the
      dialog's category select; the search box is matched ignoring ASCII
      case. */
  function FilteredQuestions(qs: seq<Question>, category: string, searchInput: string): (r: seq<Question>)
    ensures forall q :: q in r <==>
      && q in qs
      && (category == "" || category in q.categories)
      && (searchInput == "" || Includes(Lower(q.text), Lower(searchInput)))
  {
    Filter(QuestionMatches(category, Lower(searchInput)), qs)
  }

  /** With neither a category nor a search text every question is listed, in
      catalog order. */
  lemma FilteredQuestionsAll(qs: seq<Question>)
    ensures FilteredQuestions(qs, "", "") == qs
  {
    FilterAll(QuestionMatches("", ""), qs);
  }

  // ---------------------------------------------------------------------
  // Renaming a student id in saveStudent (app.js:562-571)

  function RenameSubmission(s: Submission, from: string, to: string): Submission {
    if s.studentId == from then s.(studentId := to) else s
  }

  function RenameSubmissions(subs: seq<Submission>, from: string, to: string): (r: seq<Submission>)
    ensures |r| == |subs|
    ensures forall i :: 0 <= i < |r| ==> r[i] == RenameSubmission(subs[i], from, to)
  {
    seq(|subs|, i requires 0 <= i < |subs| => RenameSubmission(subs[i], from, to))
  }

  function RenameIds(ids: seq<string>, from: string, to: string): (r: seq<string>)
    ensures |r| == |ids|
    ensures forall i :: 0 <= i < |r| ==> r[i] == (if ids[i] == from then to else ids[i])
  {
    seq(|ids|, i requires 0 <= i < |ids| => if ids[i] == from then to else ids[i])
  }

  function RenameAssigned(t: Test, from: string, to: string): Test {
    t.(assignedStudents := RenameIds(t.assignedStudents, from, to))
  }

  function RenameInTests(tests: seq<Test>, from: string, to: string): (r: seq<Test>)
    ensures |r| == |tests|
    ensures forall i :: 0 <= i < |r| ==> r[i] == RenameAssigned(tests[i], from, to)
  {
    seq(|tests|, i requires 0 <= i < |tests| => RenameAssigned(tests[i], from, to))
  }

  /** After a rename no submission and no assignment names the old id. */
  lemma RenameLeavesNoOldId(subs: seq<Submission>, tests: seq<Test>, from: string, to: string)
    requires from != to
    ensures forall s :: s in RenameSubmissions(subs, from, to) ==> s.studentId != from
    ensures forall t :: t in RenameInTests(tests, from, to) ==> from !in t.assignedStudents
  {
    forall t | t in RenameInTests(tests, from, to) ensures from !in t.assignedStudents {
      var i :| 0 <= i < |tests| && RenameInTests(tests, from, to)[i] == t;
    }
  }

  /** Renaming to an id nothing refers to, and back, restores the records. */
  lemma RenameRoundTrip(subs: seq<Submission>, tests: seq<Test>, from: string, to: string)
    requires forall i :: 0 <= i < |subs| ==> subs[i].studentId != to
    requires forall i :: 0 <= i < |tests| ==> to !in tests[i].assignedStudents
    ensures RenameSubmissions(RenameSubmissions(subs, from, to), to, from) == subs
    ensures RenameInTests(RenameInTests(tests, from, to), to, from) == tests
  {
    var back := RenameInTests(RenameInTests(tests, from, to), to, from);
    forall i | 0 <= i < |tests| ensures back[i] == tests[i] {
      var ids := tests[i].assignedStudents;
      assert RenameIds(RenameIds(ids, from, to), to, from) == ids;
    }
  }

  // ---------------------------------------------------------------------
  // Form validation

  /** `submitAddCategory` (app.js:414-426): the trimmed name must be new. */
  function AddCategory(cats: seq<string>, input: string): Result<seq<string>> {
    AddTrimmedCategory(cats, Trim(input))
  }

  function AddTrimmedCategory(cats: seq<string>, name: string): (r: Result<seq<string>>)
    ensures r.Ok? <==> name != [] && name !in cats
    ensures r.Ok? ==> r.value == cats + [name]
    ensures r == Err(EmptyCategory) <==> name == []
  {
    if name == [] then Err(EmptyCategory)
    else if name in cats then Err(DuplicateCategory)
    else Ok(cats + [name])
  }

  lemma AddCategoryKeepsDistinct(cats: seq<string>, name: string)
    requires Distinct(cats)
    ensures AddTrimmedCategory(cats, name).Ok? ==> Distinct(AddTrimmedCategory(cats, name).value)
  {
    if AddTrimmedCategory(cats, name).Ok? {
      AppendNewDistinct(cats, name);
    }
  }

  /** The question form of `saveQuestion` (app.js:644-670), after `.value`. */
  datatype QuestionForm = QuestionForm(
    kind: Kind,
    text: string,
    categories: seq<string>,
    difficulty: string,
    reference: string,
    imageUrl: string,
    code: string,
    optionA: string,
    optionB: string,
    optionC: string,
    optionD: string,
    correct: string)

  /** The form with `.trim()` applied where `saveQuestion` applies it. */
  function TrimForm(f: QuestionForm): QuestionForm {
    f.(text := Trim(f.text), reference := Trim(f.reference), imageUrl := Trim(f.imageUrl),
       code := Trim(f.code), optionA := Trim(f.optionA), optionB := Trim(f.optionB),
       optionC := Trim(f.optionC), optionD := Trim(f.optionD))
  }

  /** The fields the form sets on both new and edited questions. */
  function WithForm(q: Question, f: QuestionForm): Question {
    q.(kind := f.kind, text := f.text, categories := f.categories,
       difficulty := if f.difficulty == "" then "medium" else f.difficulty,
       reference := f.reference, imageUrl := f.imageUrl, code := f.code)
  }

  function FindQuestion(qs: seq<Question>, id: int): Option<nat> {
    FirstIndex((q: Question) => q.id == id, qs)
  }

  /** The options step, run on the question already stored: an incomplete
      multiple-choice form is reported after the question was stored. */
  function WithOptions(q: Question, f: QuestionForm): (Question, Outcome) {
    if f.kind == MultipleChoice then
      if f.optionA == [] || f.optionB == [] || f.optionC == [] || f.optionD == [] then (q, Failed(MissingOptions))
      else (q.(options := Some([f.optionA, f.optionB, f.optionC, f.optionD]), correctAnswer := Some(f.correct)), Done)
    else (q.(options := None, correctAnswer := None), Done)
  }

  /** `saveQuestion`: `editing` is `editingQuestionId` (0 and null both mean
      a new question), `newId` the `Date.now()` id of a new question. */
  function SaveQuestion(qs: seq<Question>, editing: Option<int>, newId: int, form: QuestionForm)
    : (seq<Question>, Outcome)
  {
    SaveTrimmedQuestion(qs, editing, newId, TrimForm(form))
  }

  function SaveTrimmedQuestion(qs: seq<Question>, editing: Option<int>, newId: int, f: QuestionForm)
    : (seq<Question>, Outcome)
  {
    if f.text == [] then (qs, Failed(MissingFields))
    else if editing.Some? && editing.value != 0 then
      match FindQuestion(qs, editing.value)
      case None => (qs, Failed(QuestionNotFound))
      case Some(i) =>
        var (q, out) := WithOptions(WithForm(qs[i], f), f);
        (qs[i := q], out)
    else
      var made := WithForm(Question(newId, f.kind, "", None, None, [], "", "", "", ""), f);
      var (q, out) := WithOptions(made, f);
      (qs + [q], out)
  }

  /** On a trimmed form: a blank text changes nothing; an edited question
      keeps its id and place, and a new one is appended with the new id; a
      complete multiple-choice form stores its options, and any other kind
      drops them. */
  lemma SaveQuestionSpec(qs: seq<Question>, editing: Option<int>, newId: int, f: QuestionForm)
    ensures var (r, out) := SaveTrimmedQuestion(qs, editing, newId, f);
      && (f.text == [] ==> r == qs && out == Failed(MissingFields))
      && (out == Failed(QuestionNotFound) ==> r == qs)
      && (f.text != [] && out != Failed(QuestionNotFound) ==>
            exists i :: 0 <= i < |r| && r[i].text == f.text && r[i].kind == f.kind
              && (if editing.Some? && editing.value != 0
                  then |r| == |qs| && r[i].id == qs[i].id == editing.value && r == qs[i := r[i]]
                  else |r| == |qs| + 1 && i == |qs| && r[i].id == newId && r[..|qs|] == qs)
              && (out == Done && f.kind == MultipleChoice ==>
                    r[i].options == Some([f.optionA, f.optionB, f.optionC, f.optionD])
                    && r[i].correctAnswer == Some(f.correct))
              && (f.kind != MultipleChoice ==> r[i].options.None? && r[i].correctAnswer.None? && out == Done))
  {
    if f.text != [] {
      if editing.Some? && editing.value != 0 {
        match FindQuestion(qs, editing.value)
        case None =>
        case Some(i) =>
          var (q, out) := WithOptions(WithForm(qs[i], f), f);
          assert SaveTrimmedQuestion(qs, editing, newId, f).0[i] == q;
      } else {
        var made := WithForm(Question(newId, f.kind, "", None, None, [], "", "", "", ""), f);
        var (q, out) := WithOptions(made, f);
        assert SaveTrimmedQuestion(qs, editing, newId, f).0[|qs|] == q;
      }
    }
  }

  /** A new multiple-choice question with a blank option is reported as an
      error but stays in the catalog, without options. */
  lemma SaveQuestionStoresBeforeValidating(qs: seq<Question>, newId: int, f: QuestionForm)
    requires f.text != [] && f.kind == MultipleChoice && f.optionA == []
    ensures var (r, out) := SaveTrimmedQuestion(qs, None, newId, f);
      && out == Failed(MissingOptions)
      && r[..|qs|] == qs
      && r[|qs|].id == newId && r[|qs|].options.None? && r[|qs|].text == f.text
  {
  }

  /** `saveTest` (app.js:758-778): `duration` is `parseInt` of the field
      (None for NaN); every selected id must name a catalog question. */
  function SaveTest(tests: seq<Test>, qs: seq<Question>, nameInput: string, duration: Option<int>,
                    selected: seq<int>, newId: int, now: int): Result<seq<Test>>
  {
    SaveTrimmedTest(tests, qs, Trim(nameInput), duration, selected, newId, now)
  }

  /** `saveTest` once the name is trimmed: a new test is appended with a
      snapshot of the selected questions, or the reason it is not. */
  function SaveTrimmedTest(tests: seq<Test>, qs: seq<Question>, name: string, duration: Option<int>,
                           selected: seq<int>, newId: int, now: int): (r: Result<seq<Test>>)
    ensures r.Ok? ==> |r.value| == |tests| + 1 && r.value[..|tests|] == tests
    ensures r.Ok? <==> name != [] && duration.Some? && duration.value != 0 && selected != []
                       && forall i :: 0 <= i < |selected| ==> FindQuestion(qs, selected[i]).Some?
    ensures r.Ok? ==> var t := r.value[|tests|];
      t.id == newId && t.name == name && t.duration == duration.value && t.assignedStudents == []
      && |t.questions| == |selected|
      && forall i :: 0 <= i < |selected| ==> t.questions[i] in qs && t.questions[i].id == selected[i]
    ensures r == Err(MissingFields) <==> name == [] || duration.None? || duration.value == 0 || selected == []
  {
    if name == [] || duration.None? || duration.value == 0 || selected == [] then Err(MissingFields)
    else match Snapshot(qs, selected)
      case None => Err(QuestionNotFound)
      case Some(snap) => Ok(tests + [Test(newId, name, duration.value, snap, [], now)])
  }

  /** The catalog question of each selected id, in selection order; None
      when an id names no question (`JSON.parse(undefined)` throws). */
  function Snapshot(qs: seq<Question>, ids: seq<int>): (r: Option<seq<Question>>)
    ensures r.Some? ==> |r.value| == |ids|
    ensures r.Some? ==> forall i :: 0 <= i < |ids| ==> r.value[i] in qs && r.value[i].id == ids[i]
    ensures r.None? <==> exists i :: 0 <= i < |ids| && FindQuestion(qs, ids[i]).None?
  {
    if ids == [] then Some([])
    else match FindQuestion(qs, ids[0])
      case None => None
      case Some(k) =>
        match Snapshot(qs, ids[1..])
        case None => None
        case Some(rest) => Some([qs[k]] + rest)
  }

  /** `assignTestToStudents` (app.js:495-505): the selection replaces the
      assignment of the test the dialog was opened for. */
  function Assign(tests: seq<Test>, testId: int, selected: seq<string>): (r: seq<Test>)
    ensures |r| == |tests|
  {
    match FirstIndex((t: Test) => t.id == testId, tests)
    case None => tests
    case Some(i) => tests[i := tests[i].(assignedStudents := selected)]
  }

  /** The first test with the id, and no other. */
  predicate FirstWithId(tests: seq<Test>, testId: int, i: int) {
    0 <= i < |tests| && tests[i].id == testId && forall j :: 0 <= j < i ==> tests[j].id != testId
  }

  /** Assigning replaces the whole assignment of the first test with the id
      (it does not add to it) and leaves every other test as it was. */
  lemma AssignReplaces(tests: seq<Test>, testId: int, selected: seq<string>)
    ensures (forall i :: 0 <= i < |tests| ==> tests[i].id != testId) ==> Assign(tests, testId, selected) == tests
    ensures forall i :: FirstWithId(tests, testId, i) ==>
      && Assign(tests, testId, selected)[i] == tests[i].(assignedStudents := selected)
      && forall j :: 0 <= j < |tests| && j != i ==> Assign(tests, testId, selected)[j] == tests[j]
  {
    match FirstIndex((t: Test) => t.id == testId, tests)
    case None =>
    case Some(k) =>
      forall i | FirstWithId(tests, testId, i) ensures i == k {
      }
  }

  // ---------------------------------------------------------------------
  // saveStudent (app.js:558-575)

  datatype Roster = Roster(students: seq<Student>, subs: seq<Submission>, tests: seq<Test>)

  function StudentIds(students: seq<Student>): (r: seq<string>)
    ensures |r| == |students|
    ensures forall i :: 0 <= i < |r| ==> r[i] == students[i].id
  {
    seq(|students|, i requires 0 <= i < |students| => students[i].id)
  }

  function FindStudent(students: seq<Student>, id: string): Option<nat> {
    FirstIndex((s: Student) => s.id == id, students)
  }

  /** `editing` is the id the form was opened for, "" when adding. The id and
      name are trimmed; the password is taken as typed. */
  function SaveStudent(r: Roster, editing: string, idInput: string, nameInput: string, password: string)
    : Result<Roster>
  {
    SaveTrimmedStudent(r, editing, Trim(idInput), Trim(nameInput), password)
  }

  function SaveTrimmedStudent(r: Roster, editing: string, id: string, name: string, password: string)
    : Result<Roster>
  {
    if id == [] || name == [] || password == [] then Err(MissingFields)
    else if editing != "" then
      match FindStudent(r.students, editing)
      case None => Err(StudentNotFound)
      case Some(i) =>
        if editing != id then
          if FindStudent(r.students, id).Some? then Err(DuplicateId)
          else Ok(Roster(r.students[i := Student(id, name, password)],
                         RenameSubmissions(r.subs, editing, id),
                         RenameInTests(r.tests, editing, id)))
        else Ok(r.(students := r.students[i := Student(id, name, password)]))
    else if FindStudent(r.students, id).Some? then Err(DuplicateId)
    else Ok(r.(students := r.students + [Student(id, name, password)]))
  }

  /** A blank field is refused; a new student is appended; an edit replaces
      the student the form was opened for; an id taken by another student
      is refused, and only such an id. */
  lemma SaveStudentSpec(r: Roster, editing: string, id: string, name: string, password: string)
    ensures var res := SaveTrimmedStudent(r, editing, id, name, password);
      && (res == Err(MissingFields) <==> id == [] || name == [] || password == [])
      && (res.Ok? && editing == "" ==>
            res.value == r.(students := r.students + [Student(id, name, password)]))
      && (res.Ok? && editing != "" ==>
            exists i :: 0 <= i < |r.students| && r.students[i].id == editing
              && res.value.students == r.students[i := Student(id, name, password)])
      && (res == Err(DuplicateId) ==> id != editing && FindStudent(r.students, id).Some?)
      && ((id != [] && name != [] && password != [] && id != editing && FindStudent(r.students, id).Some?
           && (editing == "" || FindStudent(r.students, editing).Some?))
          ==> res == Err(DuplicateId))
  {
  }

  lemma ReplaceKeepsDistinct(students: seq<Student>, i: nat, s: Student)
    requires i < |students| && Distinct(StudentIds(students))
    requires s.id == students[i].id || FindStudent(students, s.id).None?
    ensures Distinct(StudentIds(students[i := s]))
  {
    var ids := StudentIds(students[i := s]);
    forall a, b | 0 <= a < b < |ids| ensures ids[a] != ids[b] {
      assert StudentIds(students)[a] == students[a].id && StudentIds(students)[b] == students[b].id;
    }
  }

  lemma AppendKeepsDistinct(students: seq<Student>, s: Student)
    requires Distinct(StudentIds(students))
    requires FindStudent(students, s.id).None?
    ensures Distinct(StudentIds(students + [s]))
  {
    assert StudentIds(students + [s]) == StudentIds(students) + [s.id];
    AppendNewDistinct(StudentIds(students), s.id);
  }

  /** Student ids stay unique, and a rename leaves no reference to the old
      id. */
  lemma SaveStudentKeepsIdsDistinct(r: Roster, editing: string, id: string, name: string, password: string)
    requires Distinct(StudentIds(r.students))
    ensures var res := SaveTrimmedStudent(r, editing, id, name, password);
      res.Ok? ==> Distinct(StudentIds(res.value.students))
    ensures var res := SaveTrimmedStudent(r, editing, id, name, password);
      res.Ok? && editing != "" && editing != id ==>
        && (forall s :: s in res.value.subs ==> s.studentId != editing)
        && (forall t :: t in res.value.tests ==> editing !in t.assignedStudents)
  {
    var res := SaveTrimmedStudent(r, editing, id, name, password);
    if res.Ok? {
      var s := Student(id, name, password);
      if editing != "" {
        var i := FindStudent(r.students, editing).value;
        if editing != id {
          RenameLeavesNoOldId(r.subs, r.tests, editing, id);
        }
        ReplaceKeepsDistinct(r.students, i, s);
      } else {
        AppendKeepsDistinct(r.students, s);
      }
    }
  }
}
