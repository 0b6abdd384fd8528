/** The store itself: the global `data` record of app.js (app.js:18-25)
    with the session globals beside it (`currentTest`, `timeRemaining`,
    `timeExpired`, the interval handle, `selectedCategoryChip`), and the
    commands that change them. Each command ends in the state the matching
    function of module Commands, Session or Imports describes; the
    properties proved about those functions therefore hold of the store. */
module App {
  import opened Domain
  import opened Text
  import opened Csv
  import opened Scoring
  import opened Commands
  import opened Session
  import opened Imports

  class Store {
    var tests: seq<Test>
    var students: seq<Student>
    var questions: seq<Question>
    var submissions: seq<Submission>
    var categories: seq<string>
    /** `selectedCategoryChip`: "" shows every category. */
    var selectedCategory: string
    /** The test being taken or assigned; a copy of the record in `tests`. */
    var currentTest: Option<Test>
    var timeRemaining: int
    var timeExpired: bool
    /** Whether the countdown interval (`testTimer`) is set. */
    var timerRunning: bool

    /** Student ids and category names are never repeated. */
    ghost predicate Valid()
      reads this`students, this`categories
    {
      Distinct(StudentIds(students)) && Distinct(categories)
    }

    function Timer(): Clock
      reads this
    {
      Clock(timeRemaining, timeExpired, timerRunning)
    }

    constructor ()
      ensures Valid()
      ensures tests == [] && students == [] && questions == [] && submissions == [] && categories == []
      ensures selectedCategory == "" && currentTest == None
      ensures timeRemaining == 0 && !timeExpired && !timerRunning
    {
      tests, students, questions, submissions, categories := [], [], [], [], [];
      selectedCategory := "";
      currentTest := None;
      timeRemaining, timeExpired, timerRunning := 0, false, false;
    }

    // -------------------------------------------------------------------
    // Taking a test (app.js:858-958)

    /** `startTest`: an unknown id clears `currentTest` and starts nothing;
        otherwise the clock is armed with the test's minutes. Whether the
        student is assigned to the test is not checked. */
    method StartTest(testId: int) returns (out: Outcome)
      modifies this`currentTest, this`timeRemaining, this`timeExpired, this`timerRunning
      ensures var found := FirstIndex((t: Test) => t.id == testId, old(tests));
        && (found.None? ==> out == Failed(TestNotFound) && currentTest == None && Timer() == old(Timer()))
        && (found.Some? ==> out == Done && currentTest == Some(old(tests)[found.value])
                            && Timer() == Arm(old(tests)[found.value].duration))
    {
      var found := FirstIndex((t: Test) => t.id == testId, tests);
      if found.None? {
        currentTest := None;
        return Failed(TestNotFound);
      }
      var test := tests[found.value];
      currentTest := Some(test);
      timeRemaining := test.duration * 60;
      timeExpired := false;
      timerRunning := true;
      out := Done;
    }

    /** `submitTest(autoSubmit)`. `confirmed` is the answer to the confirm
        dialog (asked only when the student submits by hand), `inputs` the
        form's values, `subId` and `now` the `Date.now()` values. The timer
        is cleared first; without a test in progress nothing else happens. */
    method SubmitTest(autoSubmit: bool, confirmed: bool, studentId: string, inputs: seq<Option<string>>,
                      subId: int, now: int) returns (out: Outcome)
      modifies this`timerRunning, this`submissions
      ensures !autoSubmit && !confirmed ==> out == Failed(Cancelled) && submissions == old(submissions)
                                            && timerRunning == old(timerRunning)
      ensures (autoSubmit || confirmed) ==> !timerRunning
      ensures (autoSubmit || confirmed) && old(currentTest).None? ==>
        out == Failed(NoTestInProgress) && submissions == old(submissions)
      ensures (autoSubmit || confirmed) && old(currentTest).Some? ==>
        var t := old(currentTest).value;
        out == Done
        && submissions == AfterSubmit(old(submissions),
                                      Submission(subId, t.id, studentId, BuildAnswers(t.questions, inputs), now))
    {
      if !autoSubmit && !confirmed {
        return Failed(Cancelled);
      }
      timerRunning := false;
      if currentTest.None? {
        return Failed(NoTestInProgress);
      }
      var t := currentTest.value;
      var answers := BuildAnswers(t.questions, inputs);
      var sub := Submission(subId, t.id, studentId, answers, now);
      submissions := Filter(NotPair(sub.testId, sub.studentId), submissions);
      submissions := submissions + [sub];
      out := Done;
    }

    /** One run of the interval callback: the clock counts down, and on the
        tick that reaches zero it stops, is marked expired, and the test is
        submitted without confirmation. A cleared interval does nothing. */
    method Tick(studentId: string, inputs: seq<Option<string>>, subId: int, now: int) returns (fired: bool)
      modifies this`timeRemaining, this`timeExpired, this`timerRunning, this`submissions
      ensures (Timer(), fired) == Session.Tick(old(Timer()))
      ensures fired && old(currentTest).Some? ==>
        var t := old(currentTest).value;
        submissions == AfterSubmit(old(submissions),
                                   Submission(subId, t.id, studentId, BuildAnswers(t.questions, inputs), now))
      ensures !(fired && old(currentTest).Some?) ==> submissions == old(submissions)
    {
      fired := false;
      if !timerRunning {
        return;
      }
      timeRemaining := timeRemaining - 1;
      if timeRemaining <= 0 {
        timerRunning := false;
        timeRemaining := 0;
        timeExpired := true;
        var _ := SubmitTest(true, false, studentId, inputs, subId, now);
        fired := true;
      }
    }

    // -------------------------------------------------------------------
    // Reviewing (app.js:815-819)

    /** `gradeAnswer`: the first submission with the id, and in it the first
        answer for the question index, is marked reviewed with the verdict
        and the comment. */
    method GradeAnswer(submissionId: int, questionIndex: int, isCorrect: bool, comment: string)
      returns (out: Outcome)
      modifies this`submissions
      ensures match Grade(old(submissions), submissionId, questionIndex, isCorrect, comment)
        case Ok(subs) => out == Done && submissions == subs
        case Err(e) => out == Failed(e) && submissions == old(submissions)
    {
      var found := FirstIndex(HasId(submissionId), submissions);
      if found.None? {
        return Failed(SubmissionNotFound);
      }
      var i := found.value;
      var answers := submissions[i].answers;
      var k := FirstIndex(AtQuestion(questionIndex), answers);
      if k.None? {
        return Failed(AnswerNotFound);
      }
      var answer := answers[k.value].(reviewed := true, correct := isCorrect, comment := comment);
      submissions := submissions[i := submissions[i].(answers := answers[k.value := answer])];
      out := Done;
    }

    // -------------------------------------------------------------------
    // Deleting and resetting (app.js:506-514, 588-609, 726-734, 436-445)

    /** `deleteTest`: the test and exactly its submissions go. */
    method DeleteTest(confirmed: bool, testId: int) returns (out: Outcome)
      modifies this`tests, this`submissions
      ensures !confirmed ==> out == Failed(Cancelled) && tests == old(tests) && submissions == old(submissions)
      ensures confirmed ==> out == Done && tests == TestsWithout(old(tests), testId)
                            && submissions == SubmissionsWithoutTest(old(submissions), testId)
    {
      if !confirmed {
        return Failed(Cancelled);
      }
      tests := TestsWithout(tests, testId);
      submissions := SubmissionsWithoutTest(submissions, testId);
      out := Done;
    }

    /** `deleteStudent`: the student, their submissions and their place in
        every test's assignment go. */
    method DeleteStudent(confirmed: bool, studentId: string) returns (out: Outcome)
      requires Valid()
      modifies this`students, this`submissions, this`tests
      ensures Valid()
      ensures !confirmed ==> out == Failed(Cancelled) && students == old(students)
                             && submissions == old(submissions) && tests == old(tests)
      ensures confirmed ==> out == Done && students == StudentsWithout(old(students), studentId)
                            && submissions == SubmissionsWithoutStudent(old(submissions), studentId)
                            && tests == UnassignAll(old(tests), studentId)
    {
      if !confirmed {
        return Failed(Cancelled);
      }
      StudentsWithoutKeepsDistinct(students, studentId);
      students := StudentsWithout(students, studentId);
      submissions := SubmissionsWithoutStudent(submissions, studentId);
      UnassignEverywhere(studentId);
      out := Done;
    }

    /** `deleteStudent`'s pass over `data.tests`. */
    method UnassignEverywhere(studentId: string)
      modifies this`tests
      ensures tests == UnassignAll(old(tests), studentId)
    {
      var i := 0;
      while i < |tests|
        invariant 0 <= i <= |tests| == |old(tests)|
        invariant forall j :: 0 <= j < i ==> tests[j] == Unassign(old(tests)[j], studentId)
        invariant forall j :: i <= j < |tests| ==> tests[j] == old(tests)[j]
      {
        tests := tests[i := Unassign(tests[i], studentId)];
        i := i + 1;
      }
    }

    /** `resetStudent`: the student's submissions go; the student stays. */
    method ResetStudent(confirmed: bool, studentId: string) returns (out: Outcome)
      modifies this`submissions
      ensures !confirmed ==> out == Failed(Cancelled) && submissions == old(submissions)
      ensures confirmed ==> out == Done && submissions == SubmissionsWithoutStudent(old(submissions), studentId)
    {
      if !confirmed {
        return Failed(Cancelled);
      }
      submissions := SubmissionsWithoutStudent(submissions, studentId);
      out := Done;
    }

    /** `deleteQuestion`: the question leaves the catalog and every test's
        snapshot. */
    method DeleteQuestion(confirmed: bool, questionId: int) returns (out: Outcome)
      modifies this`questions, this`tests
      ensures !confirmed ==> out == Failed(Cancelled) && questions == old(questions) && tests == old(tests)
      ensures confirmed ==> out == Done && questions == QuestionsWithout(old(questions), questionId)
                            && |tests| == |old(tests)|
                            && forall j :: 0 <= j < |tests| ==> tests[j] == StripQuestion(old(tests)[j], questionId)
    {
      if !confirmed {
        return Failed(Cancelled);
      }
      questions := QuestionsWithout(questions, questionId);
      var i := 0;
      while i < |tests|
        modifies this`tests
        invariant 0 <= i <= |tests| == |old(tests)|
        invariant forall j :: 0 <= j < i ==> tests[j] == StripQuestion(old(tests)[j], questionId)
        invariant forall j :: i <= j < |tests| ==> tests[j] == old(tests)[j]
      {
        tests := tests[i := StripQuestion(tests[i], questionId)];
        i := i + 1;
      }
      out := Done;
    }

    /** `deleteCategory`: the category leaves the list and every question,
        and the chip filter falls back to all categories if it showed it. */
    method DeleteCategory(confirmed: bool, cat: string) returns (out: Outcome)
      requires Valid()
      modifies this`categories, this`questions, this`selectedCategory
      ensures Valid()
      ensures !confirmed ==> out == Failed(Cancelled) && categories == old(categories)
                             && questions == old(questions) && selectedCategory == old(selectedCategory)
      ensures confirmed ==> out == Done && categories == CategoriesWithout(old(categories), cat)
                            && selectedCategory == ChipAfterDelete(old(selectedCategory), cat)
                            && |questions| == |old(questions)|
                            && forall j :: 0 <= j < |questions| ==> questions[j] == StripCategory(old(questions)[j], cat)
    {
      if !confirmed {
        return Failed(Cancelled);
      }
      DeleteCategoryKeepsDistinct(categories, cat);
      categories := CategoriesWithout(categories, cat);
      var i := 0;
      while i < |questions|
        modifies this`questions
        invariant 0 <= i <= |questions| == |old(questions)|
        invariant forall j :: 0 <= j < i ==> questions[j] == StripCategory(old(questions)[j], cat)
        invariant forall j :: i <= j < |questions| ==> questions[j] == old(questions)[j]
      {
        questions := questions[i := StripCategory(questions[i], cat)];
        i := i + 1;
      }
      selectedCategory := ChipAfterDelete(selectedCategory, cat);
      out := Done;
    }

    // -------------------------------------------------------------------
    // Forms (app.js:414-426, 486, 495-505, 558-587, 643-670, 758-778)

    /** `submitAddCategory`. */
    method SubmitAddCategory(input: string) returns (out: Outcome)
      requires Valid()
      modifies this`categories
      ensures Valid()
      ensures match AddCategory(old(categories), input)
        case Ok(cats) => out == Done && categories == cats
        case Err(e) => out == Failed(e) && categories == old(categories)
    {
      out := AddNamedCategory(Trim(input));
    }

    /** `submitAddCategory` after the `.trim()`. */
    method AddNamedCategory(name: string) returns (out: Outcome)
      requires Valid()
      modifies this`categories
      ensures Valid()
      ensures match AddTrimmedCategory(old(categories), name)
        case Ok(cats) => out == Done && categories == cats
        case Err(e) => out == Failed(e) && categories == old(categories)
    {
      if name == [] {
        return Failed(EmptyCategory);
      }
      if name in categories {
        return Failed(DuplicateCategory);
      }
      AppendNewDistinct(categories, name);
      categories := categories + [name];
      out := Done;
    }

    /** `openAssignTestModal`: the test the assignment dialog is for. */
    method OpenAssignTestModal(testId: int)
      modifies this`currentTest
      ensures match FirstIndex((t: Test) => t.id == testId, tests)
        case None => currentTest == None
        case Some(i) => currentTest == Some(tests[i])
    {
      var found := FirstIndex((t: Test) => t.id == testId, tests);
      currentTest := if found.None? then None else Some(tests[found.value]);
    }

    /** `assignTestToStudents`: the selection becomes the assignment of the
        dialog's test, written through to the stored record. */
    method AssignTestToStudents(selected: seq<string>)
      modifies this`tests, this`currentTest
      ensures old(currentTest).None? ==> tests == old(tests) && currentTest == None
      ensures old(currentTest).Some? ==>
        && tests == Assign(old(tests), old(currentTest).value.id, selected)
        && currentTest == Some(old(currentTest).value.(assignedStudents := selected))
    {
      if currentTest.Some? {
        var t := currentTest.value;
        tests := Assign(tests, t.id, selected);
        currentTest := Some(t.(assignedStudents := selected));
      }
    }

    /** `saveStudent`; `editing` is the id the form was opened for, "" for
        a new student. A rename rewrites every submission and assignment
        that names the old id. */
    method SaveStudent(editing: string, idInput: string, nameInput: string, password: string)
      returns (out: Outcome)
      requires Valid()
      modifies this`students, this`submissions, this`tests
      ensures Valid()
      ensures match Commands.SaveStudent(Roster(old(students), old(submissions), old(tests)),
                                         editing, idInput, nameInput, password)
        case Ok(r) => out == Done && Roster(students, submissions, tests) == r
        case Err(e) => out == Failed(e) && students == old(students)
                       && submissions == old(submissions) && tests == old(tests)
    {
      out := SaveTrimmedStudent(editing, Trim(idInput), Trim(nameInput), password);
    }

    /** `saveStudent` after the `.trim()` of the id and name fields. */
    method SaveTrimmedStudent(editing: string, id: string, name: string, password: string)
      returns (out: Outcome)
      requires Valid()
      modifies this`students, this`submissions, this`tests
      ensures Valid()
      ensures match Commands.SaveTrimmedStudent(Roster(old(students), old(submissions), old(tests)),
                                                editing, id, name, password)
        case Ok(r) => out == Done && Roster(students, submissions, tests) == r
        case Err(e) => out == Failed(e) && students == old(students)
                       && submissions == old(submissions) && tests == old(tests)
    {
      SaveStudentKeepsIdsDistinct(Roster(students, submissions, tests), editing, id, name, password);
      if id == [] || name == [] || password == [] {
        return Failed(MissingFields);
      }
      if editing != "" {
        var found := FindStudent(students, editing);
        if found.None? {
          return Failed(StudentNotFound);
        }
        if editing != id {
          if FindStudent(students, id).Some? {
            return Failed(DuplicateId);
          }
          RenameStudent(editing, id);
        }
        students := students[found.value := Student(id, name, password)];
      } else {
        if FindStudent(students, id).Some? {
          return Failed(DuplicateId);
        }
        students := students + [Student(id, name, password)];
      }
      out := Done;
    }

    /** The two `forEach` passes of a rename. */
    method RenameStudent(from: string, to: string)
      modifies this`submissions, this`tests
      ensures submissions == RenameSubmissions(old(submissions), from, to)
      ensures tests == RenameInTests(old(tests), from, to)
    {
      var i := 0;
      while i < |submissions|
        modifies this`submissions
        invariant 0 <= i <= |submissions| == |old(submissions)|
        invariant forall j :: 0 <= j < i ==> submissions[j] == RenameSubmission(old(submissions)[j], from, to)
        invariant forall j :: i <= j < |submissions| ==> submissions[j] == old(submissions)[j]
      {
        if submissions[i].studentId == from {
          submissions := submissions[i := submissions[i].(studentId := to)];
        }
        i := i + 1;
      }
      i := 0;
      while i < |tests|
        modifies this`tests
        invariant 0 <= i <= |tests| == |old(tests)|
        invariant forall j :: 0 <= j < i ==> tests[j] == RenameAssigned(old(tests)[j], from, to)
        invariant forall j :: i <= j < |tests| ==> tests[j] == old(tests)[j]
      {
        tests := tests[i := RenameAssigned(tests[i], from, to)];
        i := i + 1;
      }
    }

    /** `saveQuestion`; `editing` is `editingQuestionId` (None or 0 for a new
        question) and `newId` the `Date.now()` id. The question is stored
        before the options are checked. */
    method SaveQuestion(editing: Option<int>, newId: int, form: QuestionForm) returns (out: Outcome)
      modifies this`questions
      ensures (questions, out) == Commands.SaveQuestion(old(questions), editing, newId, form)
    {
      out := SaveTrimmedQuestion(editing, newId, TrimForm(form));
    }

    /** `saveQuestion` after the `.trim()` of the form's fields. */
    method SaveTrimmedQuestion(editing: Option<int>, newId: int, f: QuestionForm) returns (out: Outcome)
      modifies this`questions
      ensures (questions, out) == Commands.SaveTrimmedQuestion(old(questions), editing, newId, f)
    {
      if f.text == [] {
        return Failed(MissingFields);
      }
      var i: nat;
      if editing.Some? && editing.value != 0 {
        var found := FindQuestion(questions, editing.value);
        if found.None? {
          return Failed(QuestionNotFound);
        }
        i := found.value;
        questions := questions[i := WithForm(questions[i], f)];
      } else {
        questions := questions + [WithForm(Question(newId, f.kind, "", None, None, [], "", "", "", ""), f)];
        i := |questions| - 1;
      }
      if f.kind == MultipleChoice {
        if f.optionA == [] || f.optionB == [] || f.optionC == [] || f.optionD == [] {
          return Failed(MissingOptions);
        }
        questions := questions[i := questions[i].(options := Some([f.optionA, f.optionB, f.optionC, f.optionD]),
                                                  correctAnswer := Some(f.correct))];
      } else {
        questions := questions[i := questions[i].(options := None, correctAnswer := None)];
      }
      out := Done;
      assert questions == if editing.Some? && editing.value != 0 then old(questions)[i := questions[i]]
                          else old(questions) + [questions[i]];
    }

    /** `saveTest`; `duration` is `parseInt` of the field, None for NaN. */
    method SaveTest(nameInput: string, duration: Option<int>, selected: seq<int>, newId: int, now: int)
      returns (out: Outcome)
      modifies this`tests
      ensures match Commands.SaveTest(old(tests), questions, nameInput, duration, selected, newId, now)
        case Ok(ts) => out == Done && tests == ts
        case Err(e) => out == Failed(e) && tests == old(tests)
    {
      var name := Trim(nameInput);
      if name == [] || duration.None? || duration.value == 0 || selected == [] {
        return Failed(MissingFields);
      }
      var snapshot := Snapshot(questions, selected);
      if snapshot.None? {
        return Failed(QuestionNotFound);
      }
      tests := tests + [Test(newId, name, duration.value, snapshot.value, [], now)];
      out := Done;
    }

    // -------------------------------------------------------------------
    // CSV import (app.js:1182-1230, 1247-1260)

    /** `importStudentsCSV` on the file's text, with the counts it reports. */
    method ImportStudentsCsv(text: string) returns (res: Result<Tally>)
      requires Valid()
      modifies this`students
      ensures Valid()
      ensures match ImportStudents(old(students), ParseCsvSpec(text))
        case Ok((ss, t)) => res == Ok(t) && students == ss
        case Err(e) => res == Err(e) && students == old(students)
    {
      var rows := ParseCsv(text);
      var cols := FindStudentColumns(rows);
      if cols.Err? {
        return Err(cols.error);
      }
      var tally := ImportStudentRows(rows, cols.value);
      res := Ok(tally);
    }

    /** The header checks of `importStudentsCSV`. */
    static method FindStudentColumns(rows: seq<seq<string>>) returns (cols: Result<StudentColumns>)
      ensures cols == StudentColumnsOf(rows)
    {
      if |rows| < 2 {
        return Err(EmptyCsv);
      }
      var keys := HeaderKeys(rows[0]);
      var idCol, nameCol := Column(keys, "id"), Column(keys, "name");
      if idCol.None? || nameCol.None? {
        return Err(MissingColumns);
      }
      cols := Ok(StudentColumns(idCol.value, nameCol.value, Column(keys, "password")));
    }

    /** The loop of `importStudentsCSV` over the rows after the header. */
    method ImportStudentRows(rows: seq<seq<string>>, cols: StudentColumns) returns (tally: Tally)
      requires Valid() && rows != []
      modifies this`students
      ensures Valid()
      ensures (students, tally) == StudentRows(old(students), ReadStudentRows(rows[1..], cols))
    {
      ghost var cells := ReadStudentRows(rows[1..], cols);
      tally := Tally(0, 0, 0);
      for r := 1 to |rows|
        invariant Valid()
        invariant (students, tally) == StudentRows(old(students), cells[..r - 1])
      {
        var c := ReadStudentRow(rows[r], cols);
        assert c == cells[r - 1];
        assert cells[..r][..r - 1] == cells[..r - 1];
        var o := ImportStudentRow(c);
        tally := tally.Bump(o);
      }
      assert cells[..|rows| - 1] == cells;
    }

    /** The body of the student import loop for one row. */
    method ImportStudentRow(c: StudentCells) returns (o: RowOutcome)
      requires Valid()
      modifies this`students
      ensures Valid()
      ensures (students, o) == ApplyStudent(old(students), c)
    {
      ApplyStudentSpec(students, c);
      if c.id == "" || c.name == "" {
        return Skipped;
      }
      var existing := FindStudent(students, c.id);
      if existing.Some? {
        var i := existing.value;
        students := students[i := Student(c.id, c.name, Or(c.password, Or(students[i].password, "pass123")))];
        o := Updated;
      } else {
        students := students + [Student(c.id, c.name, Or(c.password, "pass123"))];
        o := Added;
      }
    }

    /** `importQuestionsCSV` on the file's text, with the counts it reports;
        see `ReadQuestionRows` for `decodeOptions` and `freshIds`. */
    method ImportQuestionsCsv(text: string, decodeOptions: string -> Option<seq<string>>, freshIds: nat -> int)
      returns (res: Result<Tally>)
      requires Valid()
      modifies this`questions, this`categories
      ensures Valid()
      ensures match ImportQuestions(old(questions), old(categories), ParseCsvSpec(text), decodeOptions, freshIds)
        case Ok((qs, cats, t)) => res == Ok(t) && questions == qs && categories == cats
        case Err(e) => res == Err(e) && questions == old(questions) && categories == old(categories)
    {
      var rows := ParseCsv(text);
      if |rows| < 1 {
        return Err(EmptyCsv);
      }
      var tally := ImportQuestionRows(rows, decodeOptions, freshIds);
      res := Ok(tally);
    }

    /** The loop of `importQuestionsCSV` over the rows after the header; the
        row at file position r gets the fresh id `freshIds(r)`. */
    method ImportQuestionRows(rows: seq<seq<string>>, decodeOptions: string -> Option<seq<string>>,
                              freshIds: nat -> int) returns (tally: Tally)
      requires Valid() && rows != []
      modifies this`questions, this`categories
      ensures Valid()
      ensures (questions, categories, tally)
           == QuestionRows(old(questions), old(categories), ReadQuestionRows(rows[0], rows[1..], decodeOptions, freshIds))
    {
      ghost var fields := ReadQuestionRows(rows[0], rows[1..], decodeOptions, freshIds);
      tally := Tally(0, 0, 0);
      for r := 1 to |rows|
        invariant (questions, categories, tally) == QuestionRows(old(questions), old(categories), fields[..r - 1])
      {
        var f := ReadQuestionRow(rows[0], rows[r], decodeOptions, freshIds(r));
        assert f == fields[r - 1];
        assert fields[..r][..r - 1] == fields[..r - 1];
        var o := ImportQuestionRow(f);
        tally := tally.Bump(o);
      }
      assert fields[..|rows| - 1] == fields;
      QuestionRowsDistinct(old(questions), old(categories), fields);
    }

    /** The body of the question import loop for one row. */
    method ImportQuestionRow(r: QuestionRowFields) returns (o: RowOutcome)
      modifies this`questions, this`categories
      ensures (questions, categories, o) == ApplyQuestion(old(questions), old(categories), r)
    {
      if r.kindTag == "" || r.text == "" {
        return Skipped;
      }
      var kind := KindOf(Lower(r.kindTag));
      var existing := if r.idStr != "" then FindById(questions, r.idStr) else None;
      if existing.Some? {
        var i := existing.value;
        var q := questions[i].(kind := kind, text := r.text, difficulty := r.difficulty, reference := r.reference,
                               categories := r.categories, imageUrl := r.imageUrl, code := r.code);
        if kind == MultipleChoice {
          if Usable(r.options) {
            q := q.(options := r.options);
          }
          if r.correct != "" {
            q := q.(correctAnswer := Some(r.correct));
          }
        } else {
          q := q.(options := None, correctAnswer := None);
        }
        questions := questions[i := q];
        o := Updated;
      } else {
        var id := if r.idStr != "" && ParseDecimal(r.idStr).Some? then ParseDecimal(r.idStr).value else r.freshId;
        var q := Question(id, kind, r.text, None, None, r.categories, r.difficulty, r.reference, r.imageUrl, r.code);
        if kind == MultipleChoice {
          if Usable(r.options) {
            q := q.(options := r.options);
          } else if r.optionA != "" && r.optionB != "" && r.optionC != "" && r.optionD != "" {
            q := q.(options := Some([r.optionA, r.optionB, r.optionC, r.optionD]));
          } else {
            return Skipped;
          }
          if r.correct != "" {
            q := q.(correctAnswer := Some(r.correct));
          } else {
            return Skipped;
          }
        }
        questions := questions + [q];
        o := Added;
      }
      AddNewCategories(r.categories);
    }

    /** `categories.forEach(c => { if (c && !data.categories.includes(c))
        data.categories.push(c); })`. */
    method AddNewCategories(found: seq<string>)
      modifies this`categories
      ensures categories == AddCategories(old(categories), found)
    {
      for k := 0 to |found|
        invariant categories == AddCategories(old(categories), found[..k])
      {
        assert found[..k + 1][..k] == found[..k];
        if found[k] != "" && found[k] !in categories {
          categories := categories + [found[k]];
        }
      }
      assert found[..|found|] == found;
    }
  }
}
