/** Scores and counts computed from submissions: the pending-review count of
    the dashboards, the per-submission percentages of the student overview,
    and the per-test result rows of the results dialog and its CSV export. */
module Scoring {
  import opened Domain
  import opened Text
  import opened Csv

  // ---------------------------------------------------------------------
  // Answer classes

  predicate IsMc(a: Answer) { a.kind == MultipleChoice }
  predicate IsLong(a: Answer) { a.kind == LongAnswer }
  /** A multiple-choice answer scored correct when it was submitted. */
  predicate IsMcCorrect(a: Answer) { IsMc(a) && a.correct }
  /** A long answer counts only once a reviewer marked it correct. */
  predicate IsLongCorrect(a: Answer) { IsLong(a) && a.reviewed && a.correct }
  predicate IsLongPending(a: Answer) { IsLong(a) && !a.reviewed }

  predicate IsMcQuestion(q: Question) { q.kind == MultipleChoice }
  predicate IsLongQuestion(q: Question) { q.kind == LongAnswer }

  /** A submission waiting for review: some long answer is not reviewed
      (app.js:249). */
  predicate HasPending(s: Submission) {
    exists k :: 0 <= k < |s.answers| && IsLongPending(s.answers[k])
  }

  lemma HasPendingIff(s: Submission)
    ensures HasPending(s) <==> Count(IsLongPending, s.answers) > 0
  {
  }

  /** The number shown as "Pending Reviews" on the admin dashboard. */
  function PendingCount(subs: seq<Submission>): (n: nat)
    ensures n <= |subs|
    ensures n == 0 <==> forall i :: 0 <= i < |subs| ==> !HasPending(subs[i])
  {
    Count(HasPending, subs)
  }

  // ---------------------------------------------------------------------
  // Math.round on a non-negative ratio

  /** `Math.round(n / d)`: the integer nearest to n/d, halves rounded up. */
  function RoundHalfUp(n: nat, d: nat): (r: nat)
    requires d > 0
    ensures (2 * r - 1) * d <= 2 * n < (2 * r + 1) * d
  {
    var q := (2 * n + d) / (2 * d);
    DivBounds(2 * n + d, 2 * d);
    q
  }

  lemma DivBounds(a: nat, b: nat)
    requires b > 0
    ensures (a / b) * b <= a < (a / b) * b + b
  {
  }

  /** A ratio at most k rounds to at most k. */
  lemma RoundAtMost(n: nat, d: nat, k: nat)
    requires d > 0 && n <= k * d
    ensures RoundHalfUp(n, d) <= k
  {
    var r := RoundHalfUp(n, d);
    if r > k {
      assert (2 * r - 1) * d >= (2 * k + 1) * d by {
        MulMono(2 * k + 1, 2 * r - 1, d);
      }
      assert false;
    }
  }

  /** A ratio at least k rounds to at least k. */
  lemma RoundAtLeast(n: nat, d: nat, k: nat)
    requires d > 0 && k * d <= n
    ensures k <= RoundHalfUp(n, d)
  {
    var r := RoundHalfUp(n, d);
    if r < k {
      assert (2 * r + 1) * d <= (2 * k - 1) * d by {
        MulMono(2 * r + 1, 2 * k - 1, d);
      }
      assert false;
    }
  }

  lemma MulMono(a: int, b: int, d: nat)
    requires a <= b
    ensures a * d <= b * d
  {
  }

  /** `Math.round((c / t) * 100)` for a count c out of t, or 0 when t is 0. */
  function Percent(c: nat, t: nat): (r: nat)
    requires c <= t
    ensures r <= 100
    ensures t > 0 && c == t ==> r == 100
    ensures c == 0 ==> r == 0
  {
    if t == 0 then 0
    else
      RoundAtMost(100 * c, t, 100);
      if c == t then RoundAtLeast(100 * c, t, 100); RoundHalfUp(100 * c, t)
      else RoundHalfUp(100 * c, t)
  }

  // ---------------------------------------------------------------------
  // The percentages of one submission (app.js:289-303)

  function McPercent(answers: seq<Answer>): (r: nat)
    ensures r <= 100
  {
    CountMono(IsMcCorrect, IsMc, answers);
    Percent(Count(IsMcCorrect, answers), Count(IsMc, answers))
  }

  function LongPercent(answers: seq<Answer>): (r: nat)
    ensures r <= 100
  {
    CountMono(IsLongCorrect, IsLong, answers);
    Percent(Count(IsLongCorrect, answers), Count(IsLong, answers))
  }

  /** The mean of the two percentages when the submission has a long answer,
      the multiple-choice percentage otherwise, rounded once more. */
  function TotalPercent(answers: seq<Answer>): nat {
    var hasLong := Count(IsLong, answers) > 0;
    if hasLong then RoundHalfUp(McPercent(answers) + LongPercent(answers), 2)
    else RoundHalfUp(McPercent(answers), 1)
  }

  /** The total lies between the two part scores, and is the multiple-choice
      score alone when there is no long answer; so it too is at most 100. */
  lemma TotalPercentBounds(answers: seq<Answer>)
    ensures Count(IsLong, answers) == 0 ==> TotalPercent(answers) == McPercent(answers)
    ensures Count(IsLong, answers) > 0 ==>
      Min(McPercent(answers), LongPercent(answers)) <= TotalPercent(answers)
      <= Max(McPercent(answers), LongPercent(answers))
    ensures TotalPercent(answers) <= 100
  {
    var m := McPercent(answers);
    var l := LongPercent(answers);
    if Count(IsLong, answers) == 0 {
      RoundAtMost(m, 1, m);
      RoundAtLeast(m, 1, m);
    } else {
      RoundAtMost(m + l, 2, Max(m, l));
      RoundAtLeast(m + l, 2, Min(m, l));
    }
  }

  function Min(a: nat, b: nat): nat { if a <= b then a else b }
  function Max(a: nat, b: nat): nat { if a <= b then b else a }

  /** Two of three multiple-choice answers right and one of two long answers
      accepted score 67, 50 and 59. */
  lemma ScoreExample()
    ensures Percent(2, 3) == 67 && Percent(1, 2) == 50
    ensures RoundHalfUp(67 + 50, 2) == 59
  {
    assert RoundHalfUp(200, 3) == 403 / 6 == 67;
  }

  // ---------------------------------------------------------------------
  // A student's overview (app.js:282-306)

  function Sum(xs: seq<nat>): nat {
    if xs == [] then 0 else xs[0] + Sum(xs[1..])
  }

  lemma {:induction false} SumAtMost(xs: seq<nat>, k: nat)
    requires forall i :: 0 <= i < |xs| ==> xs[i] <= k
    ensures Sum(xs) <= k * |xs|
  {
    if xs != [] {
      SumAtMost(xs[1..], k);
    }
  }

  /** The rounded mean of the scores, 0 for no scores. */
  function Average(xs: seq<nat>): nat {
    if xs == [] then 0 else RoundHalfUp(Sum(xs), |xs|)
  }

  lemma AverageAtMost(xs: seq<nat>, k: nat)
    requires forall i :: 0 <= i < |xs| ==> xs[i] <= k
    ensures Average(xs) <= k
  {
    if xs != [] {
      SumAtMost(xs, k);
      RoundAtMost(Sum(xs), |xs|, k);
    }
  }

  function SubmissionsOf(subs: seq<Submission>, studentId: string): (r: seq<Submission>)
    ensures forall s :: s in r <==> s in subs && s.studentId == studentId
  {
    Filter((s: Submission) => s.studentId == studentId, subs)
  }

  function TotalScores(subs: seq<Submission>): (r: seq<nat>)
    ensures |r| == |subs|
  {
    seq(|subs|, i requires 0 <= i < |subs| => TotalPercent(subs[i].answers))
  }

  /** "Average score across n submission(s)". Sorting by submission time does
      not change a mean, so the order is not modelled. */
  function StudentAverage(subs: seq<Submission>, studentId: string): nat {
    Average(TotalScores(SubmissionsOf(subs, studentId)))
  }

  lemma StudentAverageAtMost100(subs: seq<Submission>, studentId: string)
    ensures StudentAverage(subs, studentId) <= 100
  {
    var scores := TotalScores(SubmissionsOf(subs, studentId));
    forall i | 0 <= i < |scores| ensures scores[i] <= 100 {
      TotalPercentBounds(SubmissionsOf(subs, studentId)[i].answers);
    }
    AverageAtMost(scores, 100);
  }

  /** "Pending long-answer reviews": unreviewed long answers summed over the
      student's submissions. */
  function PendingLongOf(subs: seq<Submission>): nat {
    if subs == [] then 0
    else Count(IsLongPending, subs[0].answers) + PendingLongOf(subs[1..])
  }

  /** A student has pending long answers exactly when some submission of theirs
      is counted by the dashboard's pending count. */
  lemma {:induction false} PendingLongIff(subs: seq<Submission>)
    ensures PendingLongOf(subs) > 0 <==> PendingCount(subs) > 0
  {
    if subs != [] {
      HasPendingIff(subs[0]);
      PendingLongIff(subs[1..]);
    }
  }

  // ---------------------------------------------------------------------
  // Result rows of one test (app.js:1028-1035, 1066-1073)

  datatype Status = NotStarted | Completed

  datatype ResultRow = ResultRow(
    studentId: string,
    name: string,
    status: Status,
    mcCorrect: nat,
    mcTotal: nat,
    longCorrect: nat,
    longTotal: nat,
    longPending: nat)

  /** `s.testId === testId && s.studentId === studentId`. */
  function IsPair(testId: int, studentId: string): Submission -> bool {
    (s: Submission) => s.testId == testId && s.studentId == studentId
  }

  /** The first submission of the student for the test. */
  function FindSubmission(subs: seq<Submission>, testId: int, studentId: string): (r: Option<Submission>)
    ensures r.Some? ==> r.value in subs && r.value.testId == testId && r.value.studentId == studentId
    ensures r.None? <==> forall i :: 0 <= i < |subs| ==> !IsPair(testId, studentId)(subs[i])
  {
    match FirstIndex(IsPair(testId, studentId), subs)
    case None => None
    case Some(i) => Some(subs[i])
  }

  /** The student's name, or "" when no student has the id. */
  function StudentName(students: seq<Student>, studentId: string): (r: string)
    ensures (forall i :: 0 <= i < |students| ==> students[i].id != studentId) ==> r == ""
    ensures r != "" ==> exists i :: 0 <= i < |students| && students[i].id == studentId && students[i].name == r
  {
    match FirstIndex((s: Student) => s.id == studentId, students)
    case None => ""
    case Some(i) => students[i].name
  }

  function Row(test: Test, students: seq<Student>, subs: seq<Submission>, studentId: string): ResultRow {
    var name := StudentName(students, studentId);
    match FindSubmission(subs, test.id, studentId)
    case None =>
      ResultRow(studentId, name, NotStarted, 0, Count(IsMcQuestion, test.questions),
                0, Count(IsLongQuestion, test.questions), 0)
    case Some(sub) =>
      ResultRow(studentId, name, Completed,
                Count(IsMcCorrect, sub.answers), Count(IsMc, sub.answers),
                Count(IsLongCorrect, sub.answers), Count(IsLong, sub.answers),
                Count(IsLongPending, sub.answers))
  }

  /** One row per assigned student, in assignment order. */
  function ResultRows(test: Test, students: seq<Student>, subs: seq<Submission>): (rows: seq<ResultRow>)
    ensures |rows| == |test.assignedStudents|
    ensures forall i :: 0 <= i < |rows| ==> rows[i].studentId == test.assignedStudents[i]
    ensures forall i :: 0 <= i < |rows| ==> rows[i] == Row(test, students, subs, test.assignedStudents[i])
  {
    seq(|test.assignedStudents|, i requires 0 <= i < |test.assignedStudents| =>
      Row(test, students, subs, test.assignedStudents[i]))
  }

  /** A row is "Completed" exactly when the student has a submission for the
      test, and then counts that submission's answers; a "Not Started" row
      reports the test's questions of each kind with nothing correct or
      pending. Correct counts never exceed their totals, and accepted plus
      pending long answers never exceed the long answers. */
  lemma RowFacts(test: Test, students: seq<Student>, subs: seq<Submission>, studentId: string)
    ensures var r := Row(test, students, subs, studentId);
      && r.studentId == studentId && r.name == StudentName(students, studentId)
      && (r.status == Completed <==> exists i :: 0 <= i < |subs| && IsPair(test.id, studentId)(subs[i]))
      && (r.status == NotStarted ==>
            && r.mcTotal == Count(IsMcQuestion, test.questions)
            && r.longTotal == Count(IsLongQuestion, test.questions)
            && r.mcCorrect == 0 && r.longCorrect == 0 && r.longPending == 0)
      && (r.status == Completed ==>
            exists sub :: sub in subs && IsPair(test.id, studentId)(sub)
              && r.mcCorrect == Count(IsMcCorrect, sub.answers) && r.mcTotal == Count(IsMc, sub.answers)
              && r.longCorrect == Count(IsLongCorrect, sub.answers) && r.longTotal == Count(IsLong, sub.answers)
              && r.longPending == Count(IsLongPending, sub.answers))
      && r.mcCorrect <= r.mcTotal
      && r.longCorrect + r.longPending <= r.longTotal
  {
    match FindSubmission(subs, test.id, studentId)
    case None =>
    case Some(sub) =>
      CountMono(IsMcCorrect, IsMc, sub.answers);
      CountDisjoint(IsLongCorrect, IsLongPending, IsLong, sub.answers);
  }

  // ---------------------------------------------------------------------
  // The results export (app.js:1063-1074)

  const ResultsHeader: seq<string> :=
    ["studentId", "name", "status", "mcCorrect", "mcTotal", "longCorrect", "longTotal", "longPending"]

  function StatusText(s: Status): string {
    match s
    case NotStarted => "Not Started"
    case Completed => "Completed"
  }

  /** The row's cells as `String(c)` writes them. */
  function RowFields(r: ResultRow): (f: seq<string>)
    ensures |f| == |ResultsHeader|
  {
    [r.studentId, r.name, StatusText(r.status), NatToString(r.mcCorrect), NatToString(r.mcTotal),
     NatToString(r.longCorrect), NatToString(r.longTotal), NatToString(r.longPending)]
  }

  function ResultsCsv(test: Test, students: seq<Student>, subs: seq<Submission>): string {
    CsvText(ResultsTable(ResultRows(test, students, subs)))
  }

  /** The header and one line of fields per result row. */
  function ResultsTable(rows: seq<ResultRow>): (t: seq<seq<string>>)
    ensures |t| == |rows| + 1 && t[0] == ResultsHeader
    ensures forall i :: 0 <= i < |rows| ==> t[i + 1] == RowFields(rows[i])
  {
    [ResultsHeader] + seq(|rows|, i requires 0 <= i < |rows| => RowFields(rows[i]))
  }

  lemma DigitsNoLineBreak(n: nat)
    ensures NoLineBreak(NatToString(n))
  {
    var s := NatToString(n);
    forall k | 0 <= k < |s| ensures s[k] != '\n' {
      assert IsDigit(s[k]);
    }
  }

  lemma RowFieldsQuotable(r: ResultRow)
    requires NoLineBreak(r.studentId) && NoLineBreak(r.name)
    ensures QuotableRow(RowFields(r))
  {
    DigitsNoLineBreak(r.mcCorrect);
    DigitsNoLineBreak(r.mcTotal);
    DigitsNoLineBreak(r.longCorrect);
    DigitsNoLineBreak(r.longTotal);
    DigitsNoLineBreak(r.longPending);
    var f := RowFields(r);
    forall j | 0 <= j < |f| ensures NoLineBreak(f[j]) {
    }
  }

  /** The name of a row is one of the students' names, or "". */
  lemma RowNameNoLineBreak(test: Test, students: seq<Student>, subs: seq<Submission>, studentId: string)
    requires forall i :: 0 <= i < |students| ==> NoLineBreak(students[i].name)
    ensures NoLineBreak(Row(test, students, subs, studentId).name)
  {
    var name := StudentName(students, studentId);
    if name != "" {
      var j :| 0 <= j < |students| && students[j].id == studentId && students[j].name == name;
    }
  }

  /** Reading an exported results file back gives the header and, per
      assigned student, the id, name, status and the counts written in
      decimal, as long as no id or name holds a line feed. */
  lemma ResultsCsvRoundTrip(test: Test, students: seq<Student>, subs: seq<Submission>)
    requires forall i :: 0 <= i < |test.assignedStudents| ==> NoLineBreak(test.assignedStudents[i])
    requires forall i :: 0 <= i < |students| ==> NoLineBreak(students[i].name)
    ensures var rows := ResultRows(test, students, subs);
      var parsed := ParseCsvSpec(ResultsCsv(test, students, subs));
      && |parsed| == |rows| + 1
      && parsed[0] == ResultsHeader
      && forall i :: 0 <= i < |rows| ==> parsed[i + 1] == RowFields(rows[i])
  {
    ResultsParse(test, students, subs);
  }

  /** The exported results file parses back as the table it wrote. */
  lemma ResultsParse(test: Test, students: seq<Student>, subs: seq<Submission>)
    requires forall i :: 0 <= i < |test.assignedStudents| ==> NoLineBreak(test.assignedStudents[i])
    requires forall i :: 0 <= i < |students| ==> NoLineBreak(students[i].name)
    ensures ParseCsvSpec(ResultsCsv(test, students, subs)) == ResultsTable(ResultRows(test, students, subs))
  {
    var rows := ResultRows(test, students, subs);
    var fields := seq(|rows|, i requires 0 <= i < |rows| => RowFields(rows[i]));
    ResultFieldsQuotable(test, students, subs);
    QuotableTable(ResultsHeader, fields);
    CsvRoundTrip([ResultsHeader] + fields);
  }

  /** Every exported result row can be quoted. */
  lemma ResultFieldsQuotable(test: Test, students: seq<Student>, subs: seq<Submission>)
    requires forall i :: 0 <= i < |test.assignedStudents| ==> NoLineBreak(test.assignedStudents[i])
    requires forall i :: 0 <= i < |students| ==> NoLineBreak(students[i].name)
    ensures var rows := ResultRows(test, students, subs);
      forall i :: 0 <= i < |rows| ==> QuotableRow(RowFields(rows[i]))
  {
    var rows := ResultRows(test, students, subs);
    forall i | 0 <= i < |rows| ensures QuotableRow(RowFields(rows[i])) {
      RowNameNoLineBreak(test, students, subs, test.assignedStudents[i]);
      RowFieldsQuotable(rows[i]);
    }
  }

  /** The counts in an exported row read back as the row's numbers. */
  lemma RowFieldsDecode(r: ResultRow)
    ensures var f := RowFields(r);
      && ParseDecimal(f[3]) == Some(r.mcCorrect)
      && ParseDecimal(f[4]) == Some(r.mcTotal)
      && ParseDecimal(f[5]) == Some(r.longCorrect)
      && ParseDecimal(f[6]) == Some(r.longTotal)
      && ParseDecimal(f[7]) == Some(r.longPending)
  {
    ParseNatToString(r.mcCorrect);
    ParseNatToString(r.mcTotal);
    ParseNatToString(r.longCorrect);
    ParseNatToString(r.longTotal);
    ParseNatToString(r.longPending);
  }
}
