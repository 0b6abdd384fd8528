/** A student's test session: the countdown armed by `startTest` and run by
    the `startTimer` interval (app.js:858-917), and the answers `submitTest`
    builds from the form (app.js:924-936). */
module Session {
  import opened Domain
  import opened Scoring
  import opened Commands

  // ---------------------------------------------------------------------
  // Answers

  /** What the form holds for question i: the checked option's value for a
      multiple-choice question (None when nothing is checked), the textarea
      text for a long answer. Questions beyond the list read as None. */
  function InputAt(inputs: seq<Option<string>>, i: nat): Option<string> {
    if i < |inputs| then inputs[i] else None
  }

  /** The answer to the question at `index`. A multiple-choice answer is
      correct when the selection equals the question's correct answer, so an
      unanswered one (JavaScript null) is never correct. Any other kind gets
      the textarea's text, or "" when the page had no textarea for it (only
      long-answer questions get one), and is not reviewed. */
  function BuildAnswer(q: Question, index: nat, input: Option<string>): (a: Answer)
    ensures a.questionIndex == index && a.question == q.text && a.kind == q.kind
    ensures q.kind == MultipleChoice ==>
      a.answer == input && (a.correct <==> input.Some? && q.correctAnswer == input) && !a.reviewed
    ensures q.kind != MultipleChoice ==> !a.reviewed && !a.correct && a.answer.Some?
    ensures q.kind == LongAnswer ==> a.answer == Some(input.GetOr(""))
  {
    match q.kind
    case MultipleChoice =>
      Answer(index, q.text, q.kind, input, input.Some? && q.correctAnswer == input, false, "")
    case LongAnswer =>
      Answer(index, q.text, q.kind, Some(input.GetOr("")), false, false, "")
    case OtherKind(_) =>
      Answer(index, q.text, q.kind, Some(""), false, false, "")
  }

  function BuildAnswers(questions: seq<Question>, inputs: seq<Option<string>>): (r: seq<Answer>)
    ensures |r| == |questions|
    ensures forall i :: 0 <= i < |r| ==> r[i] == BuildAnswer(questions[i], i, InputAt(inputs, i))
  {
    seq(|questions|, i requires 0 <= i < |questions| => BuildAnswer(questions[i], i, InputAt(inputs, i)))
  }

  /** Two sequences that agree element by element under `p` and `q` have
      equal counts. */
  lemma {:induction false} CountMatches<A, B>(p: A -> bool, q: B -> bool, xs: seq<A>, ys: seq<B>)
    requires |xs| == |ys|
    requires forall i :: 0 <= i < |xs| ==> (p(xs[i]) <==> q(ys[i]))
    ensures Count(p, xs) == Count(q, ys)
  {
    if xs != [] {
      CountMatches(p, q, xs[1..], ys[1..]);
    }
  }

  /** A fresh submission has as many multiple-choice and long answers as the
      test has questions of each kind, none of them reviewed; so the totals a
      "Completed" result row shows are the totals a "Not Started" row shows. */
  lemma BuiltAnswerTotals(questions: seq<Question>, inputs: seq<Option<string>>)
    ensures Count(IsMc, BuildAnswers(questions, inputs)) == Count(IsMcQuestion, questions)
    ensures Count(IsLong, BuildAnswers(questions, inputs)) == Count(IsLongQuestion, questions)
    ensures Count(IsLongPending, BuildAnswers(questions, inputs)) == Count(IsLongQuestion, questions)
    ensures Count(IsLongCorrect, BuildAnswers(questions, inputs)) == 0
  {
    var r := BuildAnswers(questions, inputs);
    CountMatches(IsMc, IsMcQuestion, r, questions);
    CountMatches(IsLong, IsLongQuestion, r, questions);
    CountMatches(IsLongPending, IsLongQuestion, r, questions);
  }

  /** A fresh submission waits for review exactly when the test has a
      long-answer question. */
  lemma BuiltSubmissionPending(s: Submission, questions: seq<Question>, inputs: seq<Option<string>>)
    requires s.answers == BuildAnswers(questions, inputs)
    ensures HasPending(s) <==> Count(IsLongQuestion, questions) > 0
  {
    BuiltAnswerTotals(questions, inputs);
    HasPendingIff(s);
  }

  /** Right after `submitTest`, the student's result row is "Completed" and
      reports the same totals a "Not Started" row showed: the test's
      questions of each kind, every long answer pending and none accepted. */
  lemma SubmittedRowTotals(test: Test, students: seq<Student>, subs: seq<Submission>,
                           sub: Submission, inputs: seq<Option<string>>)
    requires sub.testId == test.id && sub.answers == BuildAnswers(test.questions, inputs)
    ensures var r := Row(test, students, AfterSubmit(subs, sub), sub.studentId);
      && r.status == Completed
      && r.mcTotal == Count(IsMcQuestion, test.questions)
      && r.longTotal == Count(IsLongQuestion, test.questions)
      && r.longPending == r.longTotal
      && r.longCorrect == 0
  {
    SubmitIsFound(subs, sub);
    BuiltAnswerTotals(test.questions, inputs);
  }

  // ---------------------------------------------------------------------
  // The countdown

  /** `timeRemaining`, `timeExpired` and whether the interval is set. */
  datatype Clock = Clock(remaining: int, expired: bool, running: bool)

  /** `startTest` and `startTimer`: minutes to seconds, interval set. */
  function Arm(duration: int): (c: Clock)
    ensures c.remaining == duration * 60 && !c.expired && c.running
  {
    Clock(duration * 60, false, true)
  }

  /** One run of the interval callback; `fires` says whether it submitted
      the test. A cleared interval does nothing. */
  function Tick(c: Clock): (r: (Clock, bool))
    ensures !c.running ==> r == (c, false)
    ensures c.running && c.remaining - 1 > 0 ==> r == (c.(remaining := c.remaining - 1), false)
    ensures c.running && c.remaining - 1 <= 0 ==> r == (Clock(0, true, false), true)
  {
    if !c.running then (c, false)
    else if c.remaining - 1 <= 0 then (Clock(0, true, false), true)
    else (c.(remaining := c.remaining - 1), false)
  }

  /** n callbacks in a row, with the number of submissions they made. */
  function Run(c: Clock, n: nat): (Clock, nat)
    decreases n
  {
    if n == 0 then (c, 0)
    else
      var (c1, fired) := Tick(c);
      var (c2, k) := Run(c1, n - 1);
      (c2, k + if fired then 1 else 0)
  }

  /** A stopped clock stays as it is. */
  lemma {:induction false} RunStopped(c: Clock, n: nat)
    requires !c.running
    ensures Run(c, n) == (c, 0)
    decreases n
  {
    if n > 0 {
      RunStopped(c, n - 1);
    }
  }

  /** From a running clock with t seconds left, fewer than t callbacks only
      count down and submit nothing; any number from t on has submitted
      exactly once and leaves the clock expired at 0 with the interval
      cleared. */
  lemma {:induction false} RunFrom(c: Clock, n: nat)
    requires c.running && c.remaining >= 1
    ensures n < c.remaining ==> Run(c, n) == (c.(remaining := c.remaining - n), 0)
    ensures n >= c.remaining ==> Run(c, n) == (Clock(0, true, false), 1)
    decreases n
  {
    if n > 0 {
      var (c1, fired) := Tick(c);
      if c.remaining == 1 {
        RunStopped(c1, n - 1);
      } else {
        RunFrom(c1, n - 1);
      }
    }
  }

  /** A test of d >= 1 minutes is submitted by the timer exactly once, on the
      (60 d)-th second, and not before. */
  lemma TimerSubmitsOnce(duration: int, n: nat)
    requires duration >= 1
    ensures n < duration * 60 ==> Run(Arm(duration), n).1 == 0
    ensures n >= duration * 60 ==> Run(Arm(duration), n) == (Clock(0, true, false), 1)
  {
    RunFrom(Arm(duration), n);
  }

  /** A test with no positive duration expires on the first callback. */
  lemma TimerNonPositive(duration: int)
    requires duration <= 0
    ensures Run(Arm(duration), 1) == (Clock(0, true, false), 1)
  {
  }
}
