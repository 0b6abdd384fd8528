/** The records held by the test-management store (`data` in app.js) and the
    small sequence operations (Array.prototype.filter / find) the store's
    commands are written with. */
module Domain {

  datatype Option<T> = None | Some(value: T) {
    function GetOr(default: T): T {
      match this
      case Some(v) => v
      case None => default
    }
  }

  /** The errors the store reports with `alert` and then abandons the command. */
  datatype Error =
    | Cancelled            // a `confirm` dialog was declined
    | TestNotFound
    | StudentNotFound
    | QuestionNotFound
    | SubmissionNotFound
    | AnswerNotFound
    | MissingFields        // a required form field is blank
    | DuplicateId          // "Student ID already exists"
    | EmptyCategory
    | DuplicateCategory
    | MissingOptions       // "Fill all options"
    | NoTestInProgress     // `currentTest` is null when the test is submitted
    | EmptyCsv
    | MissingColumns       // students CSV without `id` or `name` column

  datatype Outcome = Done | Failed(error: Error)

  datatype Result<T> = Ok(value: T) | Err(error: Error)

  /** The `type` tag of a question or answer. The store compares the string
      against 'multiple-choice' and 'long-answer'; a CSV import can store any
      other lower-cased tag, which neither comparison accepts. */
  datatype Kind = MultipleChoice | LongAnswer | OtherKind(tag: string)

  function KindOf(tag: string): (k: Kind)
    ensures k == MultipleChoice <==> tag == "multiple-choice"
    ensures k == LongAnswer <==> tag == "long-answer"
  {
    if tag == "multiple-choice" then MultipleChoice
    else if tag == "long-answer" then LongAnswer
    else OtherKind(tag)
  }

  /** A catalog question; `options` and `correctAnswer` are None where the
      JavaScript object has no such property. */
  datatype Question = Question(
    id: int,
    kind: Kind,
    text: string,
    options: Option<seq<string>>,
    correctAnswer: Option<string>,
    categories: seq<string>,
    difficulty: string,
    reference: string,
    imageUrl: string,
    code: string)

  /** A test: its questions are copies taken when the test was saved. */
  datatype Test = Test(
    id: int,
    name: string,
    duration: int,
    questions: seq<Question>,
    assignedStudents: seq<string>,
    createdAt: int)

  datatype Student = Student(id: string, name: string, password: string)

  /** One answer of a submission. `answer` is None for an unanswered
      multiple-choice question (JavaScript null); `correct`, `reviewed` and
      `comment` are false / "" where the object lacks the property. */
  datatype Answer = Answer(
    questionIndex: int,
    question: string,
    kind: Kind,
    answer: Option<string>,
    correct: bool,
    reviewed: bool,
    comment: string)

  datatype Submission = Submission(
    id: int,
    testId: int,
    studentId: string,
    answers: seq<Answer>,
    submittedAt: int)

  // ---------------------------------------------------------------------
  // Array.prototype.filter

  function Filter<T(!new)>(p: T -> bool, s: seq<T>): (r: seq<T>)
    ensures |r| <= |s|
    ensures forall x :: x in r <==> x in s && p(x)
  {
    if s == [] then []
    else if p(s[0]) then [s[0]] + Filter(p, s[1..])
    else Filter(p, s[1..])
  }

  lemma {:induction false} FilterAppend<T(!new)>(p: T -> bool, a: seq<T>, b: seq<T>)
    ensures Filter(p, a + b) == Filter(p, a) + Filter(p, b)
  {
    if a != [] {
      assert (a + b)[0] == a[0] && (a + b)[1..] == a[1..] + b;
      FilterAppend(p, a[1..], b);
    } else {
      assert a + b == b;
    }
  }

  /** Filtering by `q` after `p` is filtering by `q` alone when `q` implies `p`. */
  lemma {:induction false} FilterAbsorb<T(!new)>(p: T -> bool, q: T -> bool, s: seq<T>)
    requires forall x :: q(x) ==> p(x)
    ensures Filter(q, Filter(p, s)) == Filter(q, s)
  {
    if s != [] {
      FilterAbsorb(p, q, s[1..]);
    }
  }

  /** Filtering keeps everything exactly when every element passes. */
  lemma {:induction false} FilterAll<T(!new)>(p: T -> bool, s: seq<T>)
    requires forall x :: x in s ==> p(x)
    ensures Filter(p, s) == s
  {
    if s != [] {
      FilterAll(p, s[1..]);
    }
  }

  /** `s.filter(p).length`, counted directly. */
  function Count<T>(p: T -> bool, s: seq<T>): (n: nat)
    ensures n <= |s|
    ensures n == 0 <==> forall i :: 0 <= i < |s| ==> !p(s[i])
  {
    if s == [] then 0
    else (if p(s[0]) then 1 else 0) + Count(p, s[1..])
  }

  lemma {:induction false} CountIsFilterLength<T(!new)>(p: T -> bool, s: seq<T>)
    ensures Count(p, s) == |Filter(p, s)|
  {
    if s != [] {
      CountIsFilterLength(p, s[1..]);
    }
  }

  /** Replacing one element changes the count by what the two elements
      contribute. */
  lemma {:induction false} CountUpdate<T>(p: T -> bool, s: seq<T>, i: nat, x: T)
    requires i < |s|
    ensures Count(p, s[i := x]) + (if p(s[i]) then 1 else 0)
         == Count(p, s) + (if p(x) then 1 else 0)
  {
    if i == 0 {
      assert s[i := x][1..] == s[1..];
    } else {
      assert s[i := x][1..] == s[1..][i - 1 := x];
      CountUpdate(p, s[1..], i - 1, x);
    }
  }

  /** A weaker predicate counts at least as many elements. */
  lemma {:induction false} CountMono<T>(p: T -> bool, q: T -> bool, s: seq<T>)
    requires forall x :: p(x) ==> q(x)
    ensures Count(p, s) <= Count(q, s)
  {
    if s != [] {
      CountMono(p, q, s[1..]);
    }
  }

  /** Two predicates that never hold together and both imply a third count
      no more than the third. */
  lemma {:induction false} CountDisjoint<T>(p: T -> bool, q: T -> bool, r: T -> bool, s: seq<T>)
    requires forall x :: p(x) ==> r(x)
    requires forall x :: q(x) ==> r(x)
    requires forall x :: !(p(x) && q(x))
    ensures Count(p, s) + Count(q, s) <= Count(r, s)
  {
    if s != [] {
      CountDisjoint(p, q, r, s[1..]);
    }
  }

  // ---------------------------------------------------------------------
  // Array.prototype.find / findIndex

  /** The index of the first element satisfying `p`, if any. */
  function FirstIndex<T>(p: T -> bool, s: seq<T>): (r: Option<nat>)
    ensures r.Some? ==> r.value < |s| && p(s[r.value])
    ensures r.Some? ==> forall j :: 0 <= j < r.value ==> !p(s[j])
    ensures r.None? <==> forall j :: 0 <= j < |s| ==> !p(s[j])
  {
    if s == [] then None
    else if p(s[0]) then Some(0)
    else match FirstIndex(p, s[1..])
      case None => None
      case Some(k) => Some(k + 1)
  }

  /** The elements of `s` other than `x`, in order (used for id lists). */
  function Remove<T(==,!new)>(s: seq<T>, x: T): (r: seq<T>)
    ensures x !in r
    ensures forall y :: y != x ==> (y in r <==> y in s)
    ensures |r| <= |s|
  {
    Filter(Other(x), s)
  }

  function Other<T(==)>(x: T): T -> bool {
    y => y != x
  }

  /** No element occurs twice. */
  predicate Distinct<T(==)>(s: seq<T>) {
    forall i, j :: 0 <= i < j < |s| ==> s[i] != s[j]
  }

  lemma {:induction false} FilterDistinct<T(!new)>(p: T -> bool, s: seq<T>)
    requires Distinct(s)
    ensures Distinct(Filter(p, s))
  {
    if s != [] {
      assert Distinct(s[1..]);
      FilterDistinct(p, s[1..]);
      var r := Filter(p, s[1..]);
      if p(s[0]) {
        assert s[0] !in s[1..];
        assert s[0] !in r;
        var t := [s[0]] + r;
        forall i, j | 0 <= i < j < |t| ensures t[i] != t[j] {
          if i == 0 {
            assert t[j] == r[j - 1];
          } else {
            assert t[i] == r[i - 1] && t[j] == r[j - 1];
          }
        }
      }
    }
  }

  lemma RemoveDistinct<T(!new)>(s: seq<T>, x: T)
    requires Distinct(s)
    ensures Distinct(Remove(s, x))
  {
    FilterDistinct(Other(x), s);
  }

  /** Appending an element not yet present keeps a sequence free of
      repetitions. */
  lemma AppendNewDistinct<T>(s: seq<T>, x: T)
    requires Distinct(s) && x !in s
    ensures Distinct(s + [x])
  {
    var t := s + [x];
    forall i, j | 0 <= i < j < |t| ensures t[i] != t[j] {
      if j == |s| {
        assert t[i] == s[i];
      } else {
        assert t[i] == s[i] && t[j] == s[j];
      }
    }
  }
}
