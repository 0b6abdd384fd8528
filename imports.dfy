/** The row rules of the two CSV importers (`importStudentsCSV`,
    app.js:1247-1260, and `importQuestionsCSV`, app.js:1187-1225) and the
    exporters they pair with. */
module Imports {
  import opened Domain
  import opened Text
  import opened Csv
  import opened Commands

  // ---------------------------------------------------------------------
  // Header and cells

  /** A header cell as a key: trimmed and lower-cased. */
  function HeaderKey(h: string): string {
    Lower(Trim(h))
  }

  /** The keys of a header row, column by column. */
  function HeaderKeys(header: seq<string>): (ks: seq<string>)
    ensures |ks| == |header|
  {
    seq(|header|, j requires 0 <= j < |header| => HeaderKey(header[j]))
  }

  /** `idx[key]` after `header.forEach((h, i) => idx[h] = i)`, given the
      header's keys: the last column whose key it is. */
  function Column(keys: seq<string>, key: string): (r: Option<nat>)
    ensures r.Some? ==> r.value < |keys| && keys[r.value] == key
    ensures r.Some? ==> forall j :: r.value < j < |keys| ==> keys[j] != key
    ensures r.None? <==> key !in keys
  {
    if keys == [] then None
    else if keys[|keys| - 1] == key then Some(|keys| - 1)
    else Column(keys[..|keys| - 1], key)
  }

  /** `(row[j] || '').trim()`: a missing cell reads as "". */
  function CellAt(row: seq<string>, j: nat): string {
    if j < |row| then Trim(row[j]) else ""
  }

  /** The cell of the row under the key's column, "" without such a column. */
  function Field(header: seq<string>, row: seq<string>, key: string): string {
    match Column(HeaderKeys(header), key)
    case None => ""
    case Some(j) => CellAt(row, j)
  }

  /** `a || b` on strings. */
  function Or(a: string, b: string): (r: string)
    ensures r == (if a != "" then a else b)
  {
    if a != "" then a else b
  }

  datatype RowOutcome = Added | Updated | Skipped

  datatype Tally = Tally(added: nat, updated: nat, skipped: nat) {
    function Total(): nat { added + updated + skipped }

    function Bump(o: RowOutcome): (t: Tally)
      ensures t.Total() == Total() + 1
    {
      match o
      case Added => this.(added := added + 1)
      case Updated => this.(updated := updated + 1)
      case Skipped => this.(skipped := skipped + 1)
    }
  }

  // ---------------------------------------------------------------------
  // Students (app.js:1251-1259)

  datatype StudentColumns = StudentColumns(id: nat, name: nat, password: Option<nat>)

  /** The trimmed id, name and password cells of one data row. */
  datatype StudentCells = StudentCells(id: string, name: string, password: string)

  /** A missing cell reads as ""; without a password column the password
      reads as 'pass123'. */
  function ReadStudentRow(row: seq<string>, cols: StudentColumns): StudentCells {
    StudentCells(
      CellAt(row, cols.id),
      CellAt(row, cols.name),
      match cols.password case None => "pass123" case Some(j) => CellAt(row, j))
  }

  function ReadStudentRows(rows: seq<seq<string>>, cols: StudentColumns): (cs: seq<StudentCells>)
    ensures |cs| == |rows|
  {
    seq(|rows|, i requires 0 <= i < |rows| => ReadStudentRow(rows[i], cols))
  }

  /** A row without id or name is skipped; the first student with the id is
      updated; otherwise the student is appended. An empty password keeps
      the old password, or gives 'pass123'. */
  function ApplyStudent(students: seq<Student>, c: StudentCells): (seq<Student>, RowOutcome) {
    if c.id == "" || c.name == "" then (students, Skipped)
    else match FindStudent(students, c.id)
      case Some(i) =>
        (students[i := Student(c.id, c.name, Or(c.password, Or(students[i].password, "pass123")))], Updated)
      case None =>
        (students + [Student(c.id, c.name, Or(c.password, "pass123"))], Added)
  }

  /** Each row, on the roster left by the rows before it, in file order. */
  function StudentRows(students: seq<Student>, cells: seq<StudentCells>): (seq<Student>, Tally)
    decreases |cells|
  {
    if cells == [] then (students, Tally(0, 0, 0))
    else
      var (before, tally) := StudentRows(students, cells[..|cells| - 1]);
      var (after, outcome) := ApplyStudent(before, cells[|cells| - 1]);
      (after, tally.Bump(outcome))
  }

  /** The columns the student importer needs, or why the file is refused. */
  function StudentColumnsOf(rows: seq<seq<string>>): Result<StudentColumns> {
    if |rows| < 2 then Err(EmptyCsv)
    else
      var keys := HeaderKeys(rows[0]);
      match (Column(keys, "id"), Column(keys, "name"))
      case (Some(i), Some(n)) => Ok(StudentColumns(i, n, Column(keys, "password")))
      case _ => Err(MissingColumns)
  }

  /** `importStudentsCSV` on the parsed file. */
  function ImportStudents(students: seq<Student>, rows: seq<seq<string>>): Result<(seq<Student>, Tally)> {
    match StudentColumnsOf(rows)
    case Err(e) => Err(e)
    case Ok(cols) => Ok(StudentRows(students, ReadStudentRows(rows[1..], cols)))
  }

  /** One row: ids stay unique, the roster never shrinks, the row's
      student is present afterwards under its name, and an added row
      lengthens the roster by one. */
  lemma ApplyStudentSpec(students: seq<Student>, c: StudentCells)
    requires Distinct(StudentIds(students))
    ensures var (r, o) := ApplyStudent(students, c);
      && Distinct(StudentIds(r))
      && |r| == |students| + (if o == Added then 1 else 0)
      && (o == Skipped <==> c.id == "" || c.name == "")
      && (o == Skipped ==> r == students)
      && (o != Skipped ==> exists k :: 0 <= k < |r| && r[k].id == c.id && r[k].name == c.name && r[k].password != "")
  {
    var (r, o) := ApplyStudent(students, c);
    if c.id != "" && c.name != "" {
      match FindStudent(students, c.id)
      case Some(i) =>
        ReplaceKeepsDistinct(students, i, r[i]);
      case None =>
        AppendKeepsDistinct(students, r[|r| - 1]);
        assert r[|students|].id == c.id;
    }
  }

  /** Importing keeps student ids unique; the counts add up to the rows read
      and the roster grows by the number added. */
  lemma {:induction false} StudentRowsSpec(students: seq<Student>, cells: seq<StudentCells>)
    requires Distinct(StudentIds(students))
    ensures var (r, t) := StudentRows(students, cells);
      Distinct(StudentIds(r)) && t.Total() == |cells| && |r| == |students| + t.added
    decreases |cells|
  {
    if cells != [] {
      StudentRowsSpec(students, cells[..|cells| - 1]);
      var (before, tally) := StudentRows(students, cells[..|cells| - 1]);
      ApplyStudentSpec(before, cells[|cells| - 1]);
    }
  }

  /** `exportStudentsCSV` (app.js:1232-1236). */
  function StudentsTable(students: seq<Student>): (t: seq<seq<string>>)
    ensures |t| == |students| + 1
  {
    [["id", "name", "password"]]
      + seq(|students|, i requires 0 <= i < |students| => [students[i].id, students[i].name, students[i].password])
  }

  function StudentsCsv(students: seq<Student>): string {
    CsvText(StudentsTable(students))
  }

  /** A student the export writes and the import reads back unchanged. */
  predicate Portable(s: Student) {
    && s.id != "" && s.name != "" && s.password != ""
    && Trim(s.id) == s.id && Trim(s.name) == s.name && Trim(s.password) == s.password
    && NoLineBreak(s.id) && NoLineBreak(s.name) && NoLineBreak(s.password)
  }

  /** The exported header row is its own list of keys. */
  lemma StudentsHeader()
    ensures HeaderKeys(["id", "name", "password"]) == ["id", "name", "password"]
  {
    PlainCell("id");
    PlainCell("name");
    PlainCell("password");
    OwnKeys("id", "name", "password");
  }

  /** Three cells that trimming and lower-casing leave alone make a header
      that is its own list of keys. */
  lemma OwnKeys(a: string, b: string, c: string)
    requires Trim(a) == a && Lower(a) == a
    requires Trim(b) == b && Lower(b) == b
    requires Trim(c) == c && Lower(c) == c
    ensures HeaderKeys([a, b, c]) == [a, b, c]
  {
    var h := [a, b, c];
    var ks := HeaderKeys(h);
    assert ks[0] == a && ks[1] == b && ks[2] == c;
    assert ks == h;
  }

  /** A string of lower-case letters is left alone by trimming and by
      lower-casing. */
  lemma PlainCell(s: string)
    requires forall k :: 0 <= k < |s| ==> 'a' <= s[k] <= 'z'
    ensures Trim(s) == s && Lower(s) == s
  {
    TrimNoEdgeSpace(s);
    LowerPlain(s);
  }

  lemma LowerPlain(s: string)
    requires forall k :: 0 <= k < |s| ==> 'a' <= s[k] <= 'z'
    ensures Lower(s) == s
  {
  }

  /** Importing the export of a roster with unique ids into an empty roster
      gives the roster back, every row counted as added. */
  lemma StudentsCsvRoundTrip(students: seq<Student>)
    requires Distinct(StudentIds(students))
    requires forall i :: 0 <= i < |students| ==> Portable(students[i])
    requires students != []
    ensures ImportStudents([], ParseCsvSpec(StudentsCsv(students))) == Ok((students, Tally(|students|, 0, 0)))
  {
    ExportParses(students);
    ExportImports(students);
  }

  /** The export parses back as the table it wrote. */
  lemma ExportParses(students: seq<Student>)
    requires forall i :: 0 <= i < |students| ==> Portable(students[i])
    ensures ParseCsvSpec(StudentsCsv(students)) == StudentsTable(students)
  {
    ExportQuotable(students);
    CsvRoundTrip(StudentsTable(students));
  }

  /** The table of a roster with unique ids, imported into an empty roster,
      gives the roster back. */
  lemma ExportImports(students: seq<Student>)
    requires Distinct(StudentIds(students))
    requires forall i :: 0 <= i < |students| ==> Portable(students[i])
    requires students != []
    ensures ImportStudents([], StudentsTable(students)) == Ok((students, Tally(|students|, 0, 0)))
  {
    ExportColumns(students);
    ExportRows(students);
  }

  /** The exported rows, read in the exported columns, add every student. */
  lemma ExportRows(students: seq<Student>)
    requires Distinct(StudentIds(students))
    requires forall i :: 0 <= i < |students| ==> Portable(students[i])
    ensures StudentRows([], ReadStudentRows(StudentsTable(students)[1..], StudentColumns(0, 1, Some(2))))
         == (students, Tally(|students|, 0, 0))
  {
    ExportCells(students);
    assert forall i :: 0 <= i < |students| ==>
      students[i].id != "" && students[i].name != "" && students[i].password != "";
    ImportAll(students, ReadStudentRows(StudentsTable(students)[1..], StudentColumns(0, 1, Some(2))));
  }

  lemma ImportAll(students: seq<Student>, cells: seq<StudentCells>)
    requires Distinct(StudentIds(students))
    requires |cells| == |students|
    requires forall i :: 0 <= i < |cells| ==>
      cells[i] == StudentCells(students[i].id, students[i].name, students[i].password)
    requires forall i :: 0 <= i < |students| ==>
      students[i].id != "" && students[i].name != "" && students[i].password != ""
    ensures StudentRows([], cells) == (students, Tally(|students|, 0, 0))
  {
    ImportEach(students, cells, |students|);
    assert cells[..|students|] == cells;
    assert students[..|students|] == students;
  }

  /** The importer finds the columns of the exported header where the
      export put them. */
  lemma ExportColumns(students: seq<Student>)
    requires students != []
    ensures StudentColumnsOf(StudentsTable(students)) == Ok(StudentColumns(0, 1, Some(2)))
  {
    var table := StudentsTable(students);
    assert table[0] == ["id", "name", "password"];
    StudentsHeader();
    StudentsHeaderColumns();
  }

  lemma StudentsHeaderColumns()
    ensures Column(["id", "name", "password"], "id") == Some(0)
    ensures Column(["id", "name", "password"], "name") == Some(1)
    ensures Column(["id", "name", "password"], "password") == Some(2)
  {
  }

  /** No cell of an export of portable students holds a line break. */
  lemma ExportQuotable(students: seq<Student>)
    requires forall i :: 0 <= i < |students| ==> Portable(students[i])
    ensures forall k :: 0 <= k < |StudentsTable(students)| ==> QuotableRow(StudentsTable(students)[k])
  {
    var rows := seq(|students|, i requires 0 <= i < |students| => [students[i].id, students[i].name, students[i].password]);
    forall i | 0 <= i < |students| ensures QuotableRow(rows[i]) {
      PortableQuotable(students[i]);
    }
    HeaderQuotable();
    QuotableTable(["id", "name", "password"], rows);
  }

  lemma HeaderQuotable()
    ensures QuotableRow(["id", "name", "password"])
  {
    assert NoLineBreak("id") && NoLineBreak("name") && NoLineBreak("password");
  }

  lemma PortableQuotable(s: Student)
    requires Portable(s)
    ensures QuotableRow([s.id, s.name, s.password])
  {
  }

  /** The data rows of an export of portable students read back as their
      own id, name and password. */
  lemma ExportCells(students: seq<Student>)
    requires forall i :: 0 <= i < |students| ==> Portable(students[i])
    ensures var cells := ReadStudentRows(StudentsTable(students)[1..], StudentColumns(0, 1, Some(2)));
      forall i :: 0 <= i < |students| ==>
        cells[i] == StudentCells(students[i].id, students[i].name, students[i].password)
  {
    var rows := StudentsTable(students)[1..];
    forall i | 0 <= i < |students|
      ensures ReadStudentRow(rows[i], StudentColumns(0, 1, Some(2)))
           == StudentCells(students[i].id, students[i].name, students[i].password)
    {
      var s := students[i];
      assert Portable(s);
      assert rows[i] == [s.id, s.name, s.password];
    }
  }

  /** The first k rows of an exported roster import as its first k students. */
  lemma {:induction false} ImportEach(students: seq<Student>, cells: seq<StudentCells>, k: nat)
    requires Distinct(StudentIds(students))
    requires |cells| == |students| && k <= |cells|
    requires forall i :: 0 <= i < |cells| ==>
      cells[i] == StudentCells(students[i].id, students[i].name, students[i].password)
    requires forall i :: 0 <= i < |students| ==>
      students[i].id != "" && students[i].name != "" && students[i].password != ""
    ensures StudentRows([], cells[..k]) == (students[..k], Tally(k, 0, 0))
    decreases k
  {
    if k > 0 {
      ImportEach(students, cells, k - 1);
      assert cells[..k][..k - 1] == cells[..k - 1];
      var s := students[k - 1];
      assert FindStudent(students[..k - 1], s.id).None? by {
        forall j | 0 <= j < k - 1 ensures StudentIds(students)[j] != s.id {
          assert StudentIds(students)[j] != StudentIds(students)[k - 1];
        }
      }
      assert students[..k - 1] + [s] == students[..k];
    }
  }

  // ---------------------------------------------------------------------
  // Categories joined by '|' (app.js:1116, 1197)

  /** `s.split('|')`. */
  function SplitBar(s: string, cur: string): (r: seq<string>)
    ensures |r| >= 1
    decreases |s|
  {
    if s == [] then [cur]
    else if s[0] == '|' then [cur] + SplitBar(s[1..], "")
    else SplitBar(s[1..], cur + [s[0]])
  }

  /** `.map(s => s.trim()).filter(Boolean)` after the split. */
  function TrimNonEmpty(parts: seq<string>): (r: seq<string>)
    ensures forall i :: 0 <= i < |r| ==> r[i] != ""
    ensures |r| <= |parts|
  {
    if parts == [] then []
    else if Trim(parts[0]) == "" then TrimNonEmpty(parts[1..])
    else [Trim(parts[0])] + TrimNonEmpty(parts[1..])
  }

  /** The categories cell of the import: "" is no categories. */
  function SplitCategories(cell: string): (r: seq<string>)
    ensures forall i :: 0 <= i < |r| ==> r[i] != ""
  {
    if cell == "" then [] else TrimNonEmpty(SplitBar(cell, ""))
  }

  /** `categories.join('|')` of the export. */
  function JoinBar(cats: seq<string>): string {
    if cats == [] then ""
    else if |cats| == 1 then cats[0]
    else cats[0] + "|" + JoinBar(cats[1..])
  }

  /** A category the export writes and the import reads back unchanged. */
  predicate PlainCategory(c: string) {
    c != "" && Trim(c) == c && NoBar(c)
  }

  predicate NoBar(c: string) {
    forall k :: 0 <= k < |c| ==> c[k] != '|'
  }

  lemma {:induction false} SplitBarOne(c: string, rest: string, cur: string)
    requires NoBar(c)
    ensures SplitBar(c + "|" + rest, cur) == [cur + c] + SplitBar(rest, "")
    decreases |c|
  {
    if c == [] {
      assert (c + "|" + rest)[1..] == rest;
      assert cur + c == cur;
    } else {
      assert (c + "|" + rest)[1..] == c[1..] + "|" + rest;
      assert cur + c == (cur + [c[0]]) + c[1..];
      SplitBarOne(c[1..], rest, cur + [c[0]]);
    }
  }

  lemma {:induction false} SplitBarLast(c: string, cur: string)
    requires NoBar(c)
    ensures SplitBar(c, cur) == [cur + c]
    decreases |c|
  {
    if c == [] {
      assert cur + c == cur;
    } else {
      assert cur + c == (cur + [c[0]]) + c[1..];
      SplitBarLast(c[1..], cur + [c[0]]);
    }
  }

  /** Splitting the joined categories at the bars gives them back. */
  lemma {:induction false} SplitJoinBar(cats: seq<string>)
    requires cats != []
    requires forall i :: 0 <= i < |cats| ==> NoBar(cats[i])
    ensures SplitBar(JoinBar(cats), "") == cats
    decreases |cats|
  {
    assert "" + cats[0] == cats[0];
    if |cats| == 1 {
      SplitBarLast(cats[0], "");
    } else {
      SplitBarOne(cats[0], JoinBar(cats[1..]), "");
      SplitJoinBar(cats[1..]);
      assert cats == [cats[0]] + cats[1..];
    }
  }

  /** Trimming and dropping blanks leaves plain categories as they are. */
  lemma {:induction false} TrimNonEmptyPlain(cats: seq<string>)
    requires forall i :: 0 <= i < |cats| ==> PlainCategory(cats[i])
    ensures TrimNonEmpty(cats) == cats
  {
    if cats != [] {
      TrimNonEmptyStep(cats);
      TrimNonEmptyPlain(cats[1..]);
      assert cats == [cats[0]] + cats[1..];
    }
  }

  lemma TrimNonEmptyStep(cats: seq<string>)
    requires cats != [] && PlainCategory(cats[0])
    ensures TrimNonEmpty(cats) == [cats[0]] + TrimNonEmpty(cats[1..])
  {
  }

  /** The categories an export writes are the ones the import reads. */
  lemma CategoriesRoundTrip(cats: seq<string>)
    requires forall i :: 0 <= i < |cats| ==> PlainCategory(cats[i])
    ensures SplitCategories(JoinBar(cats)) == cats
  {
    if cats != [] {
      SplitJoinBar(cats);
      TrimNonEmptyPlain(cats);
      assert JoinBar(cats) != "" by {
        JoinBarStarts(cats);
      }
    }
  }

  lemma JoinBarStarts(cats: seq<string>)
    requires cats != [] && cats[0] != ""
    ensures |JoinBar(cats)| >= |cats[0]|
  {
  }

  // ---------------------------------------------------------------------
  // Questions (app.js:1190-1225)

  /** Categories seen in imported questions join the category list once. */
  function AddCategories(cats: seq<string>, found: seq<string>): (r: seq<string>)
    ensures |r| >= |cats| && r[..|cats|] == cats
    decreases |found|
  {
    if found == [] then cats
    else
      var c := found[|found| - 1];
      var before := AddCategories(cats, found[..|found| - 1]);
      if c != "" && c !in before then before + [c] else before
  }

  lemma {:induction false} AddCategoriesSpec(cats: seq<string>, found: seq<string>)
    requires Distinct(cats)
    ensures Distinct(AddCategories(cats, found))
    ensures forall c :: c in found && c != "" ==> c in AddCategories(cats, found)
    ensures forall c :: c in AddCategories(cats, found) ==> c in cats || c in found
    decreases |found|
  {
    if found != [] {
      var init := found[..|found| - 1];
      AddCategoriesSpec(cats, init);
      var c := found[|found| - 1];
      var before := AddCategories(cats, init);
      if c != "" && c !in before {
        AppendNewDistinct(before, c);
      }
      assert forall x :: x in found ==> x in init || x == c;
    }
  }

  /** What one data row of the questions file says, after the header lookups. */
  datatype QuestionRowFields = QuestionRowFields(
    kindTag: string,
    text: string,
    difficulty: string,
    reference: string,
    categories: seq<string>,
    imageUrl: string,
    code: string,
    options: Option<seq<string>>,
    correct: string,
    idStr: string,
    optionA: string,
    optionB: string,
    optionC: string,
    optionD: string,
    freshId: int)

  /** Reads the row; `decodeOptions` stands for `JSON.parse` followed by
      `Array.isArray`, None when either fails, and `freshId` for the
      `Date.now()` plus random id a new question of this row would get. */
  function ReadQuestionRow(header: seq<string>, row: seq<string>, decodeOptions: string -> Option<seq<string>>,
                           freshId: int)
    : QuestionRowFields
  {
    var f := (key: string) => Field(header, row, key);
    QuestionRowFields(
      f("type"),
      f("text"),
      Or(f("difficulty"), "medium"),
      f("reference"),
      SplitCategories(f("categories")),
      Or(f("imageurl"), f("image_url")),
      f("code"),
      if f("options_json") != "" then decodeOptions(f("options_json")) else None,
      Or(f("correctanswer"), f("correct_answer")),
      f("id"),
      Or(f("a"), f("optiona")), Or(f("b"), f("optionb")), Or(f("c"), f("optionc")), Or(f("d"), f("optiond")),
      freshId)
  }

  /** `String(q.id) === idStr`. */
  function FindById(qs: seq<Question>, idStr: string): Option<nat> {
    FirstIndex((q: Question) => IntToString(q.id) == idStr, qs)
  }

  /** Options given as a JSON array count when they have at least four
      entries. */
  function Usable(options: Option<seq<string>>): bool {
    options.Some? && |options.value| >= 4
  }

  /** One row of the questions file. The row's fresh id is used when the
      id cell is empty or not a number. A row without type
      or text is skipped; a row whose id matches a question updates it; any
      other row adds a question, unless it is multiple-choice and lacks four
      options or a correct answer. Categories of an added or updated
      question join the category list. */
  function ApplyQuestion(qs: seq<Question>, cats: seq<string>, r: QuestionRowFields)
    : (seq<Question>, seq<string>, RowOutcome)
  {
    if r.kindTag == "" || r.text == "" then (qs, cats, Skipped)
    else
      var kind := KindOf(Lower(r.kindTag));
      var existing := if r.idStr != "" then FindById(qs, r.idStr) else None;
      match existing
      case Some(i) =>
        var q := qs[i].(kind := kind, text := r.text, difficulty := r.difficulty, reference := r.reference,
                        categories := r.categories, imageUrl := r.imageUrl, code := r.code);
        var q' := if kind == MultipleChoice then
                    q.(options := if Usable(r.options) then r.options else q.options,
                       correctAnswer := if r.correct != "" then Some(r.correct) else q.correctAnswer)
                  else q.(options := None, correctAnswer := None);
        (qs[i := q'], AddCategories(cats, r.categories), Updated)
      case None =>
        var id := if r.idStr != "" && ParseDecimal(r.idStr).Some? then ParseDecimal(r.idStr).value else r.freshId;
        var q := Question(id, kind, r.text, None, None, r.categories, r.difficulty, r.reference, r.imageUrl, r.code);
        if kind == MultipleChoice then
          var options :=
            if Usable(r.options) then r.options
            else if r.optionA != "" && r.optionB != "" && r.optionC != "" && r.optionD != "" then
              Some([r.optionA, r.optionB, r.optionC, r.optionD])
            else None;
          if options.None? || r.correct == "" then (qs, cats, Skipped)
          else (qs + [q.(options := options, correctAnswer := Some(r.correct))], AddCategories(cats, r.categories), Added)
        else (qs + [q], AddCategories(cats, r.categories), Added)
  }

  /** The data rows read; `freshIds(r)` is the fresh id of data row r. */
  function ReadQuestionRows(header: seq<string>, rows: seq<seq<string>>,
                            decodeOptions: string -> Option<seq<string>>, freshIds: nat -> int)
    : (fs: seq<QuestionRowFields>)
    ensures |fs| == |rows|
  {
    seq(|rows|, i requires 0 <= i < |rows| => ReadQuestionRow(header, rows[i], decodeOptions, freshIds(i + 1)))
  }

  /** The rows in file order. */
  function QuestionRows(qs: seq<Question>, cats: seq<string>, fields: seq<QuestionRowFields>)
    : (seq<Question>, seq<string>, Tally)
    decreases |fields|
  {
    if fields == [] then (qs, cats, Tally(0, 0, 0))
    else
      var n := |fields| - 1;
      var (qs1, cats1, tally) := QuestionRows(qs, cats, fields[..n]);
      var (qs2, cats2, outcome) := ApplyQuestion(qs1, cats1, fields[n]);
      (qs2, cats2, tally.Bump(outcome))
  }

  /** `importQuestionsCSV` on the parsed file. */
  function ImportQuestions(qs: seq<Question>, cats: seq<string>, rows: seq<seq<string>>,
                           decodeOptions: string -> Option<seq<string>>, freshIds: nat -> int)
    : Result<(seq<Question>, seq<string>, Tally)>
  {
    if |rows| < 1 then Err(EmptyCsv)
    else Ok(QuestionRows(qs, cats, ReadQuestionRows(rows[0], rows[1..], decodeOptions, freshIds)))
  }

  /** One row: the category list stays free of repetitions and takes in the
      categories of an accepted question; only an added row lengthens the
      catalog; a skipped row changes nothing; a stored multiple-choice
      question that was added has options and a correct answer. */
  lemma ApplyQuestionSpec(qs: seq<Question>, cats: seq<string>, r: QuestionRowFields)
    requires Distinct(cats)
    ensures var (qs', cats', o) := ApplyQuestion(qs, cats, r);
      && Distinct(cats')
      && |qs'| == |qs| + (if o == Added then 1 else 0)
      && (o == Skipped ==> qs' == qs && cats' == cats)
      && (r.kindTag == "" || r.text == "" ==> o == Skipped)
      && (o != Skipped ==> forall c :: c in r.categories && c != "" ==> c in cats')
      && (o == Added ==>
            && qs'[..|qs|] == qs && qs'[|qs|].text == r.text
            && (qs'[|qs|].kind == MultipleChoice ==> qs'[|qs|].options.Some? && qs'[|qs|].correctAnswer.Some?))
      && (o == Updated ==>
            exists i :: 0 <= i < |qs| && qs'[i].id == qs[i].id && qs'[i].text == r.text && qs' == qs[i := qs'[i]])
  {
    AddCategoriesSpec(cats, r.categories);
    var (qs', cats', o) := ApplyQuestion(qs, cats, r);
    if o == Updated {
      var i := FindById(qs, r.idStr).value;
      assert qs'[i].id == qs[i].id;
    }
  }

  /** The part of `ApplyQuestionSpec` the fold over rows needs. */
  lemma ApplyQuestionKeeps(qs: seq<Question>, cats: seq<string>, r: QuestionRowFields)
    requires Distinct(cats)
    ensures var (qs', cats', o) := ApplyQuestion(qs, cats, r);
      Distinct(cats') && |qs'| == |qs| + (if o == Added then 1 else 0)
  {
    AddCategoriesSpec(cats, r.categories);
  }

  /** The category list stays free of repetitions. */
  lemma {:induction false} QuestionRowsDistinct(qs: seq<Question>, cats: seq<string>, fields: seq<QuestionRowFields>)
    requires Distinct(cats)
    ensures Distinct(QuestionRows(qs, cats, fields).1)
    decreases |fields|
  {
    if fields != [] {
      var n := |fields| - 1;
      QuestionRowsDistinct(qs, cats, fields[..n]);
      var prev := QuestionRows(qs, cats, fields[..n]);
      ApplyQuestionKeeps(prev.0, prev.1, fields[n]);
    }
  }

  /** The counts add up to the data rows and the catalog grows by the
      number added. */
  lemma {:induction false} QuestionRowsCounts(qs: seq<Question>, cats: seq<string>, fields: seq<QuestionRowFields>)
    requires Distinct(cats)
    ensures var (qs', _, t) := QuestionRows(qs, cats, fields);
      t.Total() == |fields| && |qs'| == |qs| + t.added
    decreases |fields|
  {
    if fields != [] {
      var n := |fields| - 1;
      QuestionRowsCounts(qs, cats, fields[..n]);
      QuestionRowsDistinct(qs, cats, fields[..n]);
      var prev := QuestionRows(qs, cats, fields[..n]);
      ApplyQuestionKeeps(prev.0, prev.1, fields[n]);
    }
  }

  /** `exportQuestionsCSV` (app.js:1113-1117); `encodeOptions` stands for
      `JSON.stringify` of the options array. */
  function QuestionFields(q: Question, encodeOptions: seq<string> -> string): (f: seq<string>)
    ensures |f| == 10
  {
    [IntToString(q.id), KindTag(q.kind), q.text,
     match q.options case None => "" case Some(o) => encodeOptions(o),
     q.correctAnswer.GetOr(""), q.difficulty, q.reference, JoinBar(q.categories), q.imageUrl, q.code]
  }

  /** The header row of the questions export (app.js:1115). */
  const QuestionsHeader: seq<string> :=
    ["id", "type", "text", "options_json", "correctAnswer", "difficulty", "reference", "categories", "imageUrl", "code"]

  /** The questions export as a table: the header, then one row per question
      in bank order. */
  function QuestionsTable(qs: seq<Question>, encodeOptions: seq<string> -> string): (t: seq<seq<string>>)
    ensures |t| == |qs| + 1 && t[0] == QuestionsHeader
    ensures forall i :: 0 <= i < |qs| ==> t[i + 1] == QuestionFields(qs[i], encodeOptions)
  {
    [QuestionsHeader] + seq(|qs|, i requires 0 <= i < |qs| => QuestionFields(qs[i], encodeOptions))
  }

  function QuestionsCsv(qs: seq<Question>, encodeOptions: seq<string> -> string): string {
    CsvText(QuestionsTable(qs, encodeOptions))
  }

  /** A question whose exported cells stay on one line. */
  predicate OneLineQuestion(q: Question, encodeOptions: seq<string> -> string) {
    forall j :: 0 <= j < 10 ==> NoLineBreak(QuestionFields(q, encodeOptions)[j])
  }

  /** The questions export parses back as the table it wrote. */
  lemma QuestionsExportParses(qs: seq<Question>, encodeOptions: seq<string> -> string)
    requires forall i :: 0 <= i < |qs| ==> OneLineQuestion(qs[i], encodeOptions)
    ensures ParseCsvSpec(QuestionsCsv(qs, encodeOptions)) == QuestionsTable(qs, encodeOptions)
  {
    var rows := seq(|qs|, i requires 0 <= i < |qs| => QuestionFields(qs[i], encodeOptions));
    forall i | 0 <= i < |qs| ensures QuotableRow(rows[i]) {
      assert OneLineQuestion(qs[i], encodeOptions);
    }
    QuestionsHeaderQuotable();
    QuotableTable(QuestionsHeader, rows);
    assert QuestionsTable(qs, encodeOptions) == [QuestionsHeader] + rows;
    CsvRoundTrip(QuestionsTable(qs, encodeOptions));
  }

  lemma QuestionsHeaderQuotable()
    ensures QuotableRow(QuestionsHeader)
  {
    var h := QuestionsHeader;
    assert NoLineBreak(h[0]) && NoLineBreak(h[1]) && NoLineBreak(h[2]) && NoLineBreak(h[3]) && NoLineBreak(h[4]);
    assert NoLineBreak(h[5]) && NoLineBreak(h[6]) && NoLineBreak(h[7]) && NoLineBreak(h[8]) && NoLineBreak(h[9]);
  }

  function KindTag(k: Kind): string {
    match k
    case MultipleChoice => "multiple-choice"
    case LongAnswer => "long-answer"
    case OtherKind(tag) => tag
  }

  /** The tag written for a kind reads back as that kind, for the two kinds
      the forms offer. */
  lemma KindTagRoundTrip(k: Kind)
    requires !k.OtherKind?
    ensures KindOf(Lower(KindTag(k))) == k
  {
    match k
    case MultipleChoice =>
      assert Lower("multiple-choice") == "multiple-choice";
    case LongAnswer =>
      assert Lower("long-answer") == "long-answer";
  }
}
