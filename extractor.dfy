/** The row logic of `check_diff` in main.py: the term header, the academic
    level of each table, the row filter, the mapping of fixed columns to
    course fields, the department stamp, and the insertion of every accepted
    row into the store under its key. The page is given as already extracted
    text: the header cell and, per table, the stripped texts of each row's
    cells. */
module Extractor {
  import opened Text
  import opened Records
  import opened Parsers
  import opened Schedule

  /** The stripped texts of a row's `td` cells. */
  type Row = seq<string>

  /** One `.contentTable`: all its rows (`tr`), and its first body row
      (`tbody tr`), which decides the academic level. */
  datatype Table = Table(rows: seq<Row>, firstBodyRow: Option<Row>)

  /** A department's result page: the stripped text of the term header
      cell, when there is one, and the course tables. */
  datatype Page = Page(header: Option<string>, tables: seq<Table>)

  // ---------------------------------------------------------------------
  // the term header: نیمسال (\S+) (\d{4})-(\d{4}), searched

  const HeaderPrefix: string := "نیمسال "

  /** The header pattern matches at `i`. The semester token is a greedy
      `\S+`; only its full extent can be followed by the literal space,
      since every shorter extent is followed by a non-space character. */
  predicate HeaderAt(s: string, i: nat) {
    var p := i + |HeaderPrefix|;
    p <= |s| && s[i..p] == HeaderPrefix
    && (var j := SkipNonSpaces(s, p);
        p < j && j + 10 <= |s| && s[j] == ' ' && IsDigits(s[j + 1..j + 5])
        && s[j + 5] == '-' && IsDigits(s[j + 6..j + 10]))
  }

  /** The leftmost match at or after `i`. */
  function HeaderSearch(s: string, i: nat): (r: Option<nat>)
    requires i <= |s|
    ensures r.Some? ==> i <= r.value && HeaderAt(s, r.value)
    ensures r.Some? ==> forall k :: i <= k < r.value ==> !HeaderAt(s, k)
    ensures r.None? ==> forall k :: i <= k ==> !HeaderAt(s, k)
    decreases |s| - i
  {
    if HeaderAt(s, i) then Some(i)
    else if i == |s| then None
    else HeaderSearch(s, i + 1)
  }

  /** The year and the semester number a page is stamped with. */
  datatype Term = Term(year: int, semester: int)

  /** "اول" is the first semester, "دوم" the second, any other token the third. */
  function SemesterNumber(token: string): int {
    if token == "اول" then 1 else if token == "دوم" then 2 else 3
  }

  /** The term read from a match at `i`: the SECOND four-digit number is
      the year. */
  function MatchTerm(s: string, i: nat): Term
    requires HeaderAt(s, i)
  {
    var p := i + |HeaderPrefix|;
    var j := SkipNonSpaces(s, p);
    Term(DigitsValue(s[j + 6..j + 10]), SemesterNumber(s[p..j]))
  }

  /** The term of a page: read from the leftmost match in the header, and
      `Term(0, 0)` when there is no header or it does not match. */
  function TermOf(header: Option<string>): (r: Term)
    ensures 0 <= r.year <= 9999 && 0 <= r.semester <= 3
    ensures r.semester == 0 <==> header.None? || forall i :: !HeaderAt(header.value, i)
    ensures r.semester == 0 ==> r.year == 0
    ensures r.semester != 0 ==> exists i: nat ::
      HeaderAt(header.value, i) && r == MatchTerm(header.value, i)
      && forall k: nat :: k < i ==> !HeaderAt(header.value, k)
  {
    match header
    case None => Term(0, 0)
    case Some(s) =>
      match HeaderSearch(s, 0)
      case None => Term(0, 0)
      case Some(i) =>
        var j := SkipNonSpaces(s, i + |HeaderPrefix|);
        DigitsValueBound(s[j + 6..j + 10]);
        MatchTerm(s, i)
  }

  lemma {:induction false} DigitsValueBound(d: string)
    requires IsDigits(d)
    ensures DigitsValue(d) < Pow10(|d|)
    decreases |d|
  {
    if |d| > 1 {
      DigitsValueBound(d[..|d| - 1]);
    } else {
      assert d[..0] == [];
    }
  }

  function Pow10(n: nat): nat {
    if n == 0 then 1 else 10 * Pow10(n - 1)
  }

  lemma {:induction false} SkipNonSpacesIs(s: string, p: nat, e: nat)
    requires p <= e <= |s| && NoSpaces(s[p..e]) && (e == |s| || IsSpace(s[e]))
    ensures SkipNonSpaces(s, p) == e
    decreases e - p
  {
    if p < e {
      assert s[p..e][0] == s[p];
      assert s[p + 1..e] == s[p..e][1..];
      SkipNonSpacesIs(s, p + 1, e);
    }
  }

  /** A header laid out as `نیمسال <token> <start>-<end>`: the semester
      comes from the token and the year is the end year. */
  lemma TermOfHeader(s: string, j: nat)
    requires |HeaderPrefix| < j && j + 10 == |s| && s[..|HeaderPrefix|] == HeaderPrefix
    requires NoSpaces(s[|HeaderPrefix|..j]) && s[j] == ' ' && s[j + 5] == '-'
    requires IsDigits(s[j + 1..j + 5]) && IsDigits(s[j + 6..])
    ensures TermOf(Some(s)) == Term(DigitsValue(s[j + 6..]), SemesterNumber(s[|HeaderPrefix|..j]))
  {
    SkipNonSpacesIs(s, |HeaderPrefix|, j);
    assert s[0..|HeaderPrefix|] == s[..|HeaderPrefix|];
    assert s[j + 6..j + 10] == s[j + 6..];
    assert HeaderAt(s, 0);
  }

  // ---------------------------------------------------------------------
  // the academic level of a table

  const MastersKeyword: string := "کارشناسی ارشد"
  const DoctoralKeyword: string := "دکترا"

  /** "ms" when the first body row's cells, joined by spaces, mention the
      master's level, else "phd" when they mention the doctoral level, else
      "bs" (also for a table without a body row). */
  function GradeOf(first: Option<Row>): (g: string)
    ensures g == "ms" || g == "phd" || g == "bs"
  {
    match first
    case None => "bs"
    case Some(row) =>
      var text := Join(" ", row);
      if Contains(text, MastersKeyword) then "ms"
      else if Contains(text, DoctoralKeyword) then "phd"
      else "bs"
  }

  lemma OccursInSuffix(a: string, b: string, sub: string, j: int)
    requires OccursAt(b, sub, j)
    ensures OccursAt(a + b, sub, |a| + j)
  {
    assert (a + b)[|a| + j..|a| + j + |sub|] == b[j..j + |sub|];
  }

  /** Text found in one cell is found in the joined row. */
  lemma {:induction false} ContainsJoin(sep: string, parts: seq<string>, k: nat, sub: string)
    requires k < |parts| && Contains(parts[k], sub)
    ensures Contains(Join(sep, parts), sub)
    decreases k
  {
    var i :| 0 <= i <= |parts[k]| && OccursAt(parts[k], sub, i);
    if |parts| > 1 {
      var rest := Join(sep, parts[1..]);
      assert Join(sep, parts) == (parts[0] + sep) + rest;
      if k == 0 {
        assert (parts[0] + sep + rest)[..|parts[0]|] == parts[0];
        OccursInPrefix(parts[0] + sep + rest, sub, |parts[0]|, i);
      } else {
        ContainsJoin(sep, parts[1..], k - 1, sub);
        var i' :| 0 <= i' <= |rest| && OccursAt(rest, sub, i');
        OccursInSuffix(parts[0] + sep, rest, sub, i');
      }
    }
  }

  /** A cell mentioning the master's level makes the table's level "ms". */
  lemma GradeOfMasters(row: Row, k: nat)
    requires k < |row| && Contains(row[k], MastersKeyword)
    ensures GradeOf(Some(row)) == "ms"
  {
    ContainsJoin(" ", row, k, MastersKeyword);
  }

  /** A cell mentioning the doctoral level makes it "phd", unless the row
      also mentions the master's level. */
  lemma GradeOfDoctoral(row: Row, k: nat)
    requires k < |row| && Contains(row[k], DoctoralKeyword)
    requires !Contains(Join(" ", row), MastersKeyword)
    ensures GradeOf(Some(row)) == "phd"
  {
    ContainsJoin(" ", row, k, DoctoralKeyword);
  }

  // ---------------------------------------------------------------------
  // one row

  /** Only rows whose first cell is all digits are course rows. */
  predicate AcceptsRow(row: Row) {
    |row| > 0 && IsDigits(row[0])
  }

  /** The course the cell loop has built after the first `n` cells: each
      field comes from its own column once that column is reached, and
      keeps its default before. Columns 4 and 10 and those after 11 set
      nothing; an integer column that does not parse leaves its field 0. */
  function CellsCourse(row: Row, n: nat): (c: Course)
    requires n <= |row|
  {
    var exam := if 8 < n then ParseExamDateTime(row[8]) else (None, None);
    Course(
      code := if 0 < n then row[0] else "",
      group := if 1 < n then IntOrZero(row[1]) else 0,
      name := if 3 < n then row[3] else "",
      lecturer := if 7 < n then row[7] else "",
      capacity := if 5 < n then IntOrZero(row[5]) else 0,
      registered := if 6 < n then IntOrZero(row[6]) else 0,
      units := if 2 < n then IntOrZero(row[2]) else 0,
      examDate := TrimAndNil(exam.0),
      examTime := TrimAndNil(exam.1),
      sessions := if 9 < n then SessionsOf(row[9]) else [],
      info := if 11 < n then TrimAndNil(Some(row[11])) else None,
      department := "",
      departmentCode := 0,
      grade := "",
      year := 0,
      semester := 0)
  }

  /** The course read from all of a row's cells. */
  function RowCourse(row: Row): Course {
    CellsCourse(row, |row|)
  }

  /** `department_name.replace("_", " ")`. */
  function Humanize(name: string): (r: string)
    ensures |r| == |name| && CharFree(r, '_')
    ensures forall i :: 0 <= i < |name| && name[i] != '_' ==> r[i] == name[i]
    ensures forall i :: 0 <= i < |name| && name[i] == '_' ==> r[i] == ' '
  {
    if name == [] then []
    else Humanize(name[..|name| - 1]) + [if name[|name| - 1] == '_' then ' ' else name[|name| - 1]]
  }

  /** What a page stamps on every course of one table. */
  datatype Context = Context(grade: string, term: Term, departmentName: string, departmentId: int)

  function Stamped(c: Course, ctx: Context): Course {
    c.(grade := ctx.grade, year := ctx.term.year, semester := ctx.term.semester,
       department := Humanize(ctx.departmentName), departmentCode := ctx.departmentId)
  }

  /** One row into one course: the loop over the cells, then the stamp. */
  method BuildCourse(row: Row, ctx: Context) returns (c: Course)
    ensures c == Stamped(RowCourse(row), ctx)
  {
    c := EmptyCourse;
    for i := 0 to |row|
      invariant c == CellsCourse(row, i)
    {
      var text := row[i];
      if i == 0 {
        c := c.(code := text);
      } else if i == 1 {
        match ParseInt(text) { case Some(v) => c := c.(group := v); case None => }
      } else if i == 2 {
        match ParseInt(text) { case Some(v) => c := c.(units := v); case None => }
      } else if i == 3 {
        c := c.(name := text);
      } else if i == 5 {
        match ParseInt(text) { case Some(v) => c := c.(capacity := v); case None => }
      } else if i == 6 {
        match ParseInt(text) { case Some(v) => c := c.(registered := v); case None => }
      } else if i == 7 {
        c := c.(lecturer := text);
      } else if i == 8 {
        var (date, time) := ParseExamDateTime(text);
        c := c.(examDate := TrimAndNil(date), examTime := TrimAndNil(time));
      } else if i == 9 {
        var sessions := ParseCourseSession(text);
        c := c.(sessions := sessions);
      } else if i == 11 {
        c := c.(info := TrimAndNil(Some(text)));
      }
    }
    c := c.(grade := ctx.grade, year := ctx.term.year, semester := ctx.term.semester);
    c := c.(department := Humanize(ctx.departmentName), departmentCode := ctx.departmentId);
  }

  // ---------------------------------------------------------------------
  // tables and pages

  /** The accepted rows, in order. */
  function Accepted(rows: seq<Row>): (r: seq<Row>)
    ensures |r| <= |rows|
    ensures forall k :: 0 <= k < |r| ==> AcceptsRow(r[k]) && r[k] in rows
    ensures forall row :: row in rows && AcceptsRow(row) ==> row in r
  {
    if rows == [] then []
    else
      var last := rows[|rows| - 1];
      Accepted(rows[..|rows| - 1]) + (if AcceptsRow(last) then [last] else [])
  }

  /** The courses one table yields, one per accepted row, in row order. */
  function TableCourses(rows: seq<Row>, ctx: Context): (r: seq<Course>)
    ensures |r| == |Accepted(rows)|
  {
    var acc := Accepted(rows);
    seq(|acc|, k requires 0 <= k < |acc| => Stamped(RowCourse(acc[k]), ctx))
  }

  /** The context of one table of a page. */
  function TableContext(t: Table, term: Term, departmentName: string, departmentId: int): Context {
    Context(GradeOf(t.firstBodyRow), term, departmentName, departmentId)
  }

  /** The courses a page yields, table by table. */
  function TablesCourses(tables: seq<Table>, term: Term, departmentName: string, departmentId: int): seq<Course> {
    if tables == [] then []
    else
      var t := tables[|tables| - 1];
      TablesCourses(tables[..|tables| - 1], term, departmentName, departmentId)
        + TableCourses(t.rows, TableContext(t, term, departmentName, departmentId))
  }

  function PageCourses(page: Page, departmentName: string, departmentId: int): seq<Course> {
    TablesCourses(page.tables, TermOf(page.header), departmentName, departmentId)
  }

  /** The store after inserting `cs` in order, each under its key. */
  function InsertAll(m: map<string, Course>, cs: seq<Course>): map<string, Course> {
    if cs == [] then m
    else
      var c := cs[|cs| - 1];
      InsertAll(m, cs[..|cs| - 1])[Key(c) := c]
  }

  lemma TableCoursesSnoc(rows: seq<Row>, k: nat, ctx: Context)
    requires k < |rows|
    ensures TableCourses(rows[..k + 1], ctx) == TableCourses(rows[..k], ctx)
      + (if AcceptsRow(rows[k]) then [Stamped(RowCourse(rows[k]), ctx)] else [])
  {
    assert rows[..k + 1][..k] == rows[..k];
  }

  lemma TablesCoursesSnoc(tables: seq<Table>, k: nat, term: Term, name: string, id: int)
    requires k < |tables|
    ensures TablesCourses(tables[..k + 1], term, name, id) == TablesCourses(tables[..k], term, name, id)
      + TableCourses(tables[k].rows, TableContext(tables[k], term, name, id))
  {
    assert tables[..k + 1][..k] == tables[..k];
  }

  /** One more accepted row: the store gains that row's course. */
  lemma InsertAccepted(m: map<string, Course>, rows: seq<Row>, k: nat, ctx: Context, c: Course)
    requires k < |rows| && AcceptsRow(rows[k]) && c == Stamped(RowCourse(rows[k]), ctx)
    ensures |TableCourses(rows[..k + 1], ctx)| == |TableCourses(rows[..k], ctx)| + 1
    ensures InsertAll(m, TableCourses(rows[..k + 1], ctx)) == InsertAll(m, TableCourses(rows[..k], ctx))[Key(c) := c]
  {
    TableCoursesSnoc(rows, k, ctx);
    InsertAllAppend(m, TableCourses(rows[..k], ctx), [c]);
    assert [c][..0] == [];
  }

  /** One more rejected row: nothing changes. */
  lemma SkipRejected(rows: seq<Row>, k: nat, ctx: Context)
    requires k < |rows| && !AcceptsRow(rows[k])
    ensures TableCourses(rows[..k + 1], ctx) == TableCourses(rows[..k], ctx)
  {
    TableCoursesSnoc(rows, k, ctx);
  }

  lemma {:induction false} InsertAllAppend(m: map<string, Course>, a: seq<Course>, b: seq<Course>)
    ensures InsertAll(m, a + b) == InsertAll(InsertAll(m, a), b)
    decreases |b|
  {
    if b == [] {
      assert a + b == a;
    } else {
      assert (a + b)[..|a + b| - 1] == a + b[..|b| - 1];
      InsertAllAppend(m, a, b[..|b| - 1]);
    }
  }

  // ---------------------------------------------------------------------
  // properties of the extraction

  /** Columns 4 and 10, and every column after 11, do not affect the course. */
  lemma IgnoredColumns(row: Row, k: nat, x: string)
    requires k < |row| && (k == 4 || k == 10 || k > 11)
    ensures RowCourse(row[k := x]) == RowCourse(row)
  {
  }

  /** The key of a row's course is its first cell, a dash and the group
      number, 0 when the group cell is missing or does not parse. */
  lemma RowCourseKey(row: Row)
    requires AcceptsRow(row)
    ensures Key(RowCourse(row)) == row[0] + "-" + IntToString(if |row| > 1 then IntOrZero(row[1]) else 0)
  {
  }

  /** Every course of a page carries the page's term and the department's
      name and code, and the level of the table it came from. */
  lemma {:induction false} TablesCoursesStamped(tables: seq<Table>, term: Term, name: string, id: int)
    ensures forall c :: c in TablesCourses(tables, term, name, id) ==>
      c.department == Humanize(name) && c.departmentCode == id
      && c.year == term.year && c.semester == term.semester
      && (c.grade == "bs" || c.grade == "ms" || c.grade == "phd")
    decreases |tables|
  {
    if tables != [] {
      var t := tables[|tables| - 1];
      TablesCoursesStamped(tables[..|tables| - 1], term, name, id);
      var ctx := TableContext(t, term, name, id);
      assert forall c :: c in TableCourses(t.rows, ctx) ==> c.grade == GradeOf(t.firstBodyRow);
    }
  }

  /** The number of courses a page yields is the number of accepted rows
      over all its tables. */
  lemma {:induction false} TablesCoursesCount(tables: seq<Table>, term: Term, name: string, id: int)
    ensures |TablesCourses(tables, term, name, id)| == AcceptedCount(tables)
    decreases |tables|
  {
    if tables != [] {
      TablesCoursesCount(tables[..|tables| - 1], term, name, id);
    }
  }

  function AcceptedCount(tables: seq<Table>): nat {
    if tables == [] then 0
    else AcceptedCount(tables[..|tables| - 1]) + |Accepted(tables[|tables| - 1].rows)|
  }

  /** The keys of the store afterwards: the old keys and those of the
      inserted courses. */
  lemma {:induction false} InsertAllKeys(m: map<string, Course>, cs: seq<Course>)
    ensures InsertAll(m, cs).Keys == m.Keys + set c | c in cs :: Key(c)
    decreases |cs|
  {
    if cs != [] {
      var init := cs[..|cs| - 1];
      InsertAllKeys(m, init);
      assert cs == init + [cs[|cs| - 1]];
      assert (set c | c in cs :: Key(c)) == (set c | c in init :: Key(c)) + {Key(cs[|cs| - 1])};
    }
  }

  /** Last write wins: a key holds the last course inserted under it. */
  lemma {:induction false} InsertAllLastWins(m: map<string, Course>, cs: seq<Course>, i: nat)
    requires i < |cs| && forall j :: i < j < |cs| ==> Key(cs[j]) != Key(cs[i])
    ensures Key(cs[i]) in InsertAll(m, cs) && InsertAll(m, cs)[Key(cs[i])] == cs[i]
    decreases |cs|
  {
    if i < |cs| - 1 {
      var init := cs[..|cs| - 1];
      assert forall j :: i < j < |init| ==> init[j] == cs[j];
      InsertAllLastWins(m, init, i);
    }
  }

  /** A key no inserted course has keeps its old entry, or its absence. */
  lemma {:induction false} InsertAllUntouched(m: map<string, Course>, cs: seq<Course>, k: string)
    requires forall j :: 0 <= j < |cs| ==> Key(cs[j]) != k
    ensures k in InsertAll(m, cs) <==> k in m
    ensures k in m ==> InsertAll(m, cs)[k] == m[k]
    decreases |cs|
  {
    if cs != [] {
      InsertAllUntouched(m, cs[..|cs| - 1], k);
    }
  }

  // ---------------------------------------------------------------------
  // the global store

  /** The scraper's global `COURSES` dictionary. */
  class CourseStore {
    var courses: map<string, Course>

    constructor()
      ensures courses == map[]
    {
      courses := map[];
    }

    /** The row loop of one table: every accepted row is built, stamped and
        stored under its key; the count is the number of accepted rows. */
    method InsertRows(rows: seq<Row>, ctx: Context) returns (got: nat)
      modifies this
      ensures got == |Accepted(rows)|
      ensures courses == InsertAll(old(courses), TableCourses(rows, ctx))
    {
      got := 0;
      for k := 0 to |rows|
        invariant got == |TableCourses(rows[..k], ctx)|
        invariant courses == InsertAll(old(courses), TableCourses(rows[..k], ctx))
      {
        var row := rows[k];
        if AcceptsRow(row) {
          var c := BuildCourse(row, ctx);
          InsertAccepted(old(courses), rows, k, ctx, c);
          courses := courses[Key(c) := c];
          got := got + 1;
        } else {
          SkipRejected(rows, k, ctx);
        }
      }
      assert rows[..|rows|] == rows;
    }

    /** `check_diff` after the page is fetched: the term is read once, each
        table's level from its first body row, and all accepted rows are
        stored; the result is the number of rows stored. */
    method CheckDiff(page: Page, departmentId: int, departmentName: string) returns (got: nat)
      modifies this
      ensures got == |PageCourses(page, departmentName, departmentId)|
      ensures courses == InsertAll(old(courses), PageCourses(page, departmentName, departmentId))
    {
      var term := TermOf(page.header);
      var tables := page.tables;
      got := 0;
      for k := 0 to |tables|
        invariant got == |TablesCourses(tables[..k], term, departmentName, departmentId)|
        invariant courses == InsertAll(old(courses), TablesCourses(tables[..k], term, departmentName, departmentId))
      {
        TablesCoursesSnoc(tables, k, term, departmentName, departmentId);
        var ctx := TableContext(tables[k], term, departmentName, departmentId);
        var n := InsertRows(tables[k].rows, ctx);
        got := got + n;
        InsertAllAppend(old(courses), TablesCourses(tables[..k], term, departmentName, departmentId),
          TableCourses(tables[k].rows, ctx));
      }
      assert tables[..|tables|] == tables;
    }
  }
}
