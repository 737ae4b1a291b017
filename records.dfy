/** The records the scraper builds and the JSON form in which snapshots of
    them are stored and compared: the `CourseSession` and `Course`
    dataclasses of main.py, and the field-name-to-value objects that
    send_updates.py loads back and diffs. */
module Records {
  import opened Text

  /** One weekly meeting: a day index (0 is Saturday) and two "HH:MM" times. */
  datatype CourseSession = CourseSession(dayOfWeek: int, startTime: string, endTime: string)

  /** One offering group of a subject in one term. */
  datatype Course = Course(
    code: string,
    group: int,
    name: string,
    lecturer: string,
    capacity: int,
    registered: int,
    units: int,
    examDate: Option<string>,
    examTime: Option<string>,
    sessions: seq<CourseSession>,
    info: Option<string>,
    department: string,
    departmentCode: int,
    grade: string,
    year: int,
    semester: int)

  /** `Course()`: every field at its declared default. */
  const EmptyCourse: Course :=
    Course("", 0, "", "", 0, 0, 0, None, None, [], None, "", 0, "", 0, 0)

  /** The snapshot key of a course, `f"{Code}-{Group}"`. */
  function Key(c: Course): string {
    c.code + "-" + IntToString(c.group)
  }

  /** The key splits back into the code and the group: the code, a dash,
      then text that `int()` reads as the group. */
  lemma KeyParts(c: Course)
    ensures var r := Key(c);
      |c.code| < |r| && r[..|c.code|] == c.code && r[|c.code|] == '-'
      && ParseInt(r[|c.code| + 1..]) == Some(c.group)
  {
    var r, n, g := Key(c), |c.code|, IntToString(c.group);
    assert r == c.code + "-" + g;
    assert r[..n] == c.code && r[n] == '-';
    assert r[n + 1..] == g;
    IntToStringParses(c.group);
  }

  /** Courses whose codes hold no dash share a key only when they share
      code and group: the key splits back at its first dash. */
  lemma KeyDistinct(c: Course, d: Course)
    requires CharFree(c.code, '-') && CharFree(d.code, '-')
    requires Key(c) == Key(d)
    ensures c.code == d.code && c.group == d.group
  {
    KeyParts(c);
    KeyParts(d);
  }

  /** The JSON values a stored course holds: `null`, numbers, strings and
      the array of session objects. */
  datatype Value = Null | Int(i: int) | Str(s: string) | Sessions(list: seq<CourseSession>)

  /** A course as a JSON object: field name to value. */
  type Record = map<string, Value>

  /** A snapshot as loaded from JSON: course key to course object. */
  type Snapshot = map<string, Record>

  /** The field names of `Course`, in declaration order (the order in which
      `asdict` and `json.dump` write them). */
  const CourseFields: seq<string> := [
    "Code", "Group", "Name", "Lecturer", "Capacity", "Registered", "Units",
    "ExamDate", "ExamTime", "Sessions", "Info", "Department",
    "DepartmentCode", "Grade", "Year", "Semester"]

  function OptionalText(o: Option<string>): Value {
    match o
    case None => Null
    case Some(t) => Str(t)
  }

  /** The value `asdict` stores under field `f` of a course. */
  function FieldValue(c: Course, f: string): Value {
    if f == "Code" then Str(c.code)
    else if f == "Group" then Int(c.group)
    else if f == "Name" then Str(c.name)
    else if f == "Lecturer" then Str(c.lecturer)
    else if f == "Capacity" then Int(c.capacity)
    else if f == "Registered" then Int(c.registered)
    else if f == "Units" then Int(c.units)
    else if f == "ExamDate" then OptionalText(c.examDate)
    else if f == "ExamTime" then OptionalText(c.examTime)
    else if f == "Sessions" then Sessions(c.sessions)
    else if f == "Info" then OptionalText(c.info)
    else if f == "Department" then Str(c.department)
    else if f == "DepartmentCode" then Int(c.departmentCode)
    else if f == "Grade" then Str(c.grade)
    else if f == "Year" then Int(c.year)
    else Int(c.semester)
  }

  /** The stored form of a course: `asdict` followed by a JSON round trip. */
  function ToRecord(c: Course): (r: Record)
    ensures r.Keys == set f | f in CourseFields
    ensures forall f :: f in r ==> r[f] == FieldValue(c, f)
  {
    map f | f in CourseFields :: FieldValue(c, f)
  }

  /** Two courses with the same stored form are the same course. */
  lemma ToRecordInjective(c: Course, d: Course)
    requires ToRecord(c) == ToRecord(d)
    ensures c == d
  {
    StoredCode(c); StoredCode(d);
    StoredGroup(c); StoredGroup(d);
    StoredName(c); StoredName(d);
    StoredLecturer(c); StoredLecturer(d);
    StoredCapacity(c); StoredCapacity(d);
    StoredRegistered(c); StoredRegistered(d);
    StoredUnits(c); StoredUnits(d);
    StoredExamDate(c); StoredExamDate(d);
    StoredExamTime(c); StoredExamTime(d);
    StoredSessions(c); StoredSessions(d);
    StoredInfo(c); StoredInfo(d);
    StoredDepartment(c); StoredDepartment(d);
    StoredDepartmentCode(c); StoredDepartmentCode(d);
    StoredGrade(c); StoredGrade(d);
    StoredYear(c); StoredYear(d);
    StoredSemester(c); StoredSemester(d);
    OptionalTextInjective(c.examDate, d.examDate);
    OptionalTextInjective(c.examTime, d.examTime);
    OptionalTextInjective(c.info, d.info);
  }

  lemma OptionalTextInjective(a: Option<string>, b: Option<string>)
    requires OptionalText(a) == OptionalText(b)
    ensures a == b
  {
  }

  lemma StoredCode(c: Course)
    ensures ToRecord(c)["Code"] == Str(c.code)
  {
  }

  lemma StoredGroup(c: Course)
    ensures ToRecord(c)["Group"] == Int(c.group)
  {
  }

  lemma StoredName(c: Course)
    ensures ToRecord(c)["Name"] == Str(c.name)
  {
  }

  lemma StoredLecturer(c: Course)
    ensures ToRecord(c)["Lecturer"] == Str(c.lecturer)
  {
  }

  lemma StoredCapacity(c: Course)
    ensures ToRecord(c)["Capacity"] == Int(c.capacity)
  {
  }

  lemma StoredRegistered(c: Course)
    ensures ToRecord(c)["Registered"] == Int(c.registered)
  {
  }

  lemma StoredUnits(c: Course)
    ensures ToRecord(c)["Units"] == Int(c.units)
  {
  }

  lemma StoredExamDate(c: Course)
    ensures ToRecord(c)["ExamDate"] == OptionalText(c.examDate)
  {
  }

  lemma StoredExamTime(c: Course)
    ensures ToRecord(c)["ExamTime"] == OptionalText(c.examTime)
  {
  }

  lemma StoredSessions(c: Course)
    ensures ToRecord(c)["Sessions"] == Sessions(c.sessions)
  {
  }

  lemma StoredInfo(c: Course)
    ensures ToRecord(c)["Info"] == OptionalText(c.info)
  {
  }

  lemma StoredDepartment(c: Course)
    ensures ToRecord(c)["Department"] == Str(c.department)
  {
  }

  lemma StoredDepartmentCode(c: Course)
    ensures ToRecord(c)["DepartmentCode"] == Int(c.departmentCode)
  {
  }

  lemma StoredGrade(c: Course)
    ensures ToRecord(c)["Grade"] == Str(c.grade)
  {
  }

  lemma StoredYear(c: Course)
    ensures ToRecord(c)["Year"] == Int(c.year)
  {
  }

  lemma StoredSemester(c: Course)
    ensures ToRecord(c)["Semester"] == Int(c.semester)
  {
  }

  /** The snapshot a store is saved as: every course in its stored form,
      under its key. */
  function Stored(store: map<string, Course>): (s: Snapshot)
    ensures s.Keys == store.Keys
    ensures forall k :: k in store ==> s[k] == ToRecord(store[k])
  {
    map k | k in store :: ToRecord(store[k])
  }

  /** How an f-string prints a scalar JSON value: `str(v)`, so `null` prints
      as "None". */
  function Display(v: Value): string
    requires !v.Sessions?
  {
    match v
    case Null => "None"
    case Int(i) => IntToString(i)
    case Str(s) => s
  }
}
