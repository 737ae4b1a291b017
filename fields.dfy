/** fields.py: the labels and value texts used in the change report. Field
    names become Persian labels, missing values a placeholder, and a
    session list one line of text. */
module Fields {
  import opened Text
  import opened Records
  import opened Parsers
  import opened Schedule

  /** `NAMES`: the label of every stored field. */
  const Names: map<string, string> := map[
    "Name" := "🪧 نام درس",
    "Lecturer" := "👨‍🏫 استاد",
    "Capacity" := "📊 ظرفیت",
    "Registered" := "📈 ثبت نامی",
    "ExamDate" := "📅 تاریخ آزمون",
    "ExamTime" := "🕒 ساعت آزمون",
    "Sessions" := "🗓️ برنامه هفتگی",
    "Info" := "💬 توضیحات",
    "Code" := "کد درس",
    "Group" := "گروه درس",
    "Units" := "واحد",
    "Year" := "سال",
    "Semester" := "ترم",
    "Department" := "دانشکده",
    "DepartmentCode" := "کد دانشکده",
    "Grade" := "مقطع"]

  /** `parse_name`: the label of a known field, the field name otherwise. */
  function ParseName(field: string): (r: string) {
    if field in Names then Names[field] else field
  }

  /** Every label starts with a non-ASCII character. */
  lemma LabelsAreNotAscii()
    ensures forall f :: f in Names ==> |Names[f]| > 0 && Names[f][0] > '\U{7F}'
  {
  }

  /** Every labelled field name starts with an ASCII letter. */
  lemma FieldNamesAreAscii()
    ensures forall f :: f in Names ==> |f| > 0 && 'A' <= f[0] <= 'Z'
  {
  }

  /** The name comes back unchanged exactly when it has no label. */
  lemma ParseNameUnchanged(field: string)
    ensures ParseName(field) == field <==> field !in Names
  {
    LabelsAreNotAscii();
    FieldNamesAreAscii();
    if field in Names {
      assert Names[field][0] > '\U{7F}';
      assert field[0] <= '\U{7F}';
    }
  }

  /** Every field of a stored course has a label. */
  lemma CourseFieldsLabelled()
    ensures forall f :: f in CourseFields ==> f in Names
  {
  }

  /** The text shown for a missing value. */
  const Placeholder: string := "تعریف نشده"

  /** `WEEKDAYS` of the renderer. Tuesday is written with a zero-width
      non-joiner, not the plain space the parser's table uses. */
  const Weekdays: seq<string> := ["شنبه", "یکشنبه", "دوشنبه", "سه‌شنبه", "چهارشنبه", "پنجشنبه", "جمعه"]

  /** `WEEKDAYS[d]`, with Python's negative indices counting from the end. */
  function DayName(d: int): string
    requires -7 <= d <= 6
  {
    if d >= 0 then Weekdays[d] else Weekdays[7 + d]
  }

  predicate DaysIndexable(sessions: seq<CourseSession>) {
    forall k :: 0 <= k < |sessions| ==> -7 <= sessions[k].dayOfWeek <= 6
  }

  /** Every session has the first one's start and end. */
  predicate Uniform(sessions: seq<CourseSession>)
    requires |sessions| > 0
  {
    forall k :: 0 <= k < |sessions| ==>
      sessions[k].startTime == sessions[0].startTime && sessions[k].endTime == sessions[0].endTime
  }

  function DayNames(sessions: seq<CourseSession>): (r: seq<string>)
    requires DaysIndexable(sessions)
    ensures |r| == |sessions| && forall k :: 0 <= k < |r| ==> r[k] == DayName(sessions[k].dayOfWeek)
  {
    seq(|sessions|, k requires 0 <= k < |sessions| => DayName(sessions[k].dayOfWeek))
  }

  /** One session written out on its own. */
  function Piece(s: CourseSession): string
    requires -7 <= s.dayOfWeek <= 6
  {
    DayName(s.dayOfWeek) + From + s.startTime + Until + s.endTime
  }

  function Pieces(sessions: seq<CourseSession>): (r: seq<string>)
    requires DaysIndexable(sessions)
    ensures |r| == |sessions| && forall k :: 0 <= k < |r| ==> r[k] == Piece(sessions[k])
  {
    seq(|sessions|, k requires 0 <= k < |sessions| => Piece(sessions[k]))
  }

  const PieceSeparator: string := "، "

  /** `_parse_sessions`: the placeholder for no sessions; the day names
      joined by " و " with one shared time range when all sessions share
      it; otherwise every session written out, joined by "، ". */
  function RenderSessions(sessions: seq<CourseSession>): (r: string)
    requires DaysIndexable(sessions)
    ensures r == Placeholder <==> sessions == []
  {
    if sessions == [] then Placeholder
    else
      WeekdaysLong();
      JoinStartsWithFirst(DaySeparator, DayNames(sessions));
      JoinStartsWithFirst(PieceSeparator, Pieces(sessions));
      if Uniform(sessions) then
        Join(DaySeparator, DayNames(sessions)) + From + sessions[0].startTime + Until + sessions[0].endTime
      else Join(PieceSeparator, Pieces(sessions))
  }

  /** Every weekday name is longer than the placeholder is, less the four
      characters of " از ". */
  lemma WeekdaysLong()
    ensures forall d :: 0 <= d < 7 ==> |Weekdays[d]| >= 4 && |Weekdays[d]| + 4 > |Placeholder| - 4
  {
  }

  /** Python's truth value of a stored value. */
  predicate Falsy(v: Value) {
    v == Null || v == Str("") || v == Int(0) || v == Sessions([])
  }

  /** The values `parse_value` renders without failing or falling back on
      `repr`: a session list (or an empty value) under "Sessions", with
      indexable days; a scalar under any other field. */
  predicate Renderable(field: string, v: Value) {
    if field == "Sessions" then (v.Sessions? && DaysIndexable(v.list)) || Falsy(v)
    else !v.Sessions?
  }

  /** `parse_value` followed by the f-string that prints it. */
  function ParseValue(field: string, v: Value): (r: string)
    requires Renderable(field, v)
    ensures field != "Sessions" && (v == Null || v == Str("")) ==> r == Placeholder
    ensures field != "Sessions" && v != Null && v != Str("") ==> r == Display(v)
    ensures field == "Sessions" && Falsy(v) ==> r == Placeholder
  {
    if field == "Sessions" then
      if v.Sessions? then RenderSessions(v.list) else Placeholder
    else if v == Null || v == Str("") then Placeholder
    else Display(v)
  }

  // ---------------------------------------------------------------------
  // what the rendered text holds

  lemma CharFreeAppend(a: string, b: string, c: char)
    requires CharFree(a, c) && CharFree(b, c)
    ensures CharFree(a + b, c)
  {
  }

  lemma WeekdaysFree()
    ensures forall d :: 0 <= d < 7 ==> CharFree(Weekdays[d], ' ') && CharFree(Weekdays[d], '،')
    ensures forall d :: 0 <= d < 7 ==> NoSpaces(Weekdays[d]) && NoDigits(Weekdays[d])
    ensures NoDigits(DaySeparator)
    ensures CharFree(From, '،') && CharFree(Until, '،')
  {
  }

  /** Non-uniform sessions: splitting the text at "، " gives back one piece
      per session, in order, as long as the times hold no "،". */
  lemma NonUniformPieces(sessions: seq<CourseSession>)
    requires |sessions| > 0 && DaysIndexable(sessions) && !Uniform(sessions)
    requires forall k :: 0 <= k < |sessions| ==>
      CharFree(sessions[k].startTime, '،') && CharFree(sessions[k].endTime, '،')
    ensures Split(RenderSessions(sessions), PieceSeparator) == Pieces(sessions)
    ensures |Split(RenderSessions(sessions), PieceSeparator)| == |sessions|
  {
    WeekdaysFree();
    var ps := Pieces(sessions);
    forall k | 0 <= k < |ps| ensures CharFree(ps[k], PieceSeparator[0]) {
      var s := sessions[k];
      var name := DayName(s.dayOfWeek);
      CharFreeAppend(name, From, '،');
      CharFreeAppend(name + From, s.startTime, '،');
      CharFreeAppend(name + From + s.startTime, Until, '،');
      CharFreeAppend(name + From + s.startTime + Until, s.endTime, '،');
    }
    SplitJoin(PieceSeparator, ps);
  }

  /** The parser's table knows every renderer day name except Tuesday's. */
  lemma DayNameKnown(d: int)
    requires 0 <= d <= 6 && d != 3
    ensures DayName(d) in DayOfWeekMap && DayOfWeekMap[DayName(d)] == d
  {
  }

  /** A day name as the parser reads it: stripped, then looked up. */
  lemma DayNameRead(d: int)
    requires 0 <= d <= 6 && d != 3
    ensures Strip(DayName(d)) in DayOfWeekMap && DayOfWeekMap[Strip(DayName(d))] == d
  {
    WeekdaysFree();
    StripNoSpaces(DayName(d));
    DayNameKnown(d);
  }

  /** Tuesday as rendered is not a name the parser knows. */
  lemma TuesdayNotKnown()
    ensures DayName(3) !in DayOfWeekMap
  {
    assert DayName(3)[2] == '\U{200C}';
  }

  /** Tuesday as rendered reads back as no session at all. */
  lemma TuesdayDropped(start: string, end: string)
    ensures DaySessions([DayName(3)], start, end) == []
  {
    var t := DayName(3);
    TuesdayNotKnown();
    WeekdaysFree();
    StripNoSpaces(t);
    DaySessionsSingle(t, start, end);
  }

  /** Uniform sessions on days other than Tuesday: the parser reads the
      rendered day list back into the same sessions, and their "HH:MM"
      times come back unchanged from the time normaliser. */
  lemma {:induction false} UniformDaysRoundTrip(sessions: seq<CourseSession>)
    requires |sessions| > 0 && Uniform(sessions)
    requires forall k :: 0 <= k < |sessions| ==> 0 <= sessions[k].dayOfWeek <= 6 && sessions[k].dayOfWeek != 3
    requires Clock(sessions[0].startTime) && Clock(sessions[0].endTime)
    ensures var st, et := sessions[0].startTime, sessions[0].endTime;
      DaySessions(Split(Join(DaySeparator, DayNames(sessions)), DaySeparator), FixTimeFormat(st), FixTimeFormat(et))
        == sessions
  {
    var st, et := sessions[0].startTime, sessions[0].endTime;
    FixTimeFormatKeepsClock(st);
    FixTimeFormatKeepsClock(et);
    WeekdaysFree();
    var names := DayNames(sessions);
    SplitJoin(DaySeparator, names);
    DayNamesRead(sessions, st, et);
  }

  lemma DayNamesSnoc(sessions: seq<CourseSession>)
    requires sessions != [] && DaysIndexable(sessions)
    ensures DayNames(sessions) == DayNames(sessions[..|sessions| - 1]) + [DayName(sessions[|sessions| - 1].dayOfWeek)]
  {
  }

  lemma DayNameSession(d: int, st: string, et: string)
    requires 0 <= d <= 6 && d != 3
    ensures DaySessions([DayName(d)], st, et) == [CourseSession(d, st, et)]
  {
    DaySessionsSingle(DayName(d), st, et);
    DayNameRead(d);
  }

  lemma {:induction false} DayNamesRead(sessions: seq<CourseSession>, st: string, et: string)
    requires forall k :: 0 <= k < |sessions| ==> 0 <= sessions[k].dayOfWeek <= 6 && sessions[k].dayOfWeek != 3
    requires forall k :: 0 <= k < |sessions| ==> sessions[k].startTime == st && sessions[k].endTime == et
    ensures DaySessions(DayNames(sessions), st, et) == sessions
    decreases |sessions|
  {
    if sessions != [] {
      var init := sessions[..|sessions| - 1];
      var last := sessions[|sessions| - 1];
      DayNamesRead(init, st, et);
      DayNamesSnoc(sessions);
      DaySessionsAppend(DayNames(init), [DayName(last.dayOfWeek)], st, et);
      DayNameSession(last.dayOfWeek, st, et);
      SnocSplit(sessions);
    }
  }

  /** Uniform sessions on days other than Tuesday, with "HH:MM" times: the
      schedule parser reads the rendered text back into the same sessions.
      The whole text is one match of its pattern, whose day list is the
      joined day names. */
  lemma RenderSessionsRoundTrip(sessions: seq<CourseSession>)
    requires |sessions| > 0 && Uniform(sessions)
    requires forall k :: 0 <= k < |sessions| ==> 0 <= sessions[k].dayOfWeek <= 6 && sessions[k].dayOfWeek != 3
    requires Clock(sessions[0].startTime) && Clock(sessions[0].endTime)
    ensures SessionsOf(RenderSessions(sessions)) == sessions
  {
    var st, et := sessions[0].startTime, sessions[0].endTime;
    var days := Join(DaySeparator, DayNames(sessions));
    assert RenderSessions(sessions) == days + From + st + Until + et;
    WeekdaysFree();
    WeekdaysLong();
    JoinNoDigits(DaySeparator, DayNames(sessions));
    JoinStartsWithFirst(DaySeparator, DayNames(sessions));
    OneSegmentSessions(days, st, et);
    UniformDaysRoundTrip(sessions);
  }
}
