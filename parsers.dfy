/** The value parsers of main.py: `trim_and_nil_if_empty`, `fix_time_format`
    and `parse_exam_date_time`. Regular expressions are written out as
    matchers with the leftmost-first, greedy choices of Python's `re`. */
module Parsers {
  import opened Text

  // ---------------------------------------------------------------------
  // trim_and_nil_if_empty

  /** Strip a cell's text and treat what is left empty as missing. */
  function TrimAndNil(s: Option<string>): (r: Option<string>)
    ensures r.None? <==> s.None? || AllSpace(s.value)
    ensures r.Some? ==> r.value != [] && !IsSpace(r.value[0]) && !IsSpace(r.value[|r.value| - 1])
    ensures r.Some? ==> r.value == Strip(s.value)
  {
    match s
    case None => None
    case Some(t) =>
      var stripped := Strip(t);
      if stripped != "" then Some(stripped) else None
  }

  /** Text without surrounding whitespace is kept as it is. */
  lemma TrimAndNilKeeps(t: string)
    requires t != [] && NoSpaces(t)
    ensures TrimAndNil(Some(t)) == Some(t)
  {
    StripNoSpaces(t);
  }

  // ---------------------------------------------------------------------
  // fix_time_format

  /** A one-character hour gets a leading "0". */
  function PadHour(h: string): (r: string)
    ensures |r| != 1
  {
    if |h| == 1 then "0" + h else h
  }

  /** A one-character minute gets a TRAILING "0" ("5" becomes "50"). */
  function PadMinute(m: string): (r: string)
    ensures |r| != 1
  {
    if |m| == 1 then m + "0" else m
  }

  /** `fix_time_format`: pad both halves of "H:M"; any text that does not
      split into exactly two pieces at ":" is returned as it is. */
  function FixTimeFormat(t: string): string {
    var parts := Split(t, ":");
    if |parts| == 2 then PadHour(parts[0]) + ":" + PadMinute(parts[1]) else t
  }

  /** "HH:MM": two digits, a colon, two digits. */
  predicate Clock(t: string) {
    |t| == 5 && IsDigit(t[0]) && IsDigit(t[1]) && t[2] == ':' && IsDigit(t[3]) && IsDigit(t[4])
  }

  lemma NoColonPiece(p: string)
    requires !Contains(p, ":")
    ensures CharFree(p, ':')
  {
    forall i | 0 <= i < |p| ensures p[i] != ':' {
      assert !OccursAt(p, ":", i);
      assert p[i..i + 1] == [p[i]];
    }
  }

  lemma PadKeepsColonFree(h: string, m: string)
    requires CharFree(h, ':') && CharFree(m, ':')
    ensures CharFree(PadHour(h), ':') && CharFree(PadMinute(m), ':')
  {
  }

  /** With exactly one colon, the hour and the minute are padded separately. */
  lemma {:induction false} FixTimeFormatParts(h: string, m: string)
    requires CharFree(h, ':') && CharFree(m, ':')
    ensures FixTimeFormat(h + ":" + m) == PadHour(h) + ":" + PadMinute(m)
  {
    var parts := [h, m];
    assert parts[1..] == [m];
    assert Join(":", parts) == h + ":" + m;
    SplitJoin(":", parts);
  }

  /** Any number of colons other than one leaves the text unchanged. */
  lemma {:induction false} FixTimeFormatOtherwise(t: string)
    requires CountChar(t, ':') != 1
    ensures FixTimeFormat(t) == t
  {
    SplitCount(t, ':');
  }

  /** Padding twice is padding once: already padded halves are left alone. */
  lemma {:induction false} FixTimeFormatIdempotent(t: string)
    ensures FixTimeFormat(FixTimeFormat(t)) == FixTimeFormat(t)
  {
    var parts := Split(t, ":");
    if |parts| == 2 {
      NoColonPiece(parts[0]);
      NoColonPiece(parts[1]);
      PadKeepsColonFree(parts[0], parts[1]);
      FixTimeFormatParts(PadHour(parts[0]), PadMinute(parts[1]));
    }
  }

  /** The literal rule: "9:5" becomes "09:50", and "10:30" is kept. */
  lemma FixTimeFormatExamples()
    ensures FixTimeFormat("9:5") == "09:50"
    ensures FixTimeFormat("10:30") == "10:30"
  {
    NineFive();
    FixTimeFormatParts("9", "5");
    FixTimeFormatKeepsClock("10:30");
  }

  lemma NineFive()
    ensures "9" + ":" + "5" == "9:5"
  {
  }

  /** One or two digits. */
  predicate ShortNumber(d: string) {
    1 <= |d| <= 2 && IsDigit(d[0]) && IsDigit(d[|d| - 1])
  }

  lemma PadShortNumber(d: string)
    requires ShortNumber(d)
    ensures var h := PadHour(d); |h| == 2 && IsDigit(h[0]) && IsDigit(h[1])
    ensures var m := PadMinute(d); |m| == 2 && IsDigit(m[0]) && IsDigit(m[1])
  {
  }

  /** Every `\d{1,2}:\d{1,2}` time comes out as "HH:MM". */
  lemma FixTimeFormatClock(h: string, m: string)
    requires ShortNumber(h) && ShortNumber(m)
    ensures Clock(FixTimeFormat(h + ":" + m))
  {
    FixTimeFormatParts(h, m);
    PadShortNumber(h);
    PadShortNumber(m);
    var r := PadHour(h) + ":" + PadMinute(m);
    assert r[0] == PadHour(h)[0] && r[1] == PadHour(h)[1] && r[2] == ':';
    assert r[3] == PadMinute(m)[0] && r[4] == PadMinute(m)[1];
  }

  /** A time already in "HH:MM" form is left as it is. */
  lemma FixTimeFormatKeepsClock(t: string)
    requires Clock(t)
    ensures FixTimeFormat(t) == t
  {
    var h, m := t[..2], t[3..];
    assert t == h + ":" + m;
    FixTimeFormatParts(h, m);
  }

  // ---------------------------------------------------------------------
  // parse_exam_date_time: (?P<date>\S+)\s*(?P<time>\d{2}:\d{2}), searched

  predicate ClockAt(s: string, k: nat) {
    k + 5 <= |s| && Clock(s[k..k + 5])
  }

  /** The pattern matches with the date token at `s[i..j]`: a non-empty run
      of non-whitespace, then the whitespace after it (greedy `\s*`; giving
      back whitespace cannot help, since a digit must follow), then a time. */
  predicate ExamMatch(s: string, i: nat, j: nat) {
    i < j <= |s| && NoSpaces(s[i..j]) && ClockAt(s, SkipSpaces(s, j))
  }

  /** Greedy `\S+` from `i`: the longest date ending at or before `j` that
      lets the rest match. */
  function DateEnd(s: string, i: nat, j: nat): (r: Option<nat>)
    requires j <= |s|
    ensures r.Some? ==> r.value <= j && ExamMatch(s, i, r.value)
    ensures r.Some? ==> forall j': nat :: r.value < j' <= j ==> !ExamMatch(s, i, j')
    ensures r.None? ==> forall j': nat :: j' <= j ==> !ExamMatch(s, i, j')
    decreases j
  {
    if j <= i then None
    else if ExamMatch(s, i, j) then Some(j)
    else DateEnd(s, i, j - 1)
  }

  /** The leftmost start at or after `i` where the pattern matches, with the
      date end chosen there. */
  function ExamSearch(s: string, i: nat): (r: Option<(nat, nat)>)
    requires i <= |s|
    ensures r.Some? ==> i <= r.value.0 && ExamMatch(s, r.value.0, r.value.1)
    ensures r.Some? ==> forall j': nat :: r.value.1 < j' ==> !ExamMatch(s, r.value.0, j')
    ensures r.Some? ==> forall i': nat, j': nat :: i <= i' < r.value.0 ==> !ExamMatch(s, i', j')
    ensures r.None? ==> forall i': nat, j': nat :: i <= i' ==> !ExamMatch(s, i', j')
    decreases |s| - i
  {
    if i == |s| then None
    else match DateEnd(s, i, |s|)
      case Some(j) => Some((i, j))
      case None => ExamSearch(s, i + 1)
  }

  /** `parse_exam_date_time`: the date token and the "HH:MM" time of the
      leftmost match, or `(None, None)` when nothing matches. */
  function ParseExamDateTime(s: string): (r: (Option<string>, Option<string>))
    ensures r.0.None? <==> r.1.None?
    ensures r.0.None? <==> forall i: nat, j: nat :: !ExamMatch(s, i, j)
    ensures r.1.Some? ==> Clock(r.1.value)
    ensures r.0.Some? ==> r.0.value != [] && NoSpaces(r.0.value)
    ensures r.0.Some? ==> exists i: nat, j: nat ::
      (ExamMatch(s, i, j) && r.0.value == s[i..j]
       && r.1.value == s[SkipSpaces(s, j)..SkipSpaces(s, j) + 5])
  {
    match ExamSearch(s, 0)
    case None => (None, None)
    case Some((i, j)) =>
      var k := SkipSpaces(s, j);
      (Some(s[i..j]), Some(s[k..k + 5]))
  }

  /** The date end found from `j` is `k` when `k` matches and nothing
      between them does. */
  lemma {:induction false} DateEndIs(s: string, i: nat, j: nat, k: nat)
    requires k <= j <= |s| && ExamMatch(s, i, k)
    requires forall j': nat :: k < j' <= j ==> !ExamMatch(s, i, j')
    ensures DateEnd(s, i, j) == Some(k)
    decreases j
  {
    if j > k { DateEndIs(s, i, j - 1, k); }
  }

  /** A date token, one space and a time: the cell splits into exactly those. */
  lemma ParseExamDateTimeOfCell(d: string, t: string)
    requires d != [] && NoSpaces(d) && Clock(t)
    ensures ParseExamDateTime(d + " " + t) == (Some(d), Some(t))
  {
    var s := d + " " + t;
    var n := |d|;
    assert s[n] == ' ' && s[n + 1] == t[0];
    assert SkipSpaces(s, n + 1) == n + 1;
    assert SkipSpaces(s, n) == n + 1;
    assert s[0..n] == d;
    assert s[n + 1..n + 6] == t;
    assert ExamMatch(s, 0, n);
    forall j': nat | n < j' <= |s| ensures !ExamMatch(s, 0, j') {
      assert s[0..j'][n] == s[n];
    }
    DateEndIs(s, 0, |s|, n);
    assert ExamSearch(s, 0) == Some((0, n));
  }

  /** A typical exam cell. */
  lemma ParseExamDateTimeExample()
    ensures ParseExamDateTime("1403/10/12 14:00") == (Some("1403/10/12"), Some("14:00"))
  {
    var d, t := "1403/10/12", "14:00";
    ExampleDateToken();
    ExampleTime();
    ParseExamDateTimeOfCell(d, t);
    ExampleCell();
  }

  lemma ExampleCell()
    ensures "1403/10/12" + " " + "14:00" == "1403/10/12 14:00"
  {
  }

  lemma ExampleDateToken()
    ensures NoSpaces("1403/10/12")
  {
    var d := "1403/10/12";
    forall i | 0 <= i < |d| ensures !IsSpace(d[i]) {
      assert IsDigit(d[i]) || d[i] == '/';
    }
  }

  lemma ExampleTime()
    ensures Clock("14:00")
  {
  }
}
