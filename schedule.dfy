/** `parse_course_session` of main.py: the weekly-schedule cell is scanned for
    segments `<days> از <start> تا <end>` (the regular expression
    `(?P<days>[^\d]+) از (?P<start>\d{1,2}:\d{1,2}) تا (?P<end>\d{1,2}:\d{1,2})`
    under `finditer`), and every recognised day of a segment becomes one
    session with that segment's normalised times. */
module Schedule {
  import opened Text
  import opened Records
  import opened Parsers

  /** `DAY_OF_WEEK_MAP`: Persian day names to indices, Saturday first. Note
      the plain space inside Tuesday's name. */
  const DayOfWeekMap: map<string, int> := map[
    "شنبه" := 0, "یکشنبه" := 1, "دوشنبه" := 2, "سه شنبه" := 3,
    "چهارشنبه" := 4, "پنجشنبه" := 5, "جمعه" := 6]

  /** The literal between the day list and the start time. */
  const From: string := " از "
  /** The literal between the start and the end time. */
  const Until: string := " تا "
  /** What separates the day names of one segment. */
  const DaySeparator: string := " و "

  lemma DayIndicesInRange()
    ensures forall name :: name in DayOfWeekMap ==> 0 <= DayOfWeekMap[name] <= 6
  {
  }

  // ---------------------------------------------------------------------
  // the matcher

  /** "H:M" with one- or two-digit halves: what `\d{1,2}:\d{1,2}` accepts. */
  predicate ShortTime(t: string) {
    ShortTimeWithColonAt(t, 1) || ShortTimeWithColonAt(t, 2)
  }

  /** "H:M" with the colon at `k`. */
  predicate ShortTimeWithColonAt(t: string, k: nat) {
    k < |t| && t[k] == ':' && ShortNumber(t[..k]) && ShortNumber(t[k + 1..])
  }

  /** Greedy `\d{1,2}` at `p`. */
  function ShortDigitsEnd(s: string, p: nat): (r: Option<nat>)
    requires p <= |s|
    ensures r.Some? ==> p < r.value <= |s| && ShortNumber(s[p..r.value])
    ensures r.None? <==> p == |s| || !IsDigit(s[p])
    ensures r.Some? && r.value == p + 1 ==> r.value == |s| || !IsDigit(s[r.value])
  {
    if p < |s| && IsDigit(s[p]) then
      if p + 1 < |s| && IsDigit(s[p + 1]) then Some(p + 2) else Some(p + 1)
    else None
  }

  /** Greedy `\d{1,2}:\d{1,2}` at `p`; a shorter hour or minute never helps,
      since what follows each of them in the pattern is not a digit. */
  function TimeEnd(s: string, p: nat): (r: Option<nat>)
    requires p <= |s|
    ensures r.Some? ==> p < r.value <= |s| && ShortTime(s[p..r.value])
  {
    match ShortDigitsEnd(s, p)
    case None => None
    case Some(q) =>
      if q < |s| && s[q] == ':' then
        match ShortDigitsEnd(s, q + 1)
        case None => None
        case Some(r) =>
          ghost var t := s[p..r];
          assert t[q - p] == ':' && t[..q - p] == s[p..q] && t[q - p + 1..] == s[q + 1..r];
          Some(r)
      else None
  }

  /** The greedy digits end past every shorter reading of `s[p..]` as one
      or two digits, and exactly where such a reading is followed by a
      non-digit. */
  lemma ShortDigitsGreedy(s: string, p: nat, b: nat)
    requires p <= b <= |s| && ShortNumber(s[p..b])
    ensures ShortDigitsEnd(s, p).Some? && b <= ShortDigitsEnd(s, p).value
    ensures b == |s| || !IsDigit(s[b]) ==> ShortDigitsEnd(s, p).value == b
  {
    assert s[p] == s[p..b][0];
    if b == p + 2 {
      assert s[p + 1] == s[p..b][1];
    }
  }

  /** The greedy time ends past every shorter reading of `s[p..]` as
      "H:M", and exactly where such a reading is followed by a non-digit. */
  lemma TimeEndGreedy(s: string, p: nat, b: nat)
    requires p <= b <= |s| && ShortTime(s[p..b])
    ensures TimeEnd(s, p).Some? && b <= TimeEnd(s, p).value
    ensures b == |s| || !IsDigit(s[b]) ==> TimeEnd(s, p).value == b
  {
    var k := ShortTimeColon(s, p, b);
    ShortDigitsGreedy(s, p, p + k);
    ShortDigitsGreedy(s, p + k + 1, b);
    TimeEndAfterColon(s, p, p + k);
  }

  /** An "HH:MM" time is one the pattern accepts. */
  lemma ClockShortTime(t: string)
    requires Clock(t)
    ensures ShortTime(t)
  {
    assert ShortTimeWithColonAt(t, 2) by {
      assert t[..2][1] == t[1] && t[3..][0] == t[3] && t[3..][1] == t[4];
    }
  }

  /** Where the colon of a short time within `s` lies. */
  lemma ShortTimeColon(s: string, p: nat, b: nat) returns (k: nat)
    requires p <= b <= |s| && ShortTime(s[p..b])
    ensures 1 <= k <= 2 && p + k < b && s[p + k] == ':'
    ensures ShortNumber(s[p..p + k]) && ShortNumber(s[p + k + 1..b])
  {
    var t := s[p..b];
    k := if ShortTimeWithColonAt(t, 1) then 1 else 2;
    assert t[..k][k - 1] == s[p + k - 1] && t[k + 1..][0] == s[p + k + 1];
  }

  lemma TimeEndAfterColon(s: string, p: nat, q: nat)
    requires p < q < |s| && ShortDigitsEnd(s, p) == Some(q) && s[q] == ':'
    ensures TimeEnd(s, p) == ShortDigitsEnd(s, q + 1)
  {
  }

  /** One match: the raw day list and the two raw times. */
  datatype Segment = Segment(days: string, start: string, end: string)

  /** The pattern matches `s[p..t]` with the day list `s[p..e - 4]`, then
      " از ", the start time `s[e..q]`, " تا " and the end time `s[q + 4..t]`. */
  predicate SegmentMatch(s: string, p: nat, e: nat, q: nat, t: nat) {
    p + 4 < e <= |s| && NoDigits(s[p..e - 4]) && s[e - 4..e] == From && TimesAt(s, e, q, t)
  }

  /** The start time `s[e..q]`, " تا " and the end time `s[q + 4..t]`. */
  predicate TimesAt(s: string, e: nat, q: nat, t: nat) {
    e < q && q + 4 <= t <= |s| && ShortTime(s[e..q]) && s[q..q + 4] == Until && ShortTime(s[q + 4..t])
  }

  /** Where the times of a match whose start time begins at `e` end: `q`
      after the start time and `t` after the end time. */
  function TimesEnd(s: string, e: nat): (r: Option<(nat, nat)>)
    requires e <= |s|
    ensures r.Some? ==> TimesAt(s, e, r.value.0, r.value.1)
  {
    match TimeEnd(s, e)
    case None => None
    case Some(q) =>
      if q + 4 <= |s| && s[q..q + 4] == Until then
        match TimeEnd(s, q + 4)
        case None => None
        case Some(t) => Some((q, t))
      else None
  }

  /** Where the match attempted at `p` puts its pieces: the position `e` of
      the first digit, where the start time begins, and the ends `q` and
      `t` of the two times. The day list is a greedy `[^\d]+`: it runs up
      to the first digit, and since a digit must follow " از ", it gives
      back exactly those four characters, so it ends at `e - 4`. */
  function MatchEnds(s: string, p: nat): (r: Option<(nat, nat, nat)>)
    requires p <= |s|
  {
    var e := SkipNonDigits(s, p);
    if e < p + 5 || s[e - 4..e] != From then None
    else match TimesEnd(s, e)
      case None => None
      case Some((q, t)) => Some((e, q, t))
  }

  /** The pieces found are those of a match of the pattern. */
  lemma MatchEndsSound(s: string, p: nat)
    requires p <= |s| && MatchEnds(s, p).Some?
    ensures SegmentMatch(s, p, MatchEnds(s, p).value.0, MatchEnds(s, p).value.1, MatchEnds(s, p).value.2)
  {
    var e := SkipNonDigits(s, p);
    var qt := TimesEnd(s, e).value;
    assert MatchEnds(s, p).value == (e, qt.0, qt.1);
    assert s[p..e - 4] == s[p..e][..e - 4 - p];
  }

  /** The match attempted at `p`, with the position where it ends. */
  function SegmentAt(s: string, p: nat): (r: Option<(Segment, nat)>)
    requires p <= |s|
    ensures r.Some? ==> p < r.value.1 <= |s|
  {
    match MatchEnds(s, p)
    case None => None
    case Some((e, q, t)) => Some((Segment(s[p..e - 4], s[e..q], s[q + 4..t]), t))
  }

  /** What the matcher finds is a match of the pattern: the day list and
      the two times are the corresponding stretches of the text. */
  lemma SegmentAtSound(s: string, p: nat)
    requires p <= |s| && SegmentAt(s, p).Some?
    ensures var g, t := SegmentAt(s, p).value.0, SegmentAt(s, p).value.1;
      exists e: nat, q: nat :: SegmentMatch(s, p, e, q, t) && g == Segment(s[p..e - 4], s[e..q], s[q + 4..t])
  {
    var e, q, t := MatchEnds(s, p).value.0, MatchEnds(s, p).value.1, MatchEnds(s, p).value.2;
    MatchEndsSound(s, p);
    assert SegmentMatch(s, p, e, q, t);
  }

  /** The two times of a match, as the pattern reads them. */
  lemma SegmentAtTimes(s: string, p: nat)
    requires p <= |s| && SegmentAt(s, p).Some?
    ensures ShortTime(SegmentAt(s, p).value.0.start) && ShortTime(SegmentAt(s, p).value.0.end)
  {
    var e, q, t := MatchEnds(s, p).value.0, MatchEnds(s, p).value.1, MatchEnds(s, p).value.2;
    MatchEndsSound(s, p);
    assert TimesAt(s, e, q, t);
  }

  /** Wherever the pattern matches at `p`, the matcher finds that match:
      the same day list and start time, and the longest end time. */
  lemma SegmentAtComplete(s: string, p: nat, e: nat, q: nat, t: nat)
    requires SegmentMatch(s, p, e, q, t)
    ensures SegmentAt(s, p).Some?
    ensures var g, r := SegmentAt(s, p).value.0, SegmentAt(s, p).value.1;
      t <= r && g.days == s[p..e - 4] && g.start == s[e..q] && g.end == s[q + 4..r]
  {
    FirstDigitAt(s, p, e, q, t);
    TimesEndGreedy(s, e, q, t);
    var r := TimesEnd(s, e).value.1;
    MatchEndsAt(s, p, e, q, r);
    SegmentAtOf(s, p, e, q, r);
  }

  lemma SegmentAtOf(s: string, p: nat, e: nat, q: nat, t: nat)
    requires p <= |s| && MatchEnds(s, p) == Some((e, q, t))
    ensures SegmentAt(s, p) == Some((Segment(s[p..e - 4], s[e..q], s[q + 4..t]), t))
  {
  }

  /** The day list of a match runs up to the first digit, less " از ". */
  lemma FirstDigitAt(s: string, p: nat, e: nat, q: nat, t: nat)
    requires SegmentMatch(s, p, e, q, t)
    ensures SkipNonDigits(s, p) == e
  {
    assert s[e] == s[e..q][0];
    NoDigitsThroughFrom(s, p, e);
    SkipNonDigitsUpTo(s, p, e);
  }

  /** Where the two times of a match are, the matcher finds the same start
      time and the longest end time. */
  lemma TimesEndGreedy(s: string, e: nat, q: nat, t: nat)
    requires TimesAt(s, e, q, t)
    ensures TimesEnd(s, e).Some? && TimesEnd(s, e).value.0 == q && t <= TimesEnd(s, e).value.1
  {
    assert s[q] == Until[0];
    TimeEndGreedy(s, e, q);
    TimeEndGreedy(s, q + 4, t);
    TimesEndAt(s, e, q, TimeEnd(s, q + 4).value);
  }

  lemma TimesEndAt(s: string, e: nat, q: nat, t: nat)
    requires e <= |s| && TimeEnd(s, e) == Some(q) && q + 4 <= |s| && s[q..q + 4] == Until
    requires TimeEnd(s, q + 4) == Some(t)
    ensures TimesEnd(s, e) == Some((q, t))
  {
  }

  lemma MatchEndsAt(s: string, p: nat, e: nat, q: nat, t: nat)
    requires p + 5 <= e <= |s| && SkipNonDigits(s, p) == e && s[e - 4..e] == From
    requires TimesEnd(s, e) == Some((q, t))
    ensures MatchEnds(s, p) == Some((e, q, t))
  {
  }

  lemma NoDigitsThroughFrom(s: string, p: nat, e: nat)
    requires p + 4 <= e <= |s| && NoDigits(s[p..e - 4]) && s[e - 4..e] == From
    ensures NoDigits(s[p..e])
  {
    forall i | p <= i < e
      ensures !IsDigit(s[i])
    {
      if i < e - 4 {
        assert s[i] == s[p..e - 4][i - p];
      } else {
        assert s[i] == From[i - (e - 4)];
      }
    }
  }

  /** The first non-digit from `i` is the first digit after a digit-free
      stretch `s[i..k]`. */
  lemma {:induction false} SkipNonDigitsUpTo(s: string, i: nat, k: nat)
    requires i <= k < |s| && NoDigits(s[i..k]) && IsDigit(s[k])
    ensures SkipNonDigits(s, i) == k
    decreases k - i
  {
    if i < k {
      assert s[i] == s[i..k][0];
      assert s[i + 1..k] == s[i..k][1..];
      SkipNonDigitsUpTo(s, i + 1, k);
    }
  }

  /** `finditer`: the successive non-overlapping matches from `p` on. */
  function Segments(s: string, p: nat): (r: seq<Segment>)
    requires p <= |s|
    ensures forall k :: 0 <= k < |r| ==> ShortTime(r[k].start) && ShortTime(r[k].end)
    decreases |s| - p
  {
    if p == |s| then []
    else match SegmentAt(s, p)
      case Some((g, q)) =>
        SegmentAtTimes(s, p);
        [g] + Segments(s, q)
      case None => Segments(s, p + 1)
  }

  /** A text made of a digit-free day list and two "HH:MM" times around the
      two literals is one match of the pattern, taken whole. */
  lemma OneSegmentMatch(days: string, start: string, end: string)
    requires |days| > 0 && NoDigits(days) && Clock(start) && Clock(end)
    ensures var s, e := days + From + start + Until + end, |days| + 4;
      SegmentMatch(s, 0, e, e + |start|, |s|)
    ensures var s, e := days + From + start + Until + end, |days| + 4;
      s[0..e - 4] == days && s[e..e + |start|] == start && s[e + |start| + 4..|s|] == end
  {
    var s, e := days + From + start + Until + end, |days| + 4;
    var q := e + |start|;
    assert s[..e - 4] == days && s[e - 4..e] == From && s[e..q] == start;
    assert s[q..q + 4] == Until && s[q + 4..] == end;
    ClockShortTime(start);
    ClockShortTime(end);
  }

  /** `finditer` finds that one match and nothing else. */
  lemma OneSegment(days: string, start: string, end: string)
    requires |days| > 0 && NoDigits(days) && Clock(start) && Clock(end)
    ensures Segments(days + From + start + Until + end, 0) == [Segment(days, start, end)]
  {
    var s, e := days + From + start + Until + end, |days| + 4;
    OneSegmentMatch(days, start, end);
    SegmentAtComplete(s, 0, e, e + |start|, |s|);
    var g, r := SegmentAt(s, 0).value.0, SegmentAt(s, 0).value.1;
    assert r == |s|;
    assert g.days == days && g.start == start && g.end == end;
    SegmentsWhole(s, Segment(days, start, end));
  }

  /** A match that takes the whole text is the only one. */
  lemma SegmentsWhole(s: string, g: Segment)
    requires |s| > 0 && SegmentAt(s, 0) == Some((g, |s|))
    ensures Segments(s, 0) == [g]
  {
  }

  /** The sessions of such a text are those of its one match. */
  lemma OneSegmentSessions(days: string, start: string, end: string)
    requires |days| > 0 && NoDigits(days) && Clock(start) && Clock(end)
    ensures SessionsOf(days + From + start + Until + end) == SegmentSessions(Segment(days, start, end))
  {
    var g := Segment(days, start, end);
    OneSegment(days, start, end);
    assert PerSegment([g]) == [SegmentSessions(g)];
    FlattenSingle(SegmentSessions(g));
  }

  /** `finditer` skips the positions where the pattern does not match: the
      first match it reports is the leftmost one. */
  lemma {:induction false} SegmentsSkip(s: string, p: nat, j: nat)
    requires p <= j <= |s|
    requires forall i, d, q, e :: p <= i < j ==> !SegmentMatch(s, i, d, q, e)
    ensures Segments(s, p) == Segments(s, j)
    decreases j - p
  {
    if p < j {
      if SegmentAt(s, p).Some? {
        SegmentAtSound(s, p);
        assert false;
      }
      SegmentsSkip(s, p + 1, j);
    }
  }

  // ---------------------------------------------------------------------
  // from matches to sessions

  /** The sessions of one segment's day names, in order: one per name that,
      stripped, is a key of `DayOfWeekMap`; the others are dropped. */
  function DaySessions(names: seq<string>, start: string, end: string): (r: seq<CourseSession>)
    ensures |r| <= |names|
    ensures forall k :: 0 <= k < |r| ==>
      0 <= r[k].dayOfWeek <= 6 && r[k].startTime == start && r[k].endTime == end
    decreases |names|
  {
    if names == [] then []
    else
      DayIndicesInRange();
      var day := Strip(names[|names| - 1]);
      DaySessions(names[..|names| - 1], start, end)
        + (if day in DayOfWeekMap then [CourseSession(DayOfWeekMap[day], start, end)] else [])
  }

  lemma DaySessionsSnoc(names: seq<string>, j: nat, start: string, end: string)
    requires j < |names|
    ensures DaySessions(names[..j + 1], start, end) == DaySessions(names[..j], start, end)
      + (if Strip(names[j]) in DayOfWeekMap then [CourseSession(DayOfWeekMap[Strip(names[j])], start, end)] else [])
  {
    assert names[..j + 1][..j] == names[..j];
  }

  /** The sessions of one segment. */
  function SegmentSessions(g: Segment): seq<CourseSession> {
    DaySessions(Split(g.days, DaySeparator), FixTimeFormat(g.start), FixTimeFormat(g.end))
  }

  /** The sessions of each segment, segment by segment. */
  function PerSegment(gs: seq<Segment>): (r: seq<seq<CourseSession>>)
    ensures |r| == |gs| && forall k :: 0 <= k < |gs| ==> r[k] == SegmentSessions(gs[k])
  {
    seq(|gs|, k requires 0 <= k < |gs| => SegmentSessions(gs[k]))
  }

  /** What `parse_course_session` returns for a cell: the sessions of each
      match, match after match. */
  function SessionsOf(s: string): seq<CourseSession> {
    Flatten(PerSegment(Segments(s, 0)))
  }

  /** The inner loop of `parse_course_session`: one session, with the
      match's times, for every day name that is a key of `DayOfWeekMap`. */
  method MatchSessions(days: seq<string>, start: string, end: string) returns (sessions: seq<CourseSession>)
    ensures sessions == DaySessions(days, start, end)
  {
    sessions := [];
    for j := 0 to |days|
      invariant sessions == DaySessions(days[..j], start, end)
    {
      var day := Strip(days[j]);
      DaySessionsSnoc(days, j, start, end);
      if day in DayOfWeekMap {
        sessions := sessions + [CourseSession(DayOfWeekMap[day], start, end)];
      }
    }
    assert days[..|days|] == days;
  }

  /** `parse_course_session`: the matches in order, each contributing the
      sessions of its recognised days. */
  method ParseCourseSession(s: string) returns (sessions: seq<CourseSession>)
    ensures sessions == SessionsOf(s)
  {
    var matches := Segments(s, 0);
    ghost var per := PerSegment(matches);
    sessions := [];
    for i := 0 to |matches|
      invariant sessions == Flatten(per[..i])
    {
      var m := matches[i];
      var start := FixTimeFormat(m.start);
      var end := FixTimeFormat(m.end);
      var days := Split(m.days, DaySeparator);
      var found := MatchSessions(days, start, end);
      sessions := sessions + found;
      FlattenSnoc(per, i);
    }
    assert per[..|matches|] == per;
  }

  // ---------------------------------------------------------------------
  // properties

  lemma ShortTimeClock(t: string)
    requires ShortTime(t)
    ensures Clock(FixTimeFormat(t))
  {
    var k := if ShortTimeWithColonAt(t, 1) then 1 else 2;
    assert t == t[..k] + ":" + t[k + 1..];
    FixTimeFormatClock(t[..k], t[k + 1..]);
  }

  /** Every session has a day index in 0..6 and "HH:MM" times. */
  lemma {:induction false} FlattenWellFormed(gs: seq<Segment>, n: nat)
    requires n <= |gs|
    requires forall k :: 0 <= k < |gs| ==> Clock(FixTimeFormat(gs[k].start)) && Clock(FixTimeFormat(gs[k].end))
    ensures forall x :: x in Flatten(PerSegment(gs)[..n]) ==>
      0 <= x.dayOfWeek <= 6 && Clock(x.startTime) && Clock(x.endTime)
    decreases n
  {
    if n > 0 {
      FlattenWellFormed(gs, n - 1);
      FlattenSnoc(PerSegment(gs), n - 1);
    }
  }

  lemma SessionsWellFormed(s: string)
    ensures forall x :: x in SessionsOf(s) ==>
      0 <= x.dayOfWeek <= 6 && Clock(x.startTime) && Clock(x.endTime)
  {
    var gs := Segments(s, 0);
    forall k | 0 <= k < |gs|
      ensures Clock(FixTimeFormat(gs[k].start)) && Clock(FixTimeFormat(gs[k].end))
    {
      ShortTimeClock(gs[k].start);
      ShortTimeClock(gs[k].end);
    }
    FlattenWellFormed(gs, |gs|);
    assert PerSegment(gs)[..|gs|] == PerSegment(gs);
  }

  /** Day lists concatenate: an unrecognised name contributes nothing and
      does not stop the names after it. */
  lemma {:induction false} DaySessionsAppend(a: seq<string>, b: seq<string>, start: string, end: string)
    ensures DaySessions(a + b, start, end) == DaySessions(a, start, end) + DaySessions(b, start, end)
    decreases |b|
  {
    if b == [] {
      assert a + b == a;
    } else {
      var b' := b[..|b| - 1];
      assert (a + b)[..|a + b| - 1] == a + b';
      assert (a + b)[|a + b| - 1] == b[|b| - 1];
      DaySessionsAppend(a, b', start, end);
    }
  }

  lemma DaySessionsSingle(name: string, start: string, end: string)
    ensures DaySessions([name], start, end)
      == if Strip(name) in DayOfWeekMap then [CourseSession(DayOfWeekMap[Strip(name)], start, end)] else []
  {
    assert [name][..0] == [];
  }
}
