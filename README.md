# Course watcher core, modelled in Dafny

The system scrapes a university's course-registration pages department by
department. It builds one record per course offering and keeps the
records of the current run in a snapshot keyed by `"<Code>-<Group>"`. It
then compares the snapshot with the previous one and posts a report per
department to a chat channel. This project models the deterministic core
of that pipeline and proves what it promises:

- **Parsers** (`parsers.dfy`, `schedule.dfy`): the value parsers of
  main.py. These are `trim_and_nil_if_empty`, `fix_time_format`,
  `parse_exam_date_time` and `parse_course_session`. Their regular
  expressions are written out as explicit matchers that make the same
  leftmost, greedy choices as Python's `re`.
- **Extraction** (`extractor.dfy`): the row logic of `check_diff`. It
  covers the term header, the academic level of each table, the row
  filter, the column-to-field mapping, the department stamp, and the
  insertion into the global store. The store is a class whose
  `courses` map the methods update.
- **Stored form** (`records.dfy`): the `Course` and `CourseSession`
  records and the JSON objects that snapshots hold.
- **Comparison** (`diff.dfy`): `compare_courses`. It yields the added,
  removed and updated courses, each grouped by department.
- **Rendering** (`fields.py` → `fields.dfy`, `report.dfy`): field labels,
  the placeholder for missing values, the session renderer, and
  `format_messages`.
- **Delivery** (`delivery.dfy`): the loop that cuts a long message into
  chunks of at most 4000 characters.
- **Text** (`text.dfy`): the Python string operations the code relies on.
  These are `strip`, `split`, `join`, `int()`, `str(int)` and `sorted`
  over strings.

Each loop of the source is a method proved equal to a specification
function. The properties the source promises are lemmas about those
functions.

Two behaviours of the delivery loop worth knowing:

- A message longer than 4000 characters with no newline in its first
  4000 is cut at character 4000, in the middle of a line.
- After a cut, all leading newlines of the remainder are dropped, not
  just one.

## Model

| member | source | states |
|---|---|---|
| Text.Strip | main.py:145 | `str.strip()`: the result is empty exactly when the text is all whitespace, and otherwise begins and ends with a non-space |
| Text.StripInfix | main.py:145 | the stripped text is the original with only whitespace removed before and after it |
| Text.StripNoSpaces | main.py:145 | text without whitespace is unchanged by stripping |
| Text.Split | main.py:153 | `str.split(sep)`: at least one piece; the pieces joined by the separator give back the text; no piece contains the separator; the first cut is at the leftmost occurrence, and there is one piece exactly when the separator does not occur |
| Text.SplitRest | main.py:153 | after the first cut, the remaining pieces are the split of the text after that occurrence, so every cut is leftmost |
| Text.JoinNoDigits | fields.py:45-52 | joining digit-free pieces with a digit-free separator gives digit-free text |
| Text.IntToStringParses | main.py:381 | the decimal text of any integer, sign included, reads back as that integer |
| Text.IntOrZeroNoDigits | main.py:351-352 | a cell with no digit does not parse as a number and gives 0 |
| Text.SplitJoin | main.py:183 | splitting a join gives back the pieces when no piece holds the separator's first character |
| Text.SplitCount | main.py:153-154 | splitting at one character gives one piece more than the text holds of that character |
| Text.ParseIntOfDigits | main.py:351-352 | `int()` reads a run of digits as its decimal value, so the field takes that value |
| Text.NatToStringValue | main.py:381 | the decimal text of a number reads back as that number |
| Text.SortStrings | send_updates.py:77 | `sorted` on a set of strings: strictly ascending, holding exactly the set's elements |
| Records.KeyParts | main.py:381 | the key is the code, a dash, and text that parses back as the group |
| Records.KeyDistinct | main.py:381 | for codes without a dash, equal keys mean the same code and the same group |
| Records.ToRecordInjective | main.py:459-462 | two courses with the same stored object are the same course |
| Parsers.TrimAndNil | main.py:142-146 | `None` exactly for a missing or all-whitespace text; otherwise the stripped text, which is non-empty and has no surrounding whitespace |
| Parsers.TrimAndNilKeeps | main.py:142-146 | a non-empty text without whitespace comes back as it is |
| Parsers.PadHour | main.py:156-157 | an hour is never left one character long |
| Parsers.PadMinute | main.py:158-159 | a minute is never left one character long |
| Parsers.FixTimeFormatParts | main.py:152-160 | with exactly one colon, the hour is padded in front and the minute behind, separately |
| Parsers.FixTimeFormatOtherwise | main.py:153-154 | any number of colons other than one leaves the text unchanged |
| Parsers.FixTimeFormatIdempotent | main.py:152-161 | normalising twice is normalising once |
| Parsers.FixTimeFormatExamples | main.py:152-161 | "9:5" becomes "09:50" (trailing zero on the minute) and "10:30" is kept |
| Parsers.PadShortNumber | main.py:156-159 | a one- or two-digit half becomes exactly two digits |
| Parsers.FixTimeFormatClock | main.py:152-160 | every `\d{1,2}:\d{1,2}` time comes out as "HH:MM" |
| Parsers.FixTimeFormatKeepsClock | main.py:152-160 | an "HH:MM" time is left unchanged |
| Parsers.DateEnd | main.py:166 | greedy `\S+`: the longest date token at a start from which the whole pattern matches, or none |
| Parsers.ExamSearch | main.py:167 | `re.search`: the leftmost start where the pattern matches, with no match before it |
| Parsers.ParseExamDateTime | main.py:164-170 | `(None, None)` exactly when no match exists; otherwise a non-empty date without whitespace and a five-character "DD:DD" time, both taken from one match |
| Parsers.DateEndIs | main.py:166 | the greedy choice is the only match end with no longer match after it |
| Parsers.ParseExamDateTimeOfCell | main.py:164-170 | a cell holding a date token, a space and an "HH:MM" time parses into exactly those two |
| Parsers.ParseExamDateTimeExample | main.py:164-170 | "1403/10/12 14:00" parses into "1403/10/12" and "14:00" |
| Schedule.DayIndicesInRange | main.py:69-77 | every day index of the parser's table lies in 0..6 |
| Schedule.ShortDigitsEnd | main.py:176 | greedy `\d{1,2}`: no match exactly when there is no digit at the position; otherwise one or two digits, stopping after one only when no digit follows |
| Schedule.ShortDigitsGreedy | main.py:176 | any one- or two-digit run at the position ends no later than the greedy match, which ends exactly there when no digit follows it |
| Schedule.TimeEnd | main.py:176 | a match of `\d{1,2}:\d{1,2}` |
| Schedule.TimeEndGreedy | main.py:176 | any `\d{1,2}:\d{1,2}` time at the position makes the match succeed, ending no earlier, and exactly there when no digit follows |
| Schedule.TimesEnd | main.py:176 | the two times and the " تا " between them, as found after the day list |
| Schedule.MatchEndsSound | main.py:176 | what the matcher finds is a match of the pattern: digit-free days, " از ", a time, " تا ", a time |
| Schedule.SegmentAtSound | main.py:176 | a match found at a position is a match of the pattern there, and its days and times are those slices of the text |
| Schedule.SegmentAtComplete | main.py:176 | wherever the pattern matches at a position, the matcher finds a match there with the same days and start, ending no earlier (the greedy end) |
| Schedule.SegmentAtTimes | main.py:176 | both times of a found match are `\d{1,2}:\d{1,2}` times |
| Schedule.Segments | main.py:177 | `finditer`: successive non-overlapping matches, each with well-formed times |
| Schedule.SegmentsSkip | main.py:177 | positions where the pattern does not match are passed over without a match |
| Schedule.OneSegment | main.py:176-177 | a text made of digit-free days, " از ", an "HH:MM" time, " تا " and an "HH:MM" time is exactly one match, with those three parts |
| Schedule.OneSegmentSessions | main.py:173-187 | such a text parses into the sessions of that one match |
| Schedule.DaySessions | main.py:183-186 | at most one session per day name; each has an index in 0..6 and the segment's start and end |
| Schedule.DaySessionsAppend | main.py:184-186 | an unrecognised day name contributes nothing and does not stop the names after it |
| Schedule.DaySessionsSingle | main.py:185-186 | a single name gives one session exactly when its stripped text is in the table |
| Schedule.MatchSessions | main.py:184-186 | the inner loop appends one session, with the match's times, per recognised day, in day order |
| Schedule.ParseCourseSession | main.py:173-187 | the sessions of each match, match after match, in order |
| Schedule.ShortTimeClock | main.py:181-182 | each matched time comes out of the normaliser as "HH:MM" |
| Schedule.FlattenWellFormed | main.py:179-186 | sessions gathered over the matches have indices in 0..6 and "HH:MM" times |
| Schedule.SessionsWellFormed | main.py:173-187 | every parsed session has a day index in 0..6 and "HH:MM" start and end |
| Extractor.HeaderSearch | main.py:307 | `re.search` for the term header: the leftmost match, or none |
| Extractor.TermOf | main.py:300-317 | semester 0 and year 0 exactly when there is no header or it does not match; otherwise the term of the leftmost match, with semester in 1..3 and a year below 10000 |
| Extractor.TermOfHeader | main.py:307-317 | in `نیمسال <token> <start>-<end>` the year is the end year; the semester is 1 for "اول", 2 for "دوم" and 3 otherwise |
| Extractor.GradeOf | main.py:324-332 | the level is one of "ms", "phd" and "bs" |
| Extractor.ContainsJoin | main.py:328 | text found in one cell is found in the joined first row |
| Extractor.GradeOfMasters | main.py:328-330 | a first-row cell that mentions the master's level makes the table "ms" |
| Extractor.GradeOfDoctoral | main.py:331-332 | a cell that mentions the doctoral level makes it "phd", unless the row also mentions the master's level |
| Extractor.Humanize | main.py:378 | underscores become spaces; every other character and the length are kept |
| Extractor.BuildCourse | main.py:344-379 | the cell loop, then the stamp, gives the row's course with the page's context |
| Extractor.Accepted | main.py:337-342 | exactly the rows with cells whose first cell is all digits, in order |
| Extractor.InsertAccepted | main.py:381-383 | an accepted row adds one course under its key and raises the count by one |
| Extractor.SkipRejected | main.py:338-342 | a rejected row changes nothing |
| Extractor.InsertAllAppend | main.py:381-382 | inserting two batches in turn is inserting them together |
| Extractor.IgnoredColumns | main.py:346-373 | columns 4 and 10, and every column after 11, do not affect the course |
| Extractor.RowCourseKey | main.py:381 | the key is the first cell, "-", and the group number, which is 0 when the group cell is missing or does not parse |
| Extractor.TablesCoursesStamped | main.py:375-379 | every course of a page carries the page's term, the humanised department name and code, and a level in bs/ms/phd |
| Extractor.TablesCoursesCount | main.py:322-383 | a page yields as many courses as it has accepted rows over all tables |
| Extractor.InsertAllKeys | main.py:381-382 | the store's keys afterwards are the old keys plus the keys of the inserted courses |
| Extractor.InsertAllLastWins | main.py:382 | a key holds the last course inserted under it |
| Extractor.InsertAllUntouched | main.py:382 | a key no inserted course has keeps its old entry, or stays absent |
| Extractor.CourseStore.constructor | main.py:94 | the store starts empty |
| Extractor.CourseStore.InsertRows | main.py:335-383 | the row loop stores every accepted row's course under its key; the count is the number of accepted rows |
| Extractor.CourseStore.CheckDiff | main.py:300-385 | the term is read once, then every table is processed in order; the store gains each page course under its key and the result is the number of courses |
| Fields.LabelsAreNotAscii | fields.py:1-20 | every label starts with a non-ASCII character |
| Fields.FieldNamesAreAscii | fields.py:1-20 | every labelled field name starts with an ASCII capital |
| Fields.ParseNameUnchanged | fields.py:23-24 | the name comes back unchanged exactly when it has no label |
| Fields.CourseFieldsLabelled | fields.py:1-20 | every field of a stored course has a label |
| Fields.RenderSessions | fields.py:37-53 | the placeholder exactly for an empty session list |
| Fields.RenderSessionsRoundTrip | fields.py:37-46 | uniform sessions with "HH:MM" times and no Tuesday: the rendered text parses back into the same sessions |
| Fields.ParseValue | fields.py:26-35 | outside "Sessions", a missing or empty value prints as the placeholder and any other value as itself; an empty session list prints as the placeholder |
| Fields.WeekdaysFree | fields.py:38 | the weekday names hold no whitespace and no "،" |
| Fields.NonUniformPieces | fields.py:47-53 | non-uniform sessions render as one piece per session, joined by "، ", so splitting gives back exactly the pieces and their count is the session count |
| Fields.DayNameKnown | fields.py:38 | every rendered day name except Tuesday's is a key of the parser's table, with the same index |
| Fields.DayNameRead | fields.py:38 | a rendered day name other than Tuesday's reads back as its index |
| Fields.TuesdayNotKnown | fields.py:38 | Tuesday as rendered, with a zero-width non-joiner, is not a name the parser knows |
| Fields.TuesdayDropped | fields.py:38 | Tuesday as rendered reads back as no session at all |
| Fields.UniformDaysRoundTrip | fields.py:43-46 | uniform sessions with "HH:MM" times and no Tuesday: the day list they render to parses back into the same sessions (the step RenderSessionsRoundTrip builds on) |
| Fields.DayNamesRead | fields.py:45 | the day names of sessions that share one time range read back as those sessions |
| Diff.GroupTaggedPlaces | send_updates.py:35-42 | every entry lands in the group of its own department, with its value |
| Diff.GroupTaggedOnly | send_updates.py:35-42 | a group holds only entries of its department, and no group is empty |
| Diff.OneGroupPerKey | send_updates.py:35-42 | a key lies in exactly one group |
| Diff.GroupTaggedAdd | send_updates.py:39-41 | one more entry joins the group of its department and changes nothing else |
| Diff.AddToGroup | send_updates.py:39-41 | creates the department's group when missing, then stores the entry in it |
| Diff.GroupByDepartment | send_updates.py:35-42 | the loop groups every key under the department of its record, "Unknown" when it has none |
| Diff.Changes | send_updates.py:51-54 | the loop over the new record's fields builds its changeset |
| Diff.ChangesOfExact | send_updates.py:52-54 | a field is in the changeset iff both records have it with different values; the entry holds the old value, then the new one |
| Diff.ChangesOfSelf | send_updates.py:50-54 | a record compared with itself has no changes |
| Diff.ChangesOfOneField | send_updates.py:52-54 | when only one field differs, the changeset is that field alone |
| Diff.ChangesMeanDifferent | send_updates.py:50-55 | a non-empty changeset means the records differ |
| Diff.CollectOne | send_updates.py:50-56 | a differing pair with a non-empty changeset is recorded with its changes, the new department and the new name; otherwise nothing changes |
| Diff.CollectPending | send_updates.py:48-56 | the loop records exactly the common keys whose records differ and have a non-empty changeset |
| Diff.GroupPending | send_updates.py:59-67 | the pending updates grouped by their recorded department, each with its name and changes |
| Diff.CompareCourses | send_updates.py:27-69 | added: new-only keys grouped by the new records; removed: old-only keys grouped by the old records; updated: the changesets grouped by the new records |
| Diff.StoredDeptName | send_updates.py:56 | a stored course is grouped under its own department and labelled with its own name |
| Diff.StoredChangesIffDifferent | send_updates.py:50-54 | two stored courses have an empty changeset exactly when they are the same course |
| Diff.StoredSnapshot | main.py:459-462 | in the snapshot of a store every course is grouped and labelled by its own department and name, and two keys hold the same stored object exactly when they hold the same course |
| Diff.StoredUpdates | send_updates.py:48-67 | for the snapshots of two stores, a course on both sides is updated exactly when it changed, under its new department, with its new name and changes |
| Diff.AddedRemovedKeys | send_updates.py:28-33 | added keys are exactly new minus old, removed keys exactly old minus new, and the two are disjoint |
| Diff.GroupedKeysOf | send_updates.py:35-45 | grouping loses no key and invents none |
| Diff.GroupOfPlaces | send_updates.py:35-45 | every added or removed key sits under the department of its own side's record, with that record |
| Diff.GroupOfNone | send_updates.py:31-32 | comparing a snapshot with itself adds and removes nothing |
| Diff.UpdatesOfSelf | send_updates.py:48-56 | comparing a snapshot with itself updates nothing |
| Diff.UpdatedKeysIn | send_updates.py:49-67 | a key on both sides with a changed field is among the updates, under the new department, with the new name and its changes |
| Diff.UpdatedKeysOnly | send_updates.py:49-67 | a key among the updates is on both sides, its records differ, its changeset is non-empty, and its group is its new department |
| Report.ChangeLines | send_updates.py:90-95 | one line per changed field |
| Report.ChangeLinesAt | send_updates.py:90-95 | the i-th line is that field's label, old value, arrow and new value |
| Report.RenderChanges | send_updates.py:90-95 | the loop over a changeset gives one line per changed field, in ascending field order |
| Report.RenderRecords | send_updates.py:86-96 | each added or removed course, in ascending key order, gives its line and an empty line |
| Report.RenderEntries | send_updates.py:86-96 | each updated course gives its line, its change lines and an empty line |
| Report.RenderRecordSection | send_updates.py:81-96 | `render_group` on added or removed courses builds the section its specification describes |
| Report.RenderEntrySection | send_updates.py:81-96 | `render_group` on updated courses builds the section its specification describes |
| Report.RenderDepartment | send_updates.py:78-102 | one department's message: the header and the three sections, joined by newlines |
| Report.RenderDepartments | send_updates.py:77-103 | the loop over the sorted departments gives, for each, that department's message, in order |
| Report.FormatMessages | send_updates.py:71-104 | the messages of all departments, in ascending department order |
| Report.MessagesPerDepartment | send_updates.py:75-78 | one message per department, in sorted order, each starting with that department's header |
| Report.DeptNamesExact | send_updates.py:75 | a department gets a message iff it has a group among added, removed or updated |
| Report.RecordSectionShape | send_updates.py:81-96 | an added or removed section exists iff the department has such courses; it opens with its title and has two lines per course |
| Report.EntrySectionShape | send_updates.py:81-96 | the updated section exists iff the department has updated courses, and it opens with its title |
| Report.SectionOrder | send_updates.py:98-100 | after the header come the added, the removed and the updated sections, each title right after the sections before it |
| Report.QuietDepartment | send_updates.py:82-84 | a department with no courses in any group gets its header alone |
| Report.MessageLines | send_updates.py:102 | when no line holds a newline, the message splits back into its lines |
| Report.RecordListed | send_updates.py:86-88 | every added or removed course of a department has its line in that section |
| Report.EntryListsChange | send_updates.py:89-95 | every changed field of an updated course has its line in that course's block |
| Report.ChangeListed | send_updates.py:89-95 | every changed field of an updated course has its line in the department's updated section |
| Report.AddedCourseReported | send_updates.py:44-98 | a course only in the new snapshot is listed in its department's message |
| Report.UpdatedFieldReported | send_updates.py:49-100 | a field whose value changed is reported in its department's message, old value before new |
| Delivery.LastNewline | send_updates.py:117 | `rfind`: the last newline before the end, or -1 when there is none |
| Delivery.DropNewlines | send_updates.py:121 | `lstrip("\n")`: the result does not start with a newline and is no longer than the input |
| Delivery.DropNewlinesSuffix | send_updates.py:121 | the result is a suffix of the input, and everything before it is newlines |
| Delivery.SplitPos | send_updates.py:117-119 | the cut is at the last newline before 4000, or at 4000 iff there is no newline there |
| Delivery.Remainder | send_updates.py:121 | what remains is shorter than the text, so the loop ends |
| Delivery.Cut | send_updates.py:117-121 | one cut gives the chunk before the cut point and the remainder without its leading newlines |
| Delivery.SplitMessage | send_updates.py:111-121 | the loop produces exactly the chunk sequence of the text |
| Delivery.ChunksBounded | send_updates.py:112-121 | no chunk is longer than 4000 characters, and only the empty text gives no chunk |
| Delivery.ShortTextOneChunk | send_updates.py:113-115 | a non-empty text of at most 4000 characters is one chunk, equal to the text |
| Delivery.LongTextCut | send_updates.py:117-121 | a long text's first chunk ends at the cut point; the rest are the chunks of what follows, without its leading newlines |
| Delivery.CutKeepsText | send_updates.py:117-121 | a cut loses nothing but newlines |
| Delivery.ChunksKeepText | send_updates.py:111-121 | the chunks, put together, hold every character of the text other than newlines, in order |
| Delivery.ChunksNonEmpty | send_updates.py:112-121 | a text that does not start with a newline gives no empty chunk |
| Delivery.LeadingNewlineEmptyChunk | send_updates.py:117-121 | a long text that starts with a newline, with no other newline before 4000, is sent with an empty first chunk |
| Delivery.ReportChunksNonEmpty | send_updates.py:111-121 | the messages of the report never give an empty chunk |

## Left out

- Network and login: the HTTP session, login, the status and login-page checks of `check_diff`, and the `requests.post` calls of the sender are not modelled. The model starts from already-fetched pages and ends with the chunks.
- HTML parsing: a page is given as the stripped text of its header cell and, per table, the stripped cell texts of each row and of the first body row.
- Scheduling, sleeping, threads and signals (`start_once`, `main`, `stop_event`) are not modelled.
- File I/O, archiving and the modification-time lookups of `send_updates.main` are not modelled. Neither is the markdown message about the time range, which is built from those times.
- `parse_duration_string` is not modelled: it is floating-point arithmetic on the configured period.
- Configuration reads and the `WATCHED_DEPARTMENTS` table are left out. The department id and name are parameters of `Extractor.CourseStore.CheckDiff`.
- Text.IsDigit: only ASCII digits count. Python's `\d`, `isdigit` and `int()` also accept the other Unicode decimal digits, such as Persian ones.
- Report.RenderRecords: the source visits the courses of a department in the order of the dictionaries it is given, which comes from set iteration and varies between runs. The model visits them in ascending key order.
- Report.RenderEntries: the source visits a department's updated courses in the insertion order of its pending updates, which comes from iterating the set of common keys and varies between runs. The model visits them in ascending key order.
- Report.RenderChanges: the source lists the changed fields of a course in the JSON key order of the new record, which for records the scraper writes is the dataclass field order. The model lists them in ascending field-name order.
- Report.FormatMessages: requires every department key to be a string, since `sorted` on mixed types raises. It requires every name and value to be printable with `str`: the `repr` of lists and dictionaries is not modelled. It also requires that added and removed records hold no field called "changes".
- Records.Value: JSON booleans and floating-point numbers are not modelled. The scraper never writes them.
- Fields.RenderSessionsRoundTrip: the render-then-parse round trip holds only for uniform sessions without Tuesday. Tuesday does not round-trip at all (Fields.TuesdayDropped). Non-uniform renderings do not round-trip: the "، " separator stays attached to the following day name.
- Extractor.GradeOf: the first body row is given by the page, not derived from the table's rows. In the source, `tbody tr` may be a different element from the first `tr`.
