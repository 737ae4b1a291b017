/** `format_messages` of send_updates.py: one message per department, in
    ascending order of department name. A message is the department header,
    then the section of added, of removed and of updated courses (a section
    only when the department has courses in that group), joined by "\n".

    The source walks the courses of a department and the changed fields of
    a course in the order of the dictionaries it was handed (set iteration
    order, then JSON key order); the model walks both in ascending order of
    key. */
module Report {
  import opened Text
  import opened Records
  import opened Fields
  import opened Diff

  const DeptMark: string := "\U{1F3DB}\U{FE0F}"
  const Arrow: string := "\U{25C0}\U{FE0F}"
  const AddedMark: string := "\U{1F7E2}"
  const RemovedMark: string := "\U{1F534}"
  const UpdatedMark: string := "\U{1F7E1}"
  const AddedTitle: string := "Added Courses"
  const RemovedTitle: string := "Removed Courses"
  const UpdatedTitle: string := "Updated Courses"

  // ---------------------------------------------------------------------
  // lines

  /** The first line of a department's message. */
  function Header(dept: string): string {
    DeptMark + " " + dept + ":"
  }

  /** The line that opens a section. */
  function TitleLine(mark: string, title: string): string {
    mark + " " + title + ":"
  }

  /** The line naming one course and its key. */
  function CourseLine(name: string, k: string): string {
    "- " + name + " (ID: " + k + ")"
  }

  /** Both values of a change can be rendered by `parse_value`. */
  predicate ChangePrintable(field: string, c: Change) {
    Renderable(field, c.oldValue) && Renderable(field, c.newValue)
  }

  predicate ChangesPrintable(changes: map<string, Change>) {
    forall f :: f in changes ==> ChangePrintable(f, changes[f])
  }

  /** An indented label, then the old text, an arrow and the new text. */
  function ChangeText(fieldLabel: string, oldText: string, newText: string): string {
    "    " + fieldLabel + ": " + oldText + " " + Arrow + " " + newText
  }

  /** The line of one changed field: its label, the old value, an arrow and
      the new value. */
  function ChangeLine(field: string, c: Change): string
    requires ChangePrintable(field, c)
  {
    ChangeText(ParseName(field), ParseValue(field, c.oldValue), ParseValue(field, c.newValue))
  }

  /** A stored record whose name prints with `str` and which has no field
      called "changes" (which the source would take for a changeset). */
  predicate RecordPrintable(r: Record) {
    ("Name" in r ==> !r["Name"].Sessions?) && "changes" !in r
  }

  /** `info.get('Name', 'Unnamed')` of a stored record, as printed. */
  function RecordName(r: Record): string
    requires RecordPrintable(r)
  {
    if "Name" in r then Display(r["Name"]) else "Unnamed"
  }

  predicate EntryPrintable(e: UpdateEntry) {
    !e.name.Sessions? && ChangesPrintable(e.changes)
  }

  // ---------------------------------------------------------------------
  // blocks and sections

  /** The change lines of `fields`, in that order. */
  function ChangeLines(changes: map<string, Change>, fields: seq<string>): (r: seq<string>)
    requires ChangesPrintable(changes)
    requires forall f :: f in fields ==> f in changes
    ensures |r| == |fields|
    decreases |fields|
  {
    if fields == [] then []
    else
      var last := fields[|fields| - 1];
      ChangeLines(changes, fields[..|fields| - 1]) + [ChangeLine(last, changes[last])]
  }

  /** The line at `i` is the one of the `i`-th field. */
  lemma {:induction false} ChangeLinesAt(changes: map<string, Change>, fields: seq<string>, i: nat)
    requires ChangesPrintable(changes)
    requires forall f :: f in fields ==> f in changes
    requires i < |fields|
    ensures ChangeLines(changes, fields)[i] == ChangeLine(fields[i], changes[fields[i]])
    decreases |fields|
  {
    if i < |fields| - 1 {
      ChangeLinesAt(changes, fields[..|fields| - 1], i);
    }
  }

  lemma ChangeLinesSnoc(changes: map<string, Change>, fields: seq<string>, j: nat)
    requires ChangesPrintable(changes)
    requires forall f :: f in fields ==> f in changes
    requires j < |fields|
    ensures ChangeLines(changes, fields[..j + 1])
      == ChangeLines(changes, fields[..j]) + [ChangeLine(fields[j], changes[fields[j]])]
  {
    assert fields[..j + 1][..j] == fields[..j];
  }

  /** The lines of an added or removed course: its line, then an empty one. */
  function RecordLines(r: Record, k: string): seq<string>
    requires RecordPrintable(r)
  {
    [CourseLine(RecordName(r), k), ""]
  }

  /** The lines of an updated course: its line, one line per changed field
      in ascending order of field name, then an empty one. */
  ghost function EntryLines(e: UpdateEntry, k: string): seq<string>
    requires EntryPrintable(e)
  {
    [CourseLine(Display(e.name), k)] + ChangeLines(e.changes, SortedOf(e.changes.Keys)) + [""]
  }

  function RecordBlocks(courses: map<string, Record>, keys: seq<string>): (r: seq<seq<string>>)
    requires forall k :: k in courses ==> RecordPrintable(courses[k])
    requires forall k :: k in keys ==> k in courses
    ensures |r| == |keys|
  {
    seq(|keys|, j requires 0 <= j < |keys| => RecordLines(courses[keys[j]], keys[j]))
  }

  ghost function EntryBlocks(courses: map<string, UpdateEntry>, keys: seq<string>): (r: seq<seq<string>>)
    requires forall k :: k in courses ==> EntryPrintable(courses[k])
    requires forall k :: k in keys ==> k in courses
    ensures |r| == |keys|
  {
    seq(|keys|, j requires 0 <= j < |keys| => EntryLines(courses[keys[j]], keys[j]))
  }

  /** `group.get(dept, {})`. */
  function Courses<V>(g: Grouping<V>, dept: string): map<string, V> {
    if Str(dept) in g then g[Str(dept)] else map[]
  }

  predicate RecordsPrintable(g: Grouping<Record>) {
    forall d, k :: d in g && k in g[d] ==> RecordPrintable(g[d][k])
  }

  predicate EntriesPrintable(g: Grouping<UpdateEntry>) {
    forall d, k :: d in g && k in g[d] ==> EntryPrintable(g[d][k])
  }

  /** `render_group` for added or removed courses: nothing when the
      department has none, else the title line and the lines of each. */
  ghost function RecordSection(g: Grouping<Record>, dept: string, mark: string, title: string): seq<string>
    requires RecordsPrintable(g)
  {
    var courses := Courses(g, dept);
    if courses == map[] then []
    else [TitleLine(mark, title)] + Flatten(RecordBlocks(courses, SortedOf(courses.Keys)))
  }

  /** `render_group` for updated courses. */
  ghost function EntrySection(g: Grouping<UpdateEntry>, dept: string): seq<string>
    requires EntriesPrintable(g)
  {
    var courses := Courses(g, dept);
    if courses == map[] then []
    else [TitleLine(UpdatedMark, UpdatedTitle)] + Flatten(EntryBlocks(courses, SortedOf(courses.Keys)))
  }

  // ---------------------------------------------------------------------
  // messages

  /** Every department is a string (the source sorts them) and every value
      printed is one `str` can print. */
  predicate Printable(added: Grouping<Record>, removed: Grouping<Record>, updated: Grouping<UpdateEntry>) {
    (forall d :: d in added ==> d.Str?) && (forall d :: d in removed ==> d.Str?)
    && (forall d :: d in updated ==> d.Str?)
    && RecordsPrintable(added) && RecordsPrintable(removed) && EntriesPrintable(updated)
  }

  /** The departments of all three groupings. */
  function DeptNames(added: Grouping<Record>, removed: Grouping<Record>, updated: Grouping<UpdateEntry>): set<string> {
    set d | d in added.Keys + removed.Keys + updated.Keys && d.Str? :: d.s
  }

  /** The lines of one department's message. */
  ghost function DeptLines(dept: string, added: Grouping<Record>, removed: Grouping<Record>, updated: Grouping<UpdateEntry>): seq<string>
    requires Printable(added, removed, updated)
  {
    [Header(dept)]
      + RecordSection(added, dept, AddedMark, AddedTitle)
      + RecordSection(removed, dept, RemovedMark, RemovedTitle)
      + EntrySection(updated, dept)
  }

  ghost function Message(dept: string, added: Grouping<Record>, removed: Grouping<Record>, updated: Grouping<UpdateEntry>): string
    requires Printable(added, removed, updated)
  {
    Join("\n", DeptLines(dept, added, removed, updated))
  }

  /** `format_messages`: the message of each department, in ascending order
      of department name. */
  ghost function Messages(added: Grouping<Record>, removed: Grouping<Record>, updated: Grouping<UpdateEntry>): seq<string>
    requires Printable(added, removed, updated)
  {
    var ds := SortedOf(DeptNames(added, removed, updated));
    seq(|ds|, i requires 0 <= i < |ds| => Message(ds[i], added, removed, updated))
  }

  // ---------------------------------------------------------------------
  // the loops

  /** The loop over a changeset. */
  method RenderChanges(changes: map<string, Change>) returns (lines: seq<string>)
    requires ChangesPrintable(changes)
    ensures lines == ChangeLines(changes, SortedOf(changes.Keys))
  {
    var fields := SortStrings(changes.Keys);
    lines := [];
    for j := 0 to |fields|
      invariant lines == ChangeLines(changes, fields[..j])
    {
      ChangeLinesSnoc(changes, fields, j);
      lines := lines + [ChangeLine(fields[j], changes[fields[j]])];
    }
    assert fields[..|fields|] == fields;
  }

  /** The loop over the added or removed courses of one department. */
  method RenderRecords(courses: map<string, Record>) returns (lines: seq<string>)
    requires forall k :: k in courses ==> RecordPrintable(courses[k])
    ensures lines == Flatten(RecordBlocks(courses, SortedOf(courses.Keys)))
  {
    var keys := SortStrings(courses.Keys);
    ghost var blocks := RecordBlocks(courses, keys);
    lines := [];
    for i := 0 to |keys|
      invariant lines == Flatten(blocks[..i])
    {
      var k := keys[i];
      var info := courses[k];
      var name := if "Name" in info then Display(info["Name"]) else "Unnamed";
      FlattenSnoc(blocks, i);
      lines := lines + [CourseLine(name, k), ""];
    }
    assert blocks[..|keys|] == blocks;
  }

  /** The loop over the updated courses of one department. */
  method RenderEntries(courses: map<string, UpdateEntry>) returns (lines: seq<string>)
    requires forall k :: k in courses ==> EntryPrintable(courses[k])
    ensures lines == Flatten(EntryBlocks(courses, SortedOf(courses.Keys)))
  {
    var keys := SortStrings(courses.Keys);
    ghost var blocks := EntryBlocks(courses, keys);
    lines := [];
    for i := 0 to |keys|
      invariant lines == Flatten(blocks[..i])
    {
      var k := keys[i];
      var info := courses[k];
      var changeLines := RenderChanges(info.changes);
      FlattenSnoc(blocks, i);
      lines := lines + ([CourseLine(Display(info.name), k)] + changeLines + [""]);
    }
    assert blocks[..|keys|] == blocks;
  }

  /** `render_group` on the added or removed courses. */
  method RenderRecordSection(g: Grouping<Record>, dept: string, mark: string, title: string)
    returns (section: seq<string>)
    requires RecordsPrintable(g)
    ensures section == RecordSection(g, dept, mark, title)
  {
    var courses := Courses(g, dept);
    section := [];
    if courses != map[] {
      var body := RenderRecords(courses);
      section := [TitleLine(mark, title)] + body;
    }
  }

  /** `render_group` on the updated courses. */
  method RenderEntrySection(g: Grouping<UpdateEntry>, dept: string) returns (section: seq<string>)
    requires EntriesPrintable(g)
    ensures section == EntrySection(g, dept)
  {
    var courses := Courses(g, dept);
    section := [];
    if courses != map[] {
      var body := RenderEntries(courses);
      section := [TitleLine(UpdatedMark, UpdatedTitle)] + body;
    }
  }

  /** The body of the loop of `format_messages`: one department's lines,
      joined. */
  method RenderDepartment(dept: string, added: Grouping<Record>, removed: Grouping<Record>, updated: Grouping<UpdateEntry>)
    returns (message: string)
    requires Printable(added, removed, updated)
    ensures message == Message(dept, added, removed, updated)
  {
    var a := RenderRecordSection(added, dept, AddedMark, AddedTitle);
    var r := RenderRecordSection(removed, dept, RemovedMark, RemovedTitle);
    var u := RenderEntrySection(updated, dept);
    var lines := [Header(dept)] + a + r + u;
    message := Join("\n", lines);
  }

  /** `format_messages`. */
  method FormatMessages(added: Grouping<Record>, removed: Grouping<Record>, updated: Grouping<UpdateEntry>)
    returns (messages: seq<string>)
    requires Printable(added, removed, updated)
    ensures messages == Messages(added, removed, updated)
  {
    var depts := SortStrings(DeptNames(added, removed, updated));
    messages := RenderDepartments(depts, added, removed, updated);
  }

  /** The loop of `format_messages` over the sorted department names. */
  method RenderDepartments(depts: seq<string>, added: Grouping<Record>, removed: Grouping<Record>, updated: Grouping<UpdateEntry>)
    returns (messages: seq<string>)
    requires Printable(added, removed, updated)
    ensures |messages| == |depts|
    ensures forall j :: 0 <= j < |depts| ==> messages[j] == Message(depts[j], added, removed, updated)
  {
    messages := [];
    for i := 0 to |depts|
      invariant |messages| == i
      invariant forall j :: 0 <= j < i ==> messages[j] == Message(depts[j], added, removed, updated)
    {
      var message := RenderDepartment(depts[i], added, removed, updated);
      messages := messages + [message];
    }
  }

  // ---------------------------------------------------------------------
  // properties

  /** A joined text begins with its first piece. */
  lemma JoinHead(sep: string, parts: seq<string>)
    requires parts != []
    ensures parts[0] <= Join(sep, parts)
  {
  }

  /** One message per department, in ascending order of department name,
      each opening with that department's header. */
  lemma MessagesPerDepartment(added: Grouping<Record>, removed: Grouping<Record>, updated: Grouping<UpdateEntry>)
    requires Printable(added, removed, updated)
    ensures var ds := SortedOf(DeptNames(added, removed, updated));
      var ms := Messages(added, removed, updated);
      |ms| == |ds| && forall i :: 0 <= i < |ms| ==> Header(ds[i]) <= ms[i]
  {
    var ds := SortedOf(DeptNames(added, removed, updated));
    forall i | 0 <= i < |ds| ensures Header(ds[i]) <= Message(ds[i], added, removed, updated) {
      JoinHead("\n", DeptLines(ds[i], added, removed, updated));
    }
  }

  /** Every department of the three groupings gets a message, and nothing
      else does. */
  lemma DeptNamesExact(added: Grouping<Record>, removed: Grouping<Record>, updated: Grouping<UpdateEntry>, d: string)
    requires Printable(added, removed, updated)
    ensures d in DeptNames(added, removed, updated) <==> Str(d) in added || Str(d) in removed || Str(d) in updated
  {
    if Str(d) in added.Keys + removed.Keys + updated.Keys {
      assert Str(d).s == d;
    }
  }

  /** Blocks of two lines each make twice as many lines. */
  lemma {:induction false} FlattenPairs(blocks: seq<seq<string>>)
    requires forall i :: 0 <= i < |blocks| ==> |blocks[i]| == 2
    ensures |Flatten(blocks)| == 2 * |blocks|
    decreases |blocks|
  {
    if blocks != [] {
      FlattenPairs(blocks[..|blocks| - 1]);
    }
  }

  /** An added or removed section is there exactly when the department has
      courses in that group: it opens with its title, then two lines per
      course. */
  lemma RecordSectionShape(g: Grouping<Record>, dept: string, mark: string, title: string)
    requires RecordsPrintable(g)
    ensures var s := RecordSection(g, dept, mark, title);
      (s == [] <==> Courses(g, dept) == map[])
      && (s != [] ==> s[0] == TitleLine(mark, title) && |s| == 1 + 2 * |Courses(g, dept)|)
  {
    var courses := Courses(g, dept);
    if courses != map[] {
      var keys := SortedOf(courses.Keys);
      FlattenPairs(RecordBlocks(courses, keys));
      assert |courses.Keys| == |courses|;
    }
  }

  /** The updated section is there exactly when the department has updated
      courses, and it opens with its title. */
  lemma EntrySectionShape(g: Grouping<UpdateEntry>, dept: string)
    requires EntriesPrintable(g)
    ensures var s := EntrySection(g, dept);
      (s == [] <==> Courses(g, dept) == map[])
      && (s != [] ==> s[0] == TitleLine(UpdatedMark, UpdatedTitle))
  {
  }

  /** After the header come the added, then the removed, then the updated
      section: each title stands right after the sections before it. */
  lemma SectionOrder(dept: string, added: Grouping<Record>, removed: Grouping<Record>, updated: Grouping<UpdateEntry>)
    requires Printable(added, removed, updated)
    ensures var lines := DeptLines(dept, added, removed, updated);
      var a := RecordSection(added, dept, AddedMark, AddedTitle);
      var r := RecordSection(removed, dept, RemovedMark, RemovedTitle);
      lines[0] == Header(dept)
      && (Courses(added, dept) != map[] ==> lines[1] == TitleLine(AddedMark, AddedTitle))
      && (Courses(removed, dept) != map[] ==> lines[1 + |a|] == TitleLine(RemovedMark, RemovedTitle))
      && (Courses(updated, dept) != map[] ==> lines[1 + |a| + |r|] == TitleLine(UpdatedMark, UpdatedTitle))
  {
    var a := RecordSection(added, dept, AddedMark, AddedTitle);
    var r := RecordSection(removed, dept, RemovedMark, RemovedTitle);
    var u := EntrySection(updated, dept);
    RecordSectionShape(added, dept, AddedMark, AddedTitle);
    RecordSectionShape(removed, dept, RemovedMark, RemovedTitle);
    EntrySectionShape(updated, dept);
    PartsAt(Header(dept), a, r, u);
  }

  lemma PartsAt<T>(h: T, a: seq<T>, r: seq<T>, u: seq<T>)
    ensures var s := [h] + a + r + u;
      s[0] == h && (a != [] ==> s[1] == a[0]) && (r != [] ==> s[1 + |a|] == r[0])
      && (u != [] ==> s[1 + |a| + |r|] == u[0])
  {
  }

  /** A department with no course in any group has the header alone. */
  lemma QuietDepartment(dept: string, added: Grouping<Record>, removed: Grouping<Record>, updated: Grouping<UpdateEntry>)
    requires Printable(added, removed, updated)
    requires Courses(added, dept) == map[] && Courses(removed, dept) == map[] && Courses(updated, dept) == map[]
    ensures Message(dept, added, removed, updated) == Header(dept)
  {
    assert DeptLines(dept, added, removed, updated) == [Header(dept)];
  }

  /** When no printed text holds a newline, the message splits back into
      its lines. */
  lemma MessageLines(dept: string, added: Grouping<Record>, removed: Grouping<Record>, updated: Grouping<UpdateEntry>)
    requires Printable(added, removed, updated)
    requires var lines := DeptLines(dept, added, removed, updated);
      forall j :: 0 <= j < |lines| ==> CharFree(lines[j], '\n')
    ensures Split(Message(dept, added, removed, updated), "\n") == DeptLines(dept, added, removed, updated)
  {
    SplitJoin("\n", DeptLines(dept, added, removed, updated));
  }

  /** The added or removed courses of a department are each listed, with
      their name and key, in that department's section. */
  lemma RecordListed(g: Grouping<Record>, dept: string, mark: string, title: string, k: string)
    requires RecordsPrintable(g) && Str(dept) in g && k in g[Str(dept)]
    ensures CourseLine(RecordName(g[Str(dept)][k]), k) in RecordSection(g, dept, mark, title)
  {
    var courses := g[Str(dept)];
    var keys := SortedOf(courses.Keys);
    var j :| 0 <= j < |keys| && keys[j] == k;
    var blocks := RecordBlocks(courses, keys);
    assert CourseLine(RecordName(courses[k]), k) in blocks[j];
    InFlatten(blocks, j, CourseLine(RecordName(courses[k]), k));
  }

  /** Every changed field of an updated course has its line among the
      course's lines. */
  lemma EntryListsChange(e: UpdateEntry, k: string, f: string)
    requires EntryPrintable(e) && f in e.changes
    ensures ChangeLine(f, e.changes[f]) in EntryLines(e, k)
  {
    var fields := SortedOf(e.changes.Keys);
    var i :| 0 <= i < |fields| && fields[i] == f;
    ChangeLinesAt(e.changes, fields, i);
    var lines := ChangeLines(e.changes, fields);
    assert lines[i] in lines;
  }

  /** Every changed field of an updated course has its line in that
      department's section. */
  lemma ChangeListed(g: Grouping<UpdateEntry>, dept: string, k: string, f: string)
    requires EntriesPrintable(g) && Str(dept) in g && k in g[Str(dept)]
    requires f in g[Str(dept)][k].changes
    ensures ChangeLine(f, g[Str(dept)][k].changes[f]) in EntrySection(g, dept)
  {
    var courses := g[Str(dept)];
    var keys := SortedOf(courses.Keys);
    var j :| 0 <= j < |keys| && keys[j] == k;
    var line := ChangeLine(f, courses[k].changes[f]);
    var blocks := EntryBlocks(courses, keys);
    EntryListsChange(courses[k], k, f);
    assert blocks[j] == EntryLines(courses[k], k);
    InFlatten(blocks, j, line);
  }

  /** An added course's line appears in the message of its department. */
  lemma AddedCourseReported(o: Snapshot, n: Snapshot, k: string, dept: string,
                            removed: Grouping<Record>, updated: Grouping<UpdateEntry>)
    requires k in n && k !in o && DeptOf(n[k]) == Str(dept) && RecordPrintable(n[k])
    requires Printable(GroupOf(n.Keys - o.Keys, n), removed, updated)
    ensures CourseLine(RecordName(n[k]), k) in DeptLines(dept, GroupOf(n.Keys - o.Keys, n), removed, updated)
  {
    var added := GroupOf(n.Keys - o.Keys, n);
    GroupOfPlaces(n.Keys - o.Keys, n, k);
    RecordListed(added, dept, AddedMark, AddedTitle, k);
  }

  /** A changed field of a course on both sides appears, old value before
      new, in the message of the new record's department. */
  lemma UpdatedFieldReported(o: Snapshot, n: Snapshot, k: string, f: string, dept: string,
                             added: Grouping<Record>, removed: Grouping<Record>)
    requires k in o && k in n && DeptOf(n[k]) == Str(dept)
    requires f in o[k] && f in n[k] && o[k][f] != n[k][f]
    requires ChangePrintable(f, Change(o[k][f], n[k][f]))
    requires Printable(added, removed, UpdatesOf(o, n))
    ensures ChangeLine(f, Change(o[k][f], n[k][f])) in DeptLines(dept, added, removed, UpdatesOf(o, n))
  {
    ChangesOfExact(o[k], n[k], f);
    UpdatedKeysIn(o, n, k);
    ChangeListed(UpdatesOf(o, n), dept, k, f);
  }
}
