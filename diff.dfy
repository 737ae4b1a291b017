/** `compare_courses` of send_updates.py: the keys only in the new snapshot
    (added), only in the old one (removed), and the field-level changes of
    the records on both sides (updated), each grouped by department. */
module Diff {
  import opened Text
  import opened Records

  /** One changed field: its old and its new value. */
  datatype Change = Change(oldValue: Value, newValue: Value)

  /** What the report keeps of an updated course: its name and its changes. */
  datatype UpdateEntry = UpdateEntry(name: Value, changes: map<string, Change>)

  /** Department to course key to entry. */
  type Grouping<V> = map<Value, map<string, V>>

  /** `record.get("Department", "Unknown")`. */
  function DeptOf(r: Record): Value {
    if "Department" in r then r["Department"] else Str("Unknown")
  }

  /** `record.get("Name", "Unknown")`. */
  function NameOf(r: Record): Value {
    if "Name" in r then r["Name"] else Str("Unknown")
  }

  // ---------------------------------------------------------------------
  // grouping

  /** The departments entries are tagged with. */
  function Depts<V>(m: map<string, (Value, V)>): set<Value> {
    set k | k in m :: m[k].0
  }

  /** The entries tagged with department `d`. */
  function Group<V>(m: map<string, (Value, V)>, d: Value): map<string, V> {
    map k | k in m && m[k].0 == d :: m[k].1
  }

  /** Entries tagged with their department, grouped by it. */
  function GroupTagged<V>(m: map<string, (Value, V)>): Grouping<V> {
    map d | d in Depts(m) :: Group(m, d)
  }

  /** Every entry sits in the group of its own department, with its value. */
  lemma GroupTaggedPlaces<V>(m: map<string, (Value, V)>, k: string)
    requires k in m
    ensures var g := GroupTagged(m); m[k].0 in g && k in g[m[k].0] && g[m[k].0][k] == m[k].1
  {
    assert m[k].0 in Depts(m);
  }

  /** A group holds nothing but entries of its department, and no group is empty. */
  lemma GroupTaggedOnly<V>(m: map<string, (Value, V)>, d: Value)
    requires d in GroupTagged(m)
    ensures GroupTagged(m)[d] != map[]
    ensures forall k :: k in GroupTagged(m)[d] ==> k in m && m[k].0 == d
  {
    var k :| k in m && m[k].0 == d;
    assert k in Group(m, d);
  }

  /** A key lies in exactly one group: the department of its entry. */
  lemma OneGroupPerKey<V>(m: map<string, (Value, V)>, k: string, d1: Value, d2: Value)
    requires d1 in GroupTagged(m) && d2 in GroupTagged(m)
    requires k in GroupTagged(m)[d1] && k in GroupTagged(m)[d2]
    ensures d1 == d2
  {
    GroupTaggedOnly(m, d1);
    GroupTaggedOnly(m, d2);
  }

  lemma DeptsAdd<V>(m: map<string, (Value, V)>, k: string, t: (Value, V))
    requires k !in m
    ensures Depts(m[k := t]) == Depts(m) + {t.0}
  {
    var m' := m[k := t];
    forall d | d in Depts(m) ensures d in Depts(m') {
      var j :| j in m && m[j].0 == d;
      assert j in m' && m'[j].0 == d;
    }
    forall d | d in Depts(m') ensures d in Depts(m) + {t.0} {
      var j :| j in m' && m'[j].0 == d;
      if j != k {
        assert j in m && m[j].0 == d;
      }
    }
    assert k in m' && m'[k].0 == t.0;
  }

  lemma GroupAdd<V>(m: map<string, (Value, V)>, k: string, t: (Value, V), d: Value)
    requires k !in m
    ensures Group(m[k := t], d) == if d == t.0 then Group(m, d)[k := t.1] else Group(m, d)
  {
  }

  /** One more entry joins the group of its department. */
  lemma GroupTaggedAdd<V>(m: map<string, (Value, V)>, k: string, t: (Value, V))
    requires k !in m
    ensures var g := GroupTagged(m);
      GroupTagged(m[k := t]) == g[t.0 := (if t.0 in g then g[t.0] else map[])[k := t.1]]
  {
    var g := GroupTagged(m);
    var m' := m[k := t];
    var g' := g[t.0 := (if t.0 in g then g[t.0] else map[])[k := t.1]];
    DeptsAdd(m, k, t);
    forall d | d in Depts(m') ensures GroupTagged(m')[d] == g'[d] {
      GroupAdd(m, k, t, d);
      if d == t.0 && t.0 !in g {
        assert Group(m, d) == map[];
      }
    }
    assert GroupTagged(m').Keys == g'.Keys;
  }

  /** `grouped.setdefault(d, {})[k] = v`, written as the source does. */
  method AddToGroup<V>(g: Grouping<V>, d: Value, k: string, v: V) returns (g': Grouping<V>)
    ensures g' == g[d := (if d in g then g[d] else map[])[k := v]]
  {
    g' := g;
    if d !in g' {
      g' := g'[d := map[]];
    }
    g' := g'[d := g'[d][k := v]];
  }

  /** Taking `k` out of what is left adds it to what is done. */
  lemma DoneStep<T>(all: set<T>, rest: set<T>, k: T)
    requires rest <= all && k in rest
    ensures all - (rest - {k}) == (all - rest) + {k} && k !in all - rest
  {
  }

  /** The records of `keys` in `src`, tagged with their department. */
  function Tagged(keys: set<string>, src: Snapshot): map<string, (Value, Record)>
    requires keys <= src.Keys
  {
    map k | k in keys :: (DeptOf(src[k]), src[k])
  }

  lemma TaggedAdd(keys: set<string>, k: string, src: Snapshot)
    requires keys <= src.Keys && k in src
    ensures Tagged(keys + {k}, src) == Tagged(keys, src)[k := (DeptOf(src[k]), src[k])]
  {
  }

  /** `group_by_department(keys, src)`: every key under the department of
      its record in `src`. */
  function GroupOf(keys: set<string>, src: Snapshot): Grouping<Record>
    requires keys <= src.Keys
  {
    GroupTagged(Tagged(keys, src))
  }

  /** The loop of `group_by_department`. */
  method GroupByDepartment(keys: set<string>, src: Snapshot) returns (g: Grouping<Record>)
    requires keys <= src.Keys
    ensures g == GroupOf(keys, src)
  {
    g := map[];
    var rest := keys;
    assert keys - rest == {};
    assert Tagged({}, src) == map[];
    while rest != {}
      invariant rest <= keys
      invariant g == GroupOf(keys - rest, src)
      decreases |rest|
    {
      var k :| k in rest;
      var dept := DeptOf(src[k]);
      ghost var done := keys - rest;
      DoneStep(keys, rest, k);
      GroupTaggedAdd(Tagged(done, src), k, (dept, src[k]));
      TaggedAdd(done, k, src);
      g := AddToGroup(g, dept, k, src[k]);
      rest := rest - {k};
    }
    assert keys - rest == keys;
  }

  // ---------------------------------------------------------------------
  // changes

  /** The fields among `fields` that `o` also has, with a different value there. */
  function ChangesWithin(o: Record, n: Record, fields: set<string>): map<string, Change>
    requires fields <= n.Keys
  {
    map f | f in fields && f in o && n[f] != o[f] :: Change(o[f], n[f])
  }

  /** The changeset of a course: the fields of the new record that the old
      one also has, with a different value there. */
  function ChangesOf(o: Record, n: Record): map<string, Change> {
    ChangesWithin(o, n, n.Keys)
  }

  lemma ChangesAdd(o: Record, n: Record, fields: set<string>, f: string)
    requires fields <= n.Keys && f in n
    ensures ChangesWithin(o, n, fields + {f})
      == if f in o && n[f] != o[f] then ChangesWithin(o, n, fields)[f := Change(o[f], n[f])]
         else ChangesWithin(o, n, fields)
  {
  }

  /** The loop over the new record's fields. */
  method Changes(o: Record, n: Record) returns (changes: map<string, Change>)
    ensures changes == ChangesOf(o, n)
  {
    changes := map[];
    var rest := n.Keys;
    assert n.Keys - rest == {};
    while rest != {}
      invariant rest <= n.Keys
      invariant changes == ChangesWithin(o, n, n.Keys - rest)
      decreases |rest|
    {
      var f :| f in rest;
      ghost var done := n.Keys - rest;
      DoneStep(n.Keys, rest, f);
      ChangesAdd(o, n, done, f);
      if f in o && n[f] != o[f] {
        changes := changes[f := Change(o[f], n[f])];
      }
      rest := rest - {f};
    }
    assert n.Keys - rest == n.Keys;
  }

  /** A field is reported exactly when both records have it and the values
      differ; the entry holds the old value, then the new one. */
  lemma ChangesOfExact(o: Record, n: Record, f: string)
    ensures f in ChangesOf(o, n) <==> f in n && f in o && n[f] != o[f]
    ensures f in ChangesOf(o, n) ==> ChangesOf(o, n)[f] == Change(o[f], n[f])
  {
  }

  /** A record compared with itself has no changes. */
  lemma ChangesOfSelf(r: Record)
    ensures ChangesOf(r, r) == map[]
  {
  }

  /** Only the field whose value differs is reported, with both values. */
  lemma ChangesOfOneField(o: Record, n: Record, f: string)
    requires o.Keys == n.Keys && f in n && n[f] != o[f]
    requires forall g :: g in n && g != f ==> n[g] == o[g]
    ensures ChangesOf(o, n) == map[f := Change(o[f], n[f])]
  {
  }

  /** A non-empty changeset means the records differ. */
  lemma ChangesMeanDifferent(o: Record, n: Record)
    requires ChangesOf(o, n) != map[]
    ensures o != n
  {
    var f :| f in ChangesOf(o, n);
  }

  /** The department and name the report groups and labels a stored course
      by are the course's own. */
  lemma StoredDeptName(c: Course)
    ensures DeptOf(ToRecord(c)) == Str(c.department)
    ensures NameOf(ToRecord(c)) == Str(c.name)
  {
    StoredDepartment(c);
    StoredName(c);
  }

  /** Two stored courses have an empty changeset exactly when they are the
      same course: every field is compared, and no two courses share a
      stored form. */
  lemma StoredChangesIffDifferent(o: Course, n: Course)
    ensures ChangesOf(ToRecord(o), ToRecord(n)) == map[] <==> o == n
  {
    var ro, rn := ToRecord(o), ToRecord(n);
    if ChangesOf(ro, rn) == map[] {
      forall f | f in rn
        ensures ro[f] == rn[f]
      {
        ChangesOfExact(ro, rn, f);
      }
      assert ro == rn;
      ToRecordInjective(o, n);
    } else {
      ChangesMeanDifferent(ro, rn);
    }
  }

  // ---------------------------------------------------------------------
  // updates

  /** What `updated_temp` holds for one key: its changes, the department
      and the name of its new record. */
  datatype Pending = Pending(changes: map<string, Change>, dept: Value, name: Value)

  /** `updated_temp` restricted to `keys`. */
  function PendingWithin(o: Snapshot, n: Snapshot, keys: set<string>): map<string, Pending>
    requires keys <= o.Keys && keys <= n.Keys
  {
    map k | k in keys && o[k] != n[k] && ChangesOf(o[k], n[k]) != map[] ::
      Pending(ChangesOf(o[k], n[k]), DeptOf(n[k]), NameOf(n[k]))
  }

  /** `updated_temp`: the keys on both sides whose records differ and have
      at least one changed field. */
  function PendingOf(o: Snapshot, n: Snapshot): map<string, Pending> {
    PendingWithin(o, n, o.Keys * n.Keys)
  }

  lemma PendingAdd(o: Snapshot, n: Snapshot, keys: set<string>, k: string)
    requires keys <= o.Keys && keys <= n.Keys && k in o && k in n
    ensures PendingWithin(o, n, keys + {k})
      == if o[k] != n[k] && ChangesOf(o[k], n[k]) != map[]
         then PendingWithin(o, n, keys)[k := Pending(ChangesOf(o[k], n[k]), DeptOf(n[k]), NameOf(n[k]))]
         else PendingWithin(o, n, keys)
  {
  }

  /** The body of that loop for one key: a differing pair of records with a
      non-empty changeset is recorded under the key. */
  method CollectOne(temp: map<string, Pending>, k: string, o: Record, n: Record)
    returns (temp': map<string, Pending>)
    ensures temp' == if o != n && ChangesOf(o, n) != map[]
      then temp[k := Pending(ChangesOf(o, n), DeptOf(n), NameOf(n))] else temp
  {
    temp' := temp;
    if n != o {
      var changes := Changes(o, n);
      if changes != map[] {
        temp' := temp[k := Pending(changes, DeptOf(n), NameOf(n))];
      }
    }
  }

  /** The loop that fills `updated_temp`. */
  method CollectPending(o: Snapshot, n: Snapshot) returns (temp: map<string, Pending>)
    ensures temp == PendingOf(o, n)
  {
    temp := map[];
    var common := o.Keys * n.Keys;
    var rest := common;
    assert common - rest == {};
    while rest != {}
      invariant rest <= common
      invariant temp == PendingWithin(o, n, common - rest)
      decreases |rest|
    {
      var k :| k in rest;
      ghost var done := common - rest;
      DoneStep(common, rest, k);
      PendingAdd(o, n, done, k);
      temp := CollectOne(temp, k, o[k], n[k]);
      rest := rest - {k};
    }
    assert common - rest == common;
  }

  /** The pending updates of `keys`, tagged with their department. */
  function PendingTagged(p: map<string, Pending>, keys: set<string>): map<string, (Value, UpdateEntry)>
    requires keys <= p.Keys
  {
    map k | k in keys :: (p[k].dept, UpdateEntry(p[k].name, p[k].changes))
  }

  lemma PendingTaggedAdd(p: map<string, Pending>, keys: set<string>, k: string)
    requires keys <= p.Keys && k in p
    ensures PendingTagged(p, keys + {k}) == PendingTagged(p, keys)[k := (p[k].dept, UpdateEntry(p[k].name, p[k].changes))]
  {
  }

  /** `updated`: the pending updates grouped by the new record's department. */
  function UpdatesOf(o: Snapshot, n: Snapshot): Grouping<UpdateEntry> {
    var p := PendingOf(o, n);
    GroupTagged(PendingTagged(p, p.Keys))
  }

  lemma PendingStep(temp: map<string, Pending>, done: set<string>, k: string)
    requires done <= temp.Keys && k in temp && k !in done
    ensures var g := GroupTagged(PendingTagged(temp, done));
      var d := temp[k].dept;
      GroupTagged(PendingTagged(temp, done + {k}))
        == g[d := (if d in g then g[d] else map[])[k := UpdateEntry(temp[k].name, temp[k].changes)]]
  {
    GroupTaggedAdd(PendingTagged(temp, done), k, (temp[k].dept, UpdateEntry(temp[k].name, temp[k].changes)));
    PendingTaggedAdd(temp, done, k);
  }

  /** The loop that groups `updated_temp` by department. */
  method GroupPending(temp: map<string, Pending>) returns (updated: Grouping<UpdateEntry>)
    ensures updated == GroupTagged(PendingTagged(temp, temp.Keys))
  {
    updated := map[];
    var rest := temp.Keys;
    assert temp.Keys - rest == {};
    assert PendingTagged(temp, {}) == map[];
    while rest != {}
      invariant rest <= temp.Keys
      invariant updated == GroupTagged(PendingTagged(temp, temp.Keys - rest))
      decreases |rest|
    {
      var k :| k in rest;
      var val := temp[k];
      ghost var done := temp.Keys - rest;
      DoneStep(temp.Keys, rest, k);
      var entry := UpdateEntry(val.name, val.changes);
      PendingStep(temp, done, k);
      updated := AddToGroup(updated, val.dept, k, entry);
      rest := rest - {k};
    }
    assert temp.Keys - rest == temp.Keys;
  }

  /** `compare_courses`. */
  method CompareCourses(o: Snapshot, n: Snapshot)
    returns (added: Grouping<Record>, removed: Grouping<Record>, updated: Grouping<UpdateEntry>)
    ensures added == GroupOf(n.Keys - o.Keys, n)
    ensures removed == GroupOf(o.Keys - n.Keys, o)
    ensures updated == UpdatesOf(o, n)
  {
    added := GroupByDepartment(n.Keys - o.Keys, n);
    removed := GroupByDepartment(o.Keys - n.Keys, o);
    var temp := CollectPending(o, n);
    updated := GroupPending(temp);
  }

  // ---------------------------------------------------------------------
  // properties of the comparison

  /** The keys that appear somewhere in a grouping. */
  function GroupedKeys<V>(g: Grouping<V>): set<string> {
    set d, k | d in g && k in g[d] :: k
  }

  /** Added keys are exactly the new-only keys, removed keys exactly the
      old-only keys, and no key is both. */
  lemma AddedRemovedKeys(o: Snapshot, n: Snapshot)
    ensures GroupedKeys(GroupOf(n.Keys - o.Keys, n)) == n.Keys - o.Keys
    ensures GroupedKeys(GroupOf(o.Keys - n.Keys, o)) == o.Keys - n.Keys
    ensures GroupedKeys(GroupOf(n.Keys - o.Keys, n)) !! GroupedKeys(GroupOf(o.Keys - n.Keys, o))
  {
    GroupedKeysOf(n.Keys - o.Keys, n);
    GroupedKeysOf(o.Keys - n.Keys, o);
  }

  lemma GroupedKeysOf(keys: set<string>, src: Snapshot)
    requires keys <= src.Keys
    ensures GroupedKeys(GroupOf(keys, src)) == keys
  {
    var g := GroupOf(keys, src);
    forall k | k in keys ensures k in GroupedKeys(g) {
      GroupOfPlaces(keys, src, k);
    }
    forall k | k in GroupedKeys(g) ensures k in keys {
      var d :| d in g && k in g[d];
      GroupTaggedOnly(Tagged(keys, src), d);
    }
  }

  /** Nothing is grouped from no keys: comparing a snapshot with itself
      adds and removes nothing. */
  lemma GroupOfNone(s: Snapshot)
    ensures GroupOf(s.Keys - s.Keys, s) == map[]
  {
    assert s.Keys - s.Keys == {};
    assert Depts(Tagged({}, s)) == {};
  }

  /** Comparing a snapshot with itself updates nothing. */
  lemma UpdatesOfSelf(s: Snapshot)
    ensures UpdatesOf(s, s) == map[]
  {
    var p := PendingOf(s, s);
    forall k | k in s ensures k !in p {
      ChangesOfSelf(s[k]);
    }
    GroupTaggedNone(PendingTagged(p, p.Keys));
  }

  lemma GroupTaggedNone<V>(m: map<string, (Value, V)>)
    requires m.Keys == {}
    ensures GroupTagged(m) == map[]
  {
    assert Depts(m) == {};
  }

  /** A key on both sides with at least one changed field is among the
      updates, under the new record's department, with the new record's
      name and its changes. */
  lemma UpdatedKeysIn(o: Snapshot, n: Snapshot, k: string)
    requires k in o && k in n && ChangesOf(o[k], n[k]) != map[]
    ensures var u := UpdatesOf(o, n);
      DeptOf(n[k]) in u && k in u[DeptOf(n[k])]
      && u[DeptOf(n[k])][k] == UpdateEntry(NameOf(n[k]), ChangesOf(o[k], n[k]))
  {
    var p := PendingOf(o, n);
    ChangesMeanDifferent(o[k], n[k]);
    assert k in p;
    GroupTaggedPlaces(PendingTagged(p, p.Keys), k);
  }

  /** Nothing else is among the updates: a key found there is on both
      sides, with a non-empty changeset. */
  lemma UpdatedKeysOnly(o: Snapshot, n: Snapshot, d: Value, k: string)
    requires d in UpdatesOf(o, n) && k in UpdatesOf(o, n)[d]
    ensures k in o && k in n && o[k] != n[k] && ChangesOf(o[k], n[k]) != map[]
    ensures d == DeptOf(n[k])
  {
    var p := PendingOf(o, n);
    GroupTaggedOnly(PendingTagged(p, p.Keys), d);
  }

  /** The snapshot of a store groups and labels every course by its own
      department and name, and two keys hold the same stored object exactly
      when they hold the same course. */
  lemma StoredSnapshot(store: map<string, Course>)
    ensures forall k :: k in store ==>
      DeptOf(Stored(store)[k]) == Str(store[k].department) && NameOf(Stored(store)[k]) == Str(store[k].name)
    ensures forall k, j :: k in store && j in store ==>
      (Stored(store)[k] == Stored(store)[j] <==> store[k] == store[j])
  {
    var s := Stored(store);
    forall k | k in store
      ensures DeptOf(s[k]) == Str(store[k].department) && NameOf(s[k]) == Str(store[k].name)
    {
      StoredDeptName(store[k]);
    }
    forall k, j | k in store && j in store && s[k] == s[j]
      ensures store[k] == store[j]
    {
      ToRecordInjective(store[k], store[j]);
    }
  }

  /** End to end from the scraper's stores: a course on both sides is
      reported as updated exactly when it changed, and then under its new
      department, with its new name and the changes of its stored form. */
  lemma StoredUpdates(os: map<string, Course>, ns: map<string, Course>, k: string)
    requires k in os && k in ns
    ensures var u, d := UpdatesOf(Stored(os), Stored(ns)), Str(ns[k].department);
      (d in u && k in u[d]) <==> os[k] != ns[k]
    ensures var u, d := UpdatesOf(Stored(os), Stored(ns)), Str(ns[k].department);
      os[k] != ns[k] ==> u[d][k] == UpdateEntry(Str(ns[k].name), ChangesOf(ToRecord(os[k]), ToRecord(ns[k])))
  {
    var o, n := Stored(os), Stored(ns);
    assert o[k] == ToRecord(os[k]) && n[k] == ToRecord(ns[k]);
    StoredDeptName(ns[k]);
    StoredChangesIffDifferent(os[k], ns[k]);
    var u, d := UpdatesOf(o, n), Str(ns[k].department);
    if os[k] != ns[k] {
      UpdatedKeysIn(o, n, k);
    } else if d in u && k in u[d] {
      UpdatedKeysOnly(o, n, d, k);
    }
  }

  /** Added and removed records are grouped by the department of the side
      they come from; every key lands in the group of its own record. */
  lemma GroupOfPlaces(keys: set<string>, src: Snapshot, k: string)
    requires keys <= src.Keys && k in keys
    ensures var g := GroupOf(keys, src);
      DeptOf(src[k]) in g && k in g[DeptOf(src[k])] && g[DeptOf(src[k])][k] == src[k]
  {
    GroupTaggedPlaces(Tagged(keys, src), k);
  }
}
