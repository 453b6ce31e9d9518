/** The habit handlers of routers/habits.py over two abstract tables:
    `habit_definitions` as a sequence of rows in rowid order and
    `habit_logs` as one status per (date, habit) pair, the pair the
    upserts conflict on. */
module HabitStore {
  import opened Common
  import opened Sorting
  import opened HabitChains

  const DEFAULT_COLOR := "#3B82F6"

  /** A row of `habit_definitions`; `archived` is the stored integer. */
  datatype HabitDef = HabitDef(
    id: int,
    title: string,
    color: string,
    groupId: int,
    createdAt: string,
    archived: int,
    sortOrder: int)

  /** `ORDER BY h.sort_order ASC, h.created_at ASC`. */
  predicate ListOrder(a: HabitDef, b: HabitDef) {
    a.sortOrder < b.sortOrder || (a.sortOrder == b.sortOrder && LexLe(a.createdAt, b.createdAt))
  }

  lemma ListOrderIsPreorder()
    ensures TotalPreorder(ListOrder)
  {
    forall x: HabitDef, y: HabitDef ensures ListOrder(x, y) || ListOrder(y, x) {
      LexLeTotal(x.createdAt, y.createdAt);
    }
    forall x: HabitDef, y: HabitDef, z: HabitDef | ListOrder(x, y) && ListOrder(y, z)
      ensures ListOrder(x, z)
    {
      if x.sortOrder == y.sortOrder == z.sortOrder {
        LexLeTrans(x.createdAt, y.createdAt, z.createdAt);
      }
    }
  }

  /** `WHERE h.is_archived = 0`. */
  function Active(defs: seq<HabitDef>): (r: seq<HabitDef>)
    ensures |r| <= |defs|
  {
    if defs == [] then []
    else Active(defs[..|defs| - 1]) + (if defs[|defs| - 1].archived == 0 then [defs[|defs| - 1]] else [])
  }

  lemma {:induction false} ActiveSpec(defs: seq<HabitDef>, d: HabitDef)
    ensures d in Active(defs) <==> d in defs && d.archived == 0
  {
    if defs != [] {
      ActiveSpec(defs[..|defs| - 1], d);
      assert defs == defs[..|defs| - 1] + [defs[|defs| - 1]];
    }
  }

  /** An id sits at some position of the active list exactly when a
      non-archived habit carries it. */
  lemma ActiveIdAt(defs: seq<HabitDef>, id: int)
    ensures (exists k :: 0 <= k < |Active(defs)| && Active(defs)[k].id == id) <==> (exists d :: d in defs && d.archived == 0 && d.id == id)
  {
    var hs := Active(defs);
    if d :| d in defs && d.archived == 0 && d.id == id {
      ActiveSpec(defs, d);
      var k :| 0 <= k < |hs| && hs[k] == d;
    }
    if k :| 0 <= k < |hs| && hs[k].id == id {
      ActiveSpec(defs, hs[k]);
    }
  }

  /** A row of the answer; the status comes from the LEFT JOIN with the
      day's log, NULL when the habit has none that day. */
  function Row(d: HabitDef, logs: map<(string, int), int>, date: string): Habit {
    Habit(d.id, d.title, d.color, Some(d.groupId),
          if (date, d.id) in logs then Some(logs[(date, d.id)]) else None)
  }

  /** `/get-habits?date=`. */
  function GetHabits(defs: seq<HabitDef>, logs: map<(string, int), int>, date: string): (r: seq<Habit>)
    ensures |r| <= |defs|
  {
    var rows := SortBy(Active(defs), ListOrder);
    seq(|rows|, k requires 0 <= k < |rows| => Row(rows[k], logs, date))
  }

  /** The answer lists exactly the non-archived habits, each with the
      status logged for the date. */
  lemma GetHabitsMembers(defs: seq<HabitDef>, logs: map<(string, int), int>, date: string, d: HabitDef)
    ensures d in defs && d.archived == 0 ==> Row(d, logs, date) in GetHabits(defs, logs, date)
    ensures forall h :: h in GetHabits(defs, logs, date) ==>
      exists e :: e in defs && e.archived == 0 && h == Row(e, logs, date)
  {
    var a := Active(defs);
    var rows := SortBy(a, ListOrder);
    var r := GetHabits(defs, logs, date);
    if d in defs && d.archived == 0 {
      ActiveSpec(defs, d);
      assert d in multiset(rows);
      var k :| 0 <= k < |rows| && rows[k] == d;
      assert r[k] == Row(d, logs, date);
    }
    forall h | h in r ensures exists e :: e in defs && e.archived == 0 && h == Row(e, logs, date) {
      var k :| 0 <= k < |r| && r[k] == h;
      assert rows[k] in multiset(a);
      ActiveSpec(defs, rows[k]);
    }
  }

  /** The answer is ordered by `sort_order`, then by creation date. */
  lemma GetHabitsOrdered(defs: seq<HabitDef>, logs: map<(string, int), int>, date: string)
    ensures var rows := SortBy(Active(defs), ListOrder);
      forall i, j :: 0 <= i < j < |rows| ==> ListOrder(rows[i], rows[j])
  {
    ListOrderIsPreorder();
    SortBySorted(Active(defs), ListOrder);
  }

  /** A toggle request. */
  datatype Toggle = Toggle(date: string, habitId: int, status: int)

  /** The log after a run of toggles, applied in order. */
  function Toggled(logs: map<(string, int), int>, ts: seq<Toggle>): map<(string, int), int> {
    if ts == [] then logs
    else
      var t := ts[|ts| - 1];
      Toggled(logs, ts[..|ts| - 1])[(t.date, t.habitId) := t.status]
  }

  /** Whether some toggle of the run is for `key`. */
  predicate Touches(ts: seq<Toggle>, key: (string, int)) {
    exists k :: 0 <= k < |ts| && (ts[k].date, ts[k].habitId) == key
  }

  /** The last toggle of the run for `key`. */
  function LastFor(ts: seq<Toggle>, key: (string, int)): (r: int)
    requires Touches(ts, key)
  {
    var t := ts[|ts| - 1];
    if (t.date, t.habitId) == key then t.status
    else
      assert Touches(ts[..|ts| - 1], key) by {
        var k :| 0 <= k < |ts| && (ts[k].date, ts[k].habitId) == key;
        assert ts[..|ts| - 1][k] == ts[k];
      }
      LastFor(ts[..|ts| - 1], key)
  }

  /** Each (date, habit) pair holds one status: the last one toggled for
      it, or the old one when no toggle named it. */
  lemma {:induction false} ToggleKeepsLast(logs: map<(string, int), int>, ts: seq<Toggle>, key: (string, int))
    ensures Touches(ts, key) ==> key in Toggled(logs, ts) && Toggled(logs, ts)[key] == LastFor(ts, key)
    ensures !Touches(ts, key) ==> (key in Toggled(logs, ts) <==> key in logs)
    ensures !Touches(ts, key) && key in logs ==> Toggled(logs, ts)[key] == logs[key]
  {
    if ts != [] {
      var init := ts[..|ts| - 1];
      var t := ts[|ts| - 1];
      ToggleKeepsLast(logs, init, key);
      if (t.date, t.habitId) != key {
        if Touches(ts, key) {
          var k :| 0 <= k < |ts| && (ts[k].date, ts[k].habitId) == key;
          assert init[k] == ts[k];
        }
        if Touches(init, key) {
          var k :| 0 <= k < |init| && (init[k].date, init[k].habitId) == key;
          assert ts[k] == init[k];
        }
      }
    }
  }

  /** The patch `update_habit` builds: one entry per supplied field. */
  datatype Patch = SetTitle(title: string) | SetColor(color: string) | SetGroup(groupId: int) | SetArchived(flag: int)

  function ApplyPatch(d: HabitDef, p: Patch): HabitDef {
    match p
    case SetTitle(s) => d.(title := s)
    case SetColor(c) => d.(color := c)
    case SetGroup(g) => d.(groupId := g)
    case SetArchived(f) => d.(archived := f)
  }

  function ApplyPatches(d: HabitDef, ps: seq<Patch>): HabitDef {
    if ps == [] then d else ApplyPatch(ApplyPatches(d, ps[..|ps| - 1]), ps[|ps| - 1])
  }

  function UpdatedDefs(defs: seq<HabitDef>, habitId: int, ps: seq<Patch>): (r: seq<HabitDef>)
    ensures |r| == |defs|
  {
    seq(|defs|, k requires 0 <= k < |defs| => if defs[k].id == habitId then ApplyPatches(defs[k], ps) else defs[k])
  }

  /** `OrElse` for the optional fields of the request. */
  function Pick<T>(o: Option<T>, current: T): T {
    if o.Some? then o.value else current
  }

  /** The patch built from the request carries exactly the supplied
      fields, each with its new value, archiving as 1 or 0. */
  lemma {:induction false} PatchSetsSupplied(d: HabitDef, title: Option<string>, color: Option<string>,
                                             groupId: Option<int>, archived: Option<bool>)
    ensures var r := ApplyPatches(d, PatchFor(title, color, groupId, archived));
      && r.title == Pick(title, d.title)
      && r.color == Pick(color, d.color)
      && r.groupId == Pick(groupId, d.groupId)
      && r.archived == (if archived.Some? then (if archived.value then 1 else 0) else d.archived)
      && r.id == d.id && r.createdAt == d.createdAt && r.sortOrder == d.sortOrder
  {
    var c1 := if title.Some? then [SetTitle(title.value)] else [];
    var c2 := if color.Some? then [SetColor(color.value)] else [];
    var c3 := if groupId.Some? then [SetGroup(groupId.value)] else [];
    var c4 := if archived.Some? then [SetArchived(if archived.value then 1 else 0)] else [];
    assert PatchFor(title, color, groupId, archived) == c1 + c2 + c3 + c4;
    ApplyPatchesAppend(d, c1 + c2 + c3, c4);
    ApplyPatchesAppend(d, c1 + c2, c3);
    ApplyPatchesAppend(d, c1, c2);
    var r1 := ApplyPatches(d, c1);
    var r2 := ApplyPatches(r1, c2);
    var r3 := ApplyPatches(r2, c3);
    ApplyOne(d, c1);
    ApplyOne(r1, c2);
    ApplyOne(r2, c3);
    ApplyOne(r3, c4);
  }

  lemma ApplyOne(d: HabitDef, c: seq<Patch>)
    requires |c| <= 1
    ensures ApplyPatches(d, c) == if c == [] then d else ApplyPatch(d, c[0])
  {
    if c != [] {
      assert c[..0] == [];
    }
  }

  lemma {:induction false} ApplyPatchesAppend(d: HabitDef, a: seq<Patch>, b: seq<Patch>)
    ensures ApplyPatches(d, a + b) == ApplyPatches(ApplyPatches(d, a), b)
  {
    if b == [] {
      assert a + b == a;
    } else {
      var n := |b| - 1;
      assert (a + b)[..|a + b| - 1] == a + b[..n];
      ApplyPatchesAppend(d, a, b[..n]);
    }
  }

  /** The patch the request describes, in the order the handler appends
      the fields. */
  function PatchFor(title: Option<string>, color: Option<string>, groupId: Option<int>, archived: Option<bool>): (ps: seq<Patch>)
    ensures ps == [] <==> title.None? && color.None? && groupId.None? && archived.None?
  {
    (if title.Some? then [SetTitle(title.value)] else [])
    + (if color.Some? then [SetColor(color.value)] else [])
    + (if groupId.Some? then [SetGroup(groupId.value)] else [])
    + (if archived.Some? then [SetArchived(if archived.value then 1 else 0)] else [])
  }

  ghost predicate DefsValid(defs: seq<HabitDef>, nextId: int) {
    && (forall k :: 0 <= k < |defs| ==> defs[k].id < nextId)
    && (forall j, k :: 0 <= j < k < |defs| ==> defs[j].id != defs[k].id)
  }

  class HabitDb {
    var defs: seq<HabitDef>
    var nextId: int
    var logs: map<(string, int), int>

    ghost predicate Valid()
      reads this
    {
      DefsValid(defs, nextId)
    }

    constructor()
      ensures Valid() && defs == [] && logs == map[]
    {
      defs := [];
      nextId := 1;
      logs := map[];
    }

    /** `/add-habit`: a new definition with the next id, the request
        model's default colour when none is sent, `group_id or 0`, not
        archived, at `sort_order` 0, created `today`. */
    method AddHabit(title: string, color: Option<string>, groupId: Option<int>, today: string) returns (id: int)
      requires Valid()
      modifies this
      ensures Valid()
      ensures id == old(nextId)
      ensures defs == old(defs) + [HabitDef(id, title, Pick(color, DEFAULT_COLOR), Pick(groupId, 0), today, 0, 0)]
      ensures logs == old(logs)
    {
      id := nextId;
      var c := if color.Some? then color.value else DEFAULT_COLOR;
      var g := if groupId.Some? then groupId.value else 0;
      defs := defs + [HabitDef(id, title, c, g, today, 0, 0)];
      nextId := nextId + 1;
    }

    /** `/toggle-habit`: the upsert leaves exactly one status for the pair,
        the one just sent. */
    method ToggleHabit(t: Toggle)
      modifies this
      ensures logs == old(logs)[(t.date, t.habitId) := t.status]
      ensures defs == old(defs) && nextId == old(nextId)
    {
      logs := logs[(t.date, t.habitId) := t.status];
    }

    /** `/mark-all-done`: status 1 for every non-archived habit on `date`;
        every other entry is untouched. */
    method MarkAllDone(date: string)
      modifies this
      ensures defs == old(defs) && nextId == old(nextId)
      ensures forall d :: d in defs && d.archived == 0 ==> (date, d.id) in logs && logs[(date, d.id)] == 1
      ensures forall key :: key in logs <==> key in old(logs) || (key.0 == date && exists d :: d in defs && d.archived == 0 && d.id == key.1)
      ensures forall key :: key in old(logs) && !(key.0 == date && exists d :: d in defs && d.archived == 0 && d.id == key.1) ==>
        logs[key] == old(logs)[key]
    {
      var habits := Active(defs);
      for i := 0 to |habits|
        invariant defs == old(defs) && nextId == old(nextId)
        invariant forall k :: 0 <= k < i ==> (date, habits[k].id) in logs && logs[(date, habits[k].id)] == 1
        invariant forall key :: key in logs <==> key in old(logs) || (key.0 == date && exists k :: 0 <= k < i && habits[k].id == key.1)
        invariant forall key :: key in old(logs) && !(key.0 == date && exists k :: 0 <= k < i && habits[k].id == key.1) ==>
          logs[key] == old(logs)[key]
      {
        logs := logs[(date, habits[i].id) := 1];
      }
      forall key: (string, int) | key.0 == date ensures
        (exists k :: 0 <= k < |habits| && habits[k].id == key.1) <==> (exists d :: d in defs && d.archived == 0 && d.id == key.1)
      {
        ActiveIdAt(defs, key.1);
        assert habits == Active(defs);
      }
      forall d | d in defs && d.archived == 0 ensures (date, d.id) in logs && logs[(date, d.id)] == 1 {
        ActiveIdAt(defs, d.id);
      }
    }

    /** `/update-habit`: the supplied fields are collected one by one and,
        when there is any, applied to the habit with that id. */
    method UpdateHabit(habitId: int, title: Option<string>, color: Option<string>, groupId: Option<int>, archived: Option<bool>)
      requires Valid()
      modifies this
      ensures Valid()
      ensures defs == UpdatedDefs(old(defs), habitId, PatchFor(title, color, groupId, archived))
      ensures title.None? && color.None? && groupId.None? && archived.None? ==> defs == old(defs)
      ensures logs == old(logs) && nextId == old(nextId)
    {
      var fields: seq<Patch> := [];
      if title.Some? {
        fields := fields + [SetTitle(title.value)];
      }
      if color.Some? {
        fields := fields + [SetColor(color.value)];
      }
      if groupId.Some? {
        fields := fields + [SetGroup(groupId.value)];
      }
      if archived.Some? {
        fields := fields + [SetArchived(if archived.value then 1 else 0)];
      }
      assert fields == PatchFor(title, color, groupId, archived);
      if fields != [] {
        defs := UpdatedDefs(defs, habitId, fields);
        forall k | 0 <= k < |defs| ensures defs[k].id == old(defs)[k].id {
          if old(defs)[k].id == habitId {
            PatchKeepsId(old(defs)[k], fields);
          }
        }
      } else {
        assert defs == UpdatedDefs(defs, habitId, []);
      }
    }

    /** `/delete-habit/{habit_id}`: the definition and all of its log rows
        go. */
    method DeleteHabit(habitId: int)
      requires Valid()
      modifies this
      ensures Valid()
      ensures forall d :: d in defs <==> d in old(defs) && d.id != habitId
      ensures logs == map key | key in old(logs) && key.1 != habitId :: old(logs)[key]
      ensures nextId == old(nextId)
    {
      defs := WithoutHabit(defs, habitId);
      forall d ensures d in defs <==> d in old(defs) && d.id != habitId {
        WithoutHabitSpec(old(defs), habitId, d);
      }
      WithoutHabitValid(old(defs), habitId, nextId);
      logs := map key | key in logs && key.1 != habitId :: logs[key];
    }
  }

  lemma {:induction false} PatchKeepsId(d: HabitDef, ps: seq<Patch>)
    ensures ApplyPatches(d, ps).id == d.id
  {
    if ps != [] {
      PatchKeepsId(d, ps[..|ps| - 1]);
    }
  }

  /** `DELETE FROM habit_definitions WHERE id = ?`. */
  function WithoutHabit(defs: seq<HabitDef>, habitId: int): (r: seq<HabitDef>)
    ensures |r| <= |defs|
  {
    if defs == [] then []
    else WithoutHabit(defs[..|defs| - 1], habitId) + (if defs[|defs| - 1].id == habitId then [] else [defs[|defs| - 1]])
  }

  lemma {:induction false} WithoutHabitSpec(defs: seq<HabitDef>, habitId: int, d: HabitDef)
    ensures d in WithoutHabit(defs, habitId) <==> d in defs && d.id != habitId
  {
    if defs != [] {
      WithoutHabitSpec(defs[..|defs| - 1], habitId, d);
      assert defs == defs[..|defs| - 1] + [defs[|defs| - 1]];
    }
  }

  lemma {:induction false} WithoutHabitValid(defs: seq<HabitDef>, habitId: int, nextId: int)
    requires DefsValid(defs, nextId)
    ensures DefsValid(WithoutHabit(defs, habitId), nextId)
  {
    if defs != [] {
      var init := defs[..|defs| - 1];
      var x := defs[|defs| - 1];
      assert DefsValid(init, nextId) by {
        forall j, k | 0 <= j < k < |init| ensures init[j].id != init[k].id {
          assert defs[j] == init[j] && defs[k] == init[k];
        }
      }
      WithoutHabitValid(init, habitId, nextId);
      var w := WithoutHabit(init, habitId);
      if x.id != habitId {
        var r := w + [x];
        forall j, k | 0 <= j < k < |r| ensures r[j].id != r[k].id {
          if k == |w| {
            assert r[j] in w;
            WithoutHabitSpec(init, habitId, r[j]);
            var m :| 0 <= m < |init| && init[m] == r[j];
            assert defs[m] == r[j];
          } else {
            assert r[j] == w[j] && r[k] == w[k];
          }
        }
        forall k | 0 <= k < |r| ensures r[k].id < nextId {
          if k < |w| {
            assert r[k] in w;
            WithoutHabitSpec(init, habitId, r[k]);
          }
        }
      } else {
        forall k | 0 <= k < |w| ensures w[k].id < nextId {
          assert w[k] in w;
          WithoutHabitSpec(init, habitId, w[k]);
        }
      }
    }
  }
}
