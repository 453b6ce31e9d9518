/** The day-log tables and the handlers of routers/logs.py. `daily_logs`
    and `log_items` are sequences of rows in rowid order; every query that
    orders its rows does so with a stable sort over that order. The unique
    index on `log_items.item_id` is part of the model: `INSERT OR REPLACE`
    removes the row holding the same `item_id` and appends the new one. */
module LogStore {
  import opened Common
  import opened Sorting
  import opened Grouping

  /** A row of `daily_logs`. */
  datatype DailyLog = DailyLog(id: nat, date: string)

  /** A row of `log_items`. */
  datatype ItemRow = ItemRow(
    itemId: Option<string>,
    logId: nat,
    title: string,
    content: string,
    isDone: bool,
    sortOrder: int,
    tags: Option<string>,
    originId: Option<string>,
    parentId: Option<string>,
    relationType: Option<string>)

  /** An item of a `/save-log` request; the fields the client leaves out
      take the defaults of the request model. */
  datatype TodoItem = TodoItem(
    itemId: Option<string>,
    title: string,
    content: string,
    tags: string,
    isDone: bool,
    originId: Option<string>,
    parentId: Option<string>,
    relationType: Option<string>)

  /** An item of a `/get-log` response. */
  datatype LogItem = LogItem(
    itemId: Option<string>,
    title: string,
    content: string,
    isDone: bool,
    tags: Option<string>,
    originId: Option<string>,
    parentId: Option<string>,
    relationType: Option<string>)

  datatype LogResponse = LogResponse(date: string, items: seq<LogItem>)

  // ---------------------------------------------------------------------
  // Table helpers
  // ---------------------------------------------------------------------

  /** `SELECT id FROM daily_logs WHERE log_date = ?`. */
  function FindLog(logs: seq<DailyLog>, date: string): (r: Option<nat>)
    ensures r.Some? <==> exists l :: l in logs && l.date == date
    ensures r.Some? ==> DailyLog(r.value, date) in logs
  {
    if logs == [] then None
    else if logs[0].date == date then Some(logs[0].id)
    else FindLog(logs[1..], date)
  }

  /** The `log_date` of log `id`, as the joins look it up. */
  function DateOfLog(logs: seq<DailyLog>, id: nat): (r: Option<string>)
    ensures r.Some? <==> exists l :: l in logs && l.id == id
    ensures r.Some? ==> DailyLog(id, r.value) in logs
  {
    if logs == [] then None
    else if logs[0].id == id then Some(logs[0].date)
    else DateOfLog(logs[1..], id)
  }

  /** Dates and ids of `daily_logs` are unique and below the next id. */
  ghost predicate LogsValid(logs: seq<DailyLog>, nextId: nat) {
    && (forall k :: 0 <= k < |logs| ==> logs[k].id < nextId)
    && (forall j, k :: 0 <= j < k < |logs| ==> logs[j].id != logs[k].id && logs[j].date != logs[k].date)
  }

  /** The number of rows whose `item_id` is `id`. */
  function CountId(t: seq<ItemRow>, id: string): nat {
    if t == [] then 0
    else CountId(t[..|t| - 1], id) + (if t[|t| - 1].itemId == Some(id) then 1 else 0)
  }

  /** The unique index on `item_id`: no two rows share a non-NULL id. */
  ghost predicate UniqueItemIds(t: seq<ItemRow>) {
    forall id :: CountId(t, id) <= 1
  }

  /** The rows of log `logId`, in table order. */
  function ItemsOf(t: seq<ItemRow>, logId: nat): (r: seq<ItemRow>)
    ensures |r| <= |t|
  {
    if t == [] then []
    else ItemsOf(t[..|t| - 1], logId) + (if t[|t| - 1].logId == logId then [t[|t| - 1]] else [])
  }

  /** Python truthiness of an optional id: neither NULL nor "". */
  predicate Truthy(id: Option<string>) {
    id.Some? && id.value != ""
  }

  /** `DELETE FROM log_items WHERE item_id IN ids`. */
  function Without(t: seq<ItemRow>, ids: set<string>): (r: seq<ItemRow>)
    ensures |r| <= |t|
  {
    if t == [] then []
    else
      var x := t[|t| - 1];
      Without(t[..|t| - 1], ids) + (if x.itemId.Some? && x.itemId.value in ids then [] else [x])
  }

  lemma {:induction false} ItemsOfSpec(t: seq<ItemRow>, logId: nat, x: ItemRow)
    ensures x in ItemsOf(t, logId) <==> x in t && x.logId == logId
  {
    if t != [] {
      var init := t[..|t| - 1];
      ItemsOfSpec(init, logId, x);
      assert t == init + [t[|t| - 1]];
    }
  }

  lemma {:induction false} WithoutSpec(t: seq<ItemRow>, ids: set<string>, x: ItemRow)
    ensures x in Without(t, ids) <==> x in t && !(x.itemId.Some? && x.itemId.value in ids)
  {
    if t != [] {
      var init := t[..|t| - 1];
      WithoutSpec(init, ids, x);
      assert t == init + [t[|t| - 1]];
    }
  }

  lemma {:induction false} WithoutAppend(a: seq<ItemRow>, b: seq<ItemRow>, ids: set<string>)
    ensures Without(a + b, ids) == Without(a, ids) + Without(b, ids)
    decreases |b|
  {
    if b == [] {
      assert a + b == a;
    } else {
      var n := |b| - 1;
      assert (a + b)[..|a + b| - 1] == a + b[..n];
      assert (a + b)[|a + b| - 1] == b[n];
      WithoutAppend(a, b[..n], ids);
    }
  }

  lemma {:induction false} WithoutTwice(t: seq<ItemRow>, a: set<string>, b: set<string>)
    ensures Without(Without(t, a), b) == Without(t, a + b)
  {
    if t != [] {
      var init := t[..|t| - 1];
      var x := t[|t| - 1];
      WithoutTwice(init, a, b);
      var keep := if x.itemId.Some? && x.itemId.value in a then [] else [x];
      WithoutAppend(Without(init, a), keep, b);
    }
  }

  lemma {:induction false} WithoutNone(t: seq<ItemRow>, ids: set<string>)
    requires forall k :: 0 <= k < |t| ==> !(t[k].itemId.Some? && t[k].itemId.value in ids)
    ensures Without(t, ids) == t
  {
    if t != [] {
      WithoutNone(t[..|t| - 1], ids);
    }
  }

  lemma {:induction false} ItemsOfAppend(a: seq<ItemRow>, b: seq<ItemRow>, logId: nat)
    ensures ItemsOf(a + b, logId) == ItemsOf(a, logId) + ItemsOf(b, logId)
    decreases |b|
  {
    if b == [] {
      assert a + b == a;
    } else {
      var n := |b| - 1;
      assert (a + b)[..|a + b| - 1] == a + b[..n];
      assert (a + b)[|a + b| - 1] == b[n];
      ItemsOfAppend(a, b[..n], logId);
    }
  }

  lemma {:induction false} ItemsOfAll(t: seq<ItemRow>, logId: nat)
    requires forall k :: 0 <= k < |t| ==> t[k].logId == logId
    ensures ItemsOf(t, logId) == t
  {
    if t != [] {
      ItemsOfAll(t[..|t| - 1], logId);
    }
  }

  // ---------------------------------------------------------------------
  // save_log
  // ---------------------------------------------------------------------

  /** `existing_ids`: the non-empty ids stored for the log. */
  function ExistingIds(t: seq<ItemRow>, logId: nat): set<string> {
    set x | x in t && x.logId == logId && Truthy(x.itemId) :: x.itemId.value
  }

  /** `incoming_ids`: the non-empty ids of the request. */
  function IncomingIds(req: seq<TodoItem>): set<string> {
    set x | x in req && Truthy(x.itemId) :: x.itemId.value
  }

  /** `item.item_id or str(uuid.uuid4())`. */
  function StoredId(item: TodoItem, generated: string): string {
    if Truthy(item.itemId) then item.itemId.value else generated
  }

  /** The row `INSERT OR REPLACE` writes for request item `idx`. */
  function RowFor(item: TodoItem, logId: nat, idx: nat, generated: string): ItemRow {
    ItemRow(Some(StoredId(item, generated)), logId, item.title, item.content, item.isDone, idx,
            Some(item.tags), item.originId, item.parentId, item.relationType)
  }

  /** The rows written for the request, `uuids(idx)` being the id
      generated for item `idx` when it has none. */
  function RowsFor(req: seq<TodoItem>, logId: nat, uuids: nat -> string): (rows: seq<ItemRow>)
    ensures |rows| == |req|
    ensures forall k :: 0 <= k < |req| ==> rows[k] == RowFor(req[k], logId, k, uuids(k))
  {
    seq(|req|, k requires 0 <= k < |req| => RowFor(req[k], logId, k, uuids(k)))
  }

  /** `INSERT OR REPLACE` under the unique index on `item_id`. */
  function Upsert(t: seq<ItemRow>, row: ItemRow): seq<ItemRow>
    requires row.itemId.Some?
  {
    Without(t, {row.itemId.value}) + [row]
  }

  /** The upserts of the loop, in request order. */
  function UpsertAll(t: seq<ItemRow>, rows: seq<ItemRow>): seq<ItemRow>
    requires forall k :: 0 <= k < |rows| ==> rows[k].itemId.Some?
  {
    if rows == [] then t
    else Upsert(UpsertAll(t, rows[..|rows| - 1]), rows[|rows| - 1])
  }

  /** The ids of a run of rows that all have one. */
  function IdSet(rows: seq<ItemRow>): set<string>
    requires forall k :: 0 <= k < |rows| ==> rows[k].itemId.Some?
  {
    if rows == [] then {} else IdSet(rows[..|rows| - 1]) + {rows[|rows| - 1].itemId.value}
  }

  lemma {:induction false} IdSetHas(rows: seq<ItemRow>, k: nat)
    requires forall k :: 0 <= k < |rows| ==> rows[k].itemId.Some?
    requires k < |rows|
    ensures rows[k].itemId.value in IdSet(rows)
  {
    if k < |rows| - 1 {
      IdSetHas(rows[..|rows| - 1], k);
    }
  }

  /** With pairwise different ids every upsert lands: the result is the
      old table without the upserted ids, followed by the new rows. */
  lemma {:induction false} UpsertAllDistinct(t: seq<ItemRow>, rows: seq<ItemRow>)
    requires forall k :: 0 <= k < |rows| ==> rows[k].itemId.Some?
    requires forall j, k :: 0 <= j < k < |rows| ==> rows[j].itemId != rows[k].itemId
    ensures UpsertAll(t, rows) == Without(t, IdSet(rows)) + rows
  {
    if rows == [] {
      WithoutNone(t, {});
    } else {
      var n := |rows| - 1;
      UpsertAllDistinct(t, rows[..n]);
      assert rows == rows[..n] + [rows[n]];
      UpsertLast(t, rows[..n], rows[n]);
    }
  }

  /** The step of `UpsertAllDistinct`: upserting a row whose id the run
      before it does not use. */
  lemma UpsertLast(t: seq<ItemRow>, init: seq<ItemRow>, x: ItemRow)
    requires x.itemId.Some? && forall k :: 0 <= k < |init| ==> init[k].itemId.Some? && init[k].itemId != x.itemId
    requires UpsertAll(t, init) == Without(t, IdSet(init)) + init
    ensures UpsertAll(t, init + [x]) == Without(t, IdSet(init + [x])) + (init + [x])
  {
    var rows := init + [x];
    assert rows[..|init|] == init;
    WithoutFresh(t, init, x);
  }

  /** Deleting the id of a row that a run does not use, after the run was
      upserted into `t`, leaves the run in place. */
  lemma WithoutFresh(t: seq<ItemRow>, init: seq<ItemRow>, x: ItemRow)
    requires x.itemId.Some? && forall k :: 0 <= k < |init| ==> init[k].itemId.Some? && init[k].itemId != x.itemId
    ensures Without(Without(t, IdSet(init)) + init, {x.itemId.value}) == Without(t, IdSet(init + [x])) + init
  {
    var v := {x.itemId.value};
    WithoutNone(init, v);
    WithoutAppend(Without(t, IdSet(init)), init, v);
    WithoutTwice(t, IdSet(init), v);
    assert (init + [x])[..|init|] == init;
  }

  /** The whole effect of `save_log` on `log_items` for log `logId`: the
      stored ids missing from the request are deleted, then every request
      item is upserted with `sort_order` equal to its index. */
  function Reconciled(t: seq<ItemRow>, logId: nat, req: seq<TodoItem>, uuids: nat -> string): seq<ItemRow> {
    ReconciledWith(t, logId, req, RowsFor(req, logId, uuids))
  }

  /** The delete, then the upsert of `rows`, one per request item. */
  function ReconciledWith(t: seq<ItemRow>, logId: nat, req: seq<TodoItem>, rows: seq<ItemRow>): seq<ItemRow>
    requires forall k :: 0 <= k < |rows| ==> rows[k].itemId.Some?
  {
    UpsertAll(Without(t, ExistingIds(t, logId) - IncomingIds(req)), rows)
  }

  /** The delete and upsert loop of `save_log`. */
  method Reconcile(t: seq<ItemRow>, logId: nat, req: seq<TodoItem>, rows: seq<ItemRow>)
    returns (r: seq<ItemRow>)
    requires forall k :: 0 <= k < |rows| ==> rows[k].itemId.Some?
    ensures r == ReconciledWith(t, logId, req, rows)
  {
    var existing := ExistingIds(t, logId);
    var incoming := IncomingIds(req);
    r := Without(t, existing - incoming);
    ghost var base := r;
    for idx := 0 to |rows|
      invariant r == UpsertAll(base, rows[..idx])
    {
      var row := rows[idx];
      assert rows[..idx + 1][..idx] == rows[..idx];
      r := Without(r, {row.itemId.value}) + [row];
    }
    assert rows[..|rows|] == rows;
  }

  /** The first row holding `id`, the one the unique index allows. */
  function PriorRow(t: seq<ItemRow>, id: string): (r: Option<ItemRow>)
    ensures r.Some? ==> r.value in t && r.value.itemId == Some(id)
    ensures r.None? ==> forall x :: x in t ==> x.itemId != Some(id)
  {
    if t == [] then None
    else if t[0].itemId == Some(id) then Some(t[0])
    else PriorRow(t[1..], id)
  }

  function OrElse(a: Option<string>, b: Option<string>): Option<string> {
    if a.Some? then a else b
  }

  /** The row written for `item` when the relation fields the request
      leaves out are taken from the row already stored under its id. */
  function KeptRow(item: TodoItem, logId: nat, idx: nat, generated: string, t: seq<ItemRow>): (r: ItemRow)
    ensures r.itemId == RowFor(item, logId, idx, generated).itemId
  {
    var row := RowFor(item, logId, idx, generated);
    match PriorRow(t, row.itemId.value)
    case None => row
    case Some(p) =>
      row.(originId := OrElse(item.originId, p.originId),
           parentId := OrElse(item.parentId, p.parentId),
           relationType := OrElse(item.relationType, p.relationType))
  }

  function KeptRows(req: seq<TodoItem>, logId: nat, uuids: nat -> string, t: seq<ItemRow>): (rows: seq<ItemRow>)
    ensures |rows| == |req|
    ensures forall k :: 0 <= k < |req| ==> rows[k] == KeptRow(req[k], logId, k, uuids(k), t)
  {
    seq(|req|, k requires 0 <= k < |req| => KeptRow(req[k], logId, k, uuids(k), t))
  }

  /** `save_log` with the relation fields kept. */
  function ReconciledKeepingLinks(t: seq<ItemRow>, logId: nat, req: seq<TodoItem>, uuids: nat -> string): seq<ItemRow> {
    ReconciledWith(t, logId, req, KeptRows(req, logId, uuids, t))
  }

  /** As written, a saved item carries exactly the relation fields of the
      request: whatever was stored under its id is gone. */
  lemma LinksReplaced(t: seq<ItemRow>, logId: nat, req: seq<TodoItem>, uuids: nat -> string, k: nat, x: ItemRow)
    requires DistinctStored(req, uuids) && k < |req|
    requires x in Reconciled(t, logId, req, uuids) && x.itemId == Some(StoredId(req[k], uuids(k)))
    ensures x.originId == req[k].originId && x.parentId == req[k].parentId && x.relationType == req[k].relationType
  {
    var rows := RowsFor(req, logId, uuids);
    RowsForDistinct(req, logId, uuids);
    FinalRowIsWritten(t, logId, req, rows, k, x);
  }

  /** With the correction, a saved item whose request leaves its
      relation fields out keeps those of the row stored under its id. */
  lemma LinksKept(t: seq<ItemRow>, logId: nat, req: seq<TodoItem>, uuids: nat -> string, k: nat, p: ItemRow, x: ItemRow)
    requires DistinctStored(req, uuids) && k < |req| && UniqueItemIds(t)
    requires req[k].originId.None? && req[k].parentId.None? && req[k].relationType.None?
    requires p in t && p.itemId == Some(StoredId(req[k], uuids(k)))
    requires x in ReconciledKeepingLinks(t, logId, req, uuids) && x.itemId == p.itemId
    ensures x.originId == p.originId && x.parentId == p.parentId && x.relationType == p.relationType
  {
    var rows := KeptRows(req, logId, uuids, t);
    RowsForDistinct(req, logId, uuids);
    assert forall j :: 0 <= j < |rows| ==> rows[j].itemId == RowsFor(req, logId, uuids)[j].itemId;
    FinalRowIsWritten(t, logId, req, rows, k, x);
    var id := StoredId(req[k], uuids(k));
    var q := PriorRow(t, id);
    assert q.Some?;
    OneRowPerId(t, p, q.value);
  }

  lemma OneRowPerId(t: seq<ItemRow>, p: ItemRow, q: ItemRow)
    requires UniqueItemIds(t) && p in t && q in t && p.itemId == q.itemId && p.itemId.Some?
    ensures p == q
  {
    if p != q {
      var i :| 0 <= i < |t| && t[i] == p;
      var j :| 0 <= j < |t| && t[j] == q;
      CountIdTwo(t, p.itemId.value, i, j);
      assert false;
    }
  }

  lemma {:induction false} CountIdTwo(t: seq<ItemRow>, id: string, i: nat, j: nat)
    requires i < |t| && j < |t| && i != j
    requires t[i].itemId == Some(id) && t[j].itemId == Some(id)
    ensures CountId(t, id) >= 2
  {
    var n := |t| - 1;
    if i == n {
      CountIdOne(t[..n], id, j);
    } else if j == n {
      CountIdOne(t[..n], id, i);
    } else {
      CountIdTwo(t[..n], id, i, j);
    }
  }

  lemma {:induction false} CountIdOne(t: seq<ItemRow>, id: string, i: nat)
    requires i < |t| && t[i].itemId == Some(id)
    ensures CountId(t, id) >= 1
  {
    var n := |t| - 1;
    if i < n {
      CountIdOne(t[..n], id, i);
    }
  }

  /** In a save whose written rows have pairwise different ids, the only
      row holding the id of row `k` is row `k` itself. */
  lemma FinalRowIsWritten(t: seq<ItemRow>, logId: nat, req: seq<TodoItem>, rows: seq<ItemRow>, k: nat, x: ItemRow)
    requires k < |rows| && forall j :: 0 <= j < |rows| ==> rows[j].itemId.Some?
    requires forall i, j :: 0 <= i < j < |rows| ==> rows[i].itemId != rows[j].itemId
    requires x in ReconciledWith(t, logId, req, rows) && x.itemId == rows[k].itemId
    ensures x == rows[k]
  {
    var base := Without(t, ExistingIds(t, logId) - IncomingIds(req));
    UpsertAllDistinct(base, rows);
    IdSetHas(rows, k);
    WithoutSpec(base, IdSet(rows), x);
    assert x in rows;
  }

  lemma {:induction false} CountIdAppend(a: seq<ItemRow>, b: seq<ItemRow>, id: string)
    ensures CountId(a + b, id) == CountId(a, id) + CountId(b, id)
    decreases |b|
  {
    if b == [] {
      assert a + b == a;
    } else {
      var n := |b| - 1;
      assert (a + b)[..|a + b| - 1] == a + b[..n];
      assert (a + b)[|a + b| - 1] == b[n];
      CountIdAppend(a, b[..n], id);
    }
  }

  lemma {:induction false} CountIdWithout(t: seq<ItemRow>, ids: set<string>, id: string)
    ensures CountId(Without(t, ids), id) <= CountId(t, id)
    ensures id in ids ==> CountId(Without(t, ids), id) == 0
  {
    if t != [] {
      var init := t[..|t| - 1];
      var x := t[|t| - 1];
      CountIdWithout(init, ids, id);
      var keep := if x.itemId.Some? && x.itemId.value in ids then [] else [x];
      CountIdAppend(Without(init, ids), keep, id);
    }
  }

  lemma UpsertKeepsUnique(t: seq<ItemRow>, row: ItemRow)
    requires row.itemId.Some? && UniqueItemIds(t)
    ensures UniqueItemIds(Upsert(t, row))
  {
    forall id ensures CountId(Upsert(t, row), id) <= 1 {
      CountIdWithout(t, {row.itemId.value}, id);
      CountIdAppend(Without(t, {row.itemId.value}), [row], id);
    }
  }

  lemma WithoutUnique(t: seq<ItemRow>, ids: set<string>)
    requires UniqueItemIds(t)
    ensures UniqueItemIds(Without(t, ids))
  {
    forall id ensures CountId(Without(t, ids), id) <= 1 {
      CountIdWithout(t, ids, id);
    }
  }

  lemma {:induction false} UpsertAllKeepsUnique(t: seq<ItemRow>, rows: seq<ItemRow>)
    requires forall k :: 0 <= k < |rows| ==> rows[k].itemId.Some?
    requires UniqueItemIds(t)
    ensures UniqueItemIds(UpsertAll(t, rows))
  {
    if rows != [] {
      UpsertAllKeepsUnique(t, rows[..|rows| - 1]);
      UpsertKeepsUnique(UpsertAll(t, rows[..|rows| - 1]), rows[|rows| - 1]);
    }
  }

  /** Saving keeps the `item_id` index unique. */
  lemma ReconciledKeepsUnique(t: seq<ItemRow>, logId: nat, req: seq<TodoItem>, rows: seq<ItemRow>)
    requires forall k :: 0 <= k < |rows| ==> rows[k].itemId.Some?
    requires UniqueItemIds(t)
    ensures UniqueItemIds(ReconciledWith(t, logId, req, rows))
  {
    var base := Without(t, ExistingIds(t, logId) - IncomingIds(req));
    WithoutUnique(t, ExistingIds(t, logId) - IncomingIds(req));
    UpsertAllKeepsUnique(base, rows);
  }

  /** A request with pairwise different, non-empty ids, as the day page
      sends it. */
  ghost predicate WellKeyed(req: seq<TodoItem>) {
    && (forall k :: 0 <= k < |req| ==> Truthy(req[k].itemId))
    && (forall j, k :: 0 <= j < k < |req| ==> req[j].itemId != req[k].itemId)
  }

  /** The ids the rows are stored under, the request's own or the
      generated ones, are pairwise different. Items without an id are
      allowed; two request items sharing an id are not, since then
      `INSERT OR REPLACE` keeps only the later one. */
  ghost predicate DistinctStored(req: seq<TodoItem>, uuids: nat -> string) {
    forall j, k :: 0 <= j < k < |req| ==> StoredId(req[j], uuids(j)) != StoredId(req[k], uuids(k))
  }

  /** A request from the day page has distinct stored ids whatever ids
      the server would generate. */
  lemma WellKeyedStored(req: seq<TodoItem>, uuids: nat -> string)
    requires WellKeyed(req)
    ensures DistinctStored(req, uuids)
  {
  }

  /** After a save, the log holds exactly the rows
      written for the request, in request order: every stored item of the
      log is either deleted or replaced. Rows of the log without an id
      (which `save_log` never writes) would be left in place. */
  lemma {:induction false} SavedLogIsRequest(t: seq<ItemRow>, logId: nat, req: seq<TodoItem>, uuids: nat -> string)
    requires DistinctStored(req, uuids)
    requires forall x :: x in t && x.logId == logId ==> Truthy(x.itemId)
    ensures ItemsOf(Reconciled(t, logId, req, uuids), logId) == RowsFor(req, logId, uuids)
  {
    var rows := RowsFor(req, logId, uuids);
    var base := Without(t, ExistingIds(t, logId) - IncomingIds(req));
    var rest := Without(base, IdSet(rows));
    assert Reconciled(t, logId, req, uuids) == rest + rows by {
      RowsForDistinct(req, logId, uuids);
      UpsertAllDistinct(base, rows);
    }
    assert ItemsOf(rest + rows, logId) == rows by {
      ItemsOfAppend(rest, rows, logId);
      ItemsOfAll(rows, logId);
      NothingOldSurvives(t, logId, req, uuids);
    }
  }

  /** The rows written for the request have pairwise different ids. */
  lemma RowsForDistinct(req: seq<TodoItem>, logId: nat, uuids: nat -> string)
    requires DistinctStored(req, uuids)
    ensures forall j, k :: 0 <= j < k < |req| ==> RowsFor(req, logId, uuids)[j].itemId != RowsFor(req, logId, uuids)[k].itemId
  {
    var rows := RowsFor(req, logId, uuids);
    forall j, k | 0 <= j < k < |rows| ensures rows[j].itemId != rows[k].itemId {
      assert rows[j].itemId == Some(StoredId(req[j], uuids(j))) && rows[k].itemId == Some(StoredId(req[k], uuids(k)));
    }
  }

  /** A request item without an id is stored under the id generated for
      it, at its place in the log, with its own fields. */
  lemma IdLessItemStored(t: seq<ItemRow>, logId: nat, req: seq<TodoItem>, uuids: nat -> string, k: nat)
    requires DistinctStored(req, uuids)
    requires forall x :: x in t && x.logId == logId ==> Truthy(x.itemId)
    requires k < |req| && !Truthy(req[k].itemId)
    ensures var saved := ItemsOf(Reconciled(t, logId, req, uuids), logId);
      && |saved| == |req|
      && saved[k].itemId == Some(uuids(k))
      && saved[k].title == req[k].title && saved[k].content == req[k].content
      && saved[k].isDone == req[k].isDone && saved[k].sortOrder == k
  {
    SavedLogIsRequest(t, logId, req, uuids);
  }

  /** Every stored item of the log is either deleted (its id is not in
      the request) or replaced (its id is). */
  lemma NothingOldSurvives(t: seq<ItemRow>, logId: nat, req: seq<TodoItem>, uuids: nat -> string)
    requires forall x :: x in t && x.logId == logId ==> Truthy(x.itemId)
    ensures ItemsOf(Without(Without(t, ExistingIds(t, logId) - IncomingIds(req)), IdSet(RowsFor(req, logId, uuids))), logId) == []
  {
    var rows := RowsFor(req, logId, uuids);
    var doomed := ExistingIds(t, logId) - IncomingIds(req);
    var base := Without(t, doomed);
    var rest := Without(base, IdSet(rows));
    if ItemsOf(rest, logId) != [] {
      var x := ItemsOf(rest, logId)[0];
      ItemsOfSpec(rest, logId, x);
      WithoutSpec(base, IdSet(rows), x);
      WithoutSpec(t, doomed, x);
      assert x.itemId.value in ExistingIds(t, logId);
      var y :| y in req && Truthy(y.itemId) && y.itemId.value == x.itemId.value;
      var k :| 0 <= k < |req| && req[k] == y;
      IdSetHas(rows, k);
      assert false;
    }
  }

  // ---------------------------------------------------------------------
  // get_log
  // ---------------------------------------------------------------------

  predicate SortOrderLe(a: ItemRow, b: ItemRow) {
    a.sortOrder <= b.sortOrder
  }

  function ToLogItem(r: ItemRow): LogItem {
    LogItem(r.itemId, r.title, r.content, r.isDone, r.tags, r.originId, r.parentId, r.relationType)
  }

  /** What `/get-log` answers for `date`: no items when the day has no
      log, otherwise its items by `sort_order`. */
  function LogView(logs: seq<DailyLog>, t: seq<ItemRow>, date: string): (r: LogResponse)
    ensures r.date == date
    ensures FindLog(logs, date).None? ==> r.items == []
    ensures FindLog(logs, date).Some? ==> |r.items| == |ItemsOf(t, FindLog(logs, date).value)|
  {
    var id := FindLog(logs, date);
    if id.None? then LogResponse(date, [])
    else
      var rows := SortBy(ItemsOf(t, id.value), SortOrderLe);
      LogResponse(date, seq(|rows|, k requires 0 <= k < |rows| => ToLogItem(rows[k])))
  }

  /** What `/get-log` gives back for a saved request item. */
  function Echo(item: TodoItem, id: string): LogItem {
    LogItem(Some(id), item.title, item.content, item.isDone, Some(item.tags),
            item.originId, item.parentId, item.relationType)
  }

  /** What `/get-log` gives back for a whole saved request. */
  function Echoes(req: seq<TodoItem>, uuids: nat -> string): (r: seq<LogItem>)
    ensures |r| == |req|
  {
    seq(|req|, k requires 0 <= k < |req| => Echo(req[k], StoredId(req[k], uuids(k))))
  }

  lemma RowsForSorted(req: seq<TodoItem>, logId: nat, uuids: nat -> string)
    ensures SortedBy(RowsFor(req, logId, uuids), SortOrderLe)
  {
  }

  /** Round trip of `/save-log` and `/get-log`: after a save, the day
      reads back as the request, item by item and in order, each item
      under its own id or the one generated for it. */
  lemma SaveThenGet(logs: seq<DailyLog>, t: seq<ItemRow>, date: string, logId: nat,
                    req: seq<TodoItem>, uuids: nat -> string)
    requires FindLog(logs, date) == Some(logId)
    requires DistinctStored(req, uuids)
    requires forall x :: x in t && x.logId == logId ==> Truthy(x.itemId)
    ensures LogView(logs, Reconciled(t, logId, req, uuids), date).items == Echoes(req, uuids)
  {
    var rows := RowsFor(req, logId, uuids);
    var s := Reconciled(t, logId, req, uuids);
    SavedLogIsRequest(t, logId, req, uuids);
    RowsForSorted(req, logId, uuids);
    ViewOfSortedRows(logs, s, date, logId, rows);
    EchoesAreRows(req, logId, uuids);
  }

  /** `get_log` of a day whose rows are already in `sort_order` lists them
      as they are. */
  lemma ViewOfSortedRows(logs: seq<DailyLog>, t: seq<ItemRow>, date: string, logId: nat, rows: seq<ItemRow>)
    requires FindLog(logs, date) == Some(logId)
    requires ItemsOf(t, logId) == rows && SortedBy(rows, SortOrderLe)
    ensures LogView(logs, t, date).items == seq(|rows|, k requires 0 <= k < |rows| => ToLogItem(rows[k]))
  {
    SortByOfSorted(rows, SortOrderLe);
  }

  /** Reading back the written rows gives the request's echo. */
  lemma EchoesAreRows(req: seq<TodoItem>, logId: nat, uuids: nat -> string)
    ensures var rows := RowsFor(req, logId, uuids);
      seq(|rows|, k requires 0 <= k < |rows| => ToLogItem(rows[k])) == Echoes(req, uuids)
  {
  }

  // ---------------------------------------------------------------------
  // The join of daily_logs and log_items
  // ---------------------------------------------------------------------

  /** A row of `daily_logs JOIN log_items`. */
  datatype JoinedRow = JoinedRow(date: string, row: ItemRow)

  /** The join, in `log_items` order; an item whose log is missing has no
      joined row. */
  function Joined(logs: seq<DailyLog>, t: seq<ItemRow>): (r: seq<JoinedRow>)
    ensures |r| <= |t|
  {
    if t == [] then []
    else
      var x := t[|t| - 1];
      Joined(logs, t[..|t| - 1]) + (match DateOfLog(logs, x.logId) case None => [] case Some(d) => [JoinedRow(d, x)])
  }

  lemma {:induction false} JoinedSpec(logs: seq<DailyLog>, t: seq<ItemRow>, j: JoinedRow)
    ensures j in Joined(logs, t) <==> j.row in t && DateOfLog(logs, j.row.logId) == Some(j.date)
  {
    if t != [] {
      JoinedSpec(logs, t[..|t| - 1], j);
      assert t == t[..|t| - 1] + [t[|t| - 1]];
    }
  }

  /** `ORDER BY dl.log_date DESC, li.sort_order ASC`. */
  predicate NewestFirst(a: JoinedRow, b: JoinedRow) {
    LexLe(b.date, a.date) && (a.date == b.date ==> a.row.sortOrder <= b.row.sortOrder)
  }

  /** `ORDER BY dl.log_date ASC`. */
  predicate OldestFirst(a: JoinedRow, b: JoinedRow) {
    LexLe(a.date, b.date)
  }

  lemma NewestFirstIsPreorder()
    ensures TotalPreorder(NewestFirst)
  {
    forall x: JoinedRow, y: JoinedRow ensures NewestFirst(x, y) || NewestFirst(y, x) {
      LexLeTotal(x.date, y.date);
      if LexLe(x.date, y.date) && LexLe(y.date, x.date) {
        LexLeAntisym(x.date, y.date);
      }
    }
    forall x: JoinedRow, y: JoinedRow, z: JoinedRow | NewestFirst(x, y) && NewestFirst(y, z)
      ensures NewestFirst(x, z)
    {
      LexLeTrans(z.date, y.date, x.date);
      if x.date == z.date {
        LexLeAntisym(x.date, y.date);
      }
    }
  }

  lemma OldestFirstIsPreorder()
    ensures TotalPreorder(OldestFirst)
  {
    forall x: JoinedRow, y: JoinedRow ensures OldestFirst(x, y) || OldestFirst(y, x) {
      LexLeTotal(x.date, y.date);
    }
    forall x: JoinedRow, y: JoinedRow, z: JoinedRow | OldestFirst(x, y) && OldestFirst(y, z)
      ensures OldestFirst(x, z)
    {
      LexLeTrans(x.date, y.date, z.date);
    }
  }

  function DateOf(j: JoinedRow): string {
    j.date
  }

  // ---------------------------------------------------------------------
  // get_all_logs
  // ---------------------------------------------------------------------

  /** An item of a `/get-all-logs` day. */
  datatype ArchiveItem = ArchiveItem(
    title: string,
    content: string,
    tags: string,
    isDone: bool,
    itemId: Option<string>,
    originId: Option<string>,
    relationType: Option<string>)

  datatype ArchiveDay = ArchiveDay(date: string, items: seq<ArchiveItem>)

  /** `r['tags'] or ""`. */
  function TagsOrEmpty(tags: Option<string>): string {
    if tags.Some? then tags.value else ""
  }

  function ToArchiveItem(j: JoinedRow): ArchiveItem {
    ArchiveItem(j.row.title, j.row.content, TagsOrEmpty(j.row.tags), j.row.isDone,
                j.row.itemId, j.row.originId, j.row.relationType)
  }

  function ToArchiveDay(g: (string, seq<JoinedRow>)): ArchiveDay {
    ArchiveDay(g.0, seq(|g.1|, k requires 0 <= k < |g.1| => ToArchiveItem(g.1[k])))
  }

  /** What `/get-all-logs` answers: the joined rows newest day first,
      grouped by day in the order the days first appear. */
  function Archive(logs: seq<DailyLog>, t: seq<ItemRow>): seq<ArchiveDay> {
    var g := Grouped(SortBy(Joined(logs, t), NewestFirst), DateOf);
    seq(|g|, j requires 0 <= j < |g| => ToArchiveDay(g[j]))
  }

  function ArchiveSize(days: seq<ArchiveDay>): nat {
    if days == [] then 0 else ArchiveSize(days[..|days| - 1]) + |days[|days| - 1].items|
  }

  lemma {:induction false} ArchiveSizeIsTotal(g: seq<(string, seq<JoinedRow>)>)
    ensures ArchiveSize(seq(|g|, j requires 0 <= j < |g| => ToArchiveDay(g[j]))) == TotalSize(g)
  {
    if g != [] {
      var n := |g| - 1;
      ArchiveSizeIsTotal(g[..n]);
      var a := seq(|g|, j requires 0 <= j < |g| => ToArchiveDay(g[j]));
      assert a[..n] == seq(n, j requires 0 <= j < n => ToArchiveDay(g[..n][j]));
    }
  }

  /** The archive lists each day once, newest first, and every joined row
      exactly once. */
  lemma ArchiveShape(logs: seq<DailyLog>, t: seq<ItemRow>)
    ensures var a := Archive(logs, t);
      && (forall i, j :: 0 <= i < j < |a| ==> LexLt(a[j].date, a[i].date))
      && ArchiveSize(a) == |Joined(logs, t)|
  {
    var sorted := SortBy(Joined(logs, t), NewestFirst);
    NewestFirstIsPreorder();
    SortBySorted(Joined(logs, t), NewestFirst);
    var before := (x: string, y: string) => LexLe(y, x);
    KeysFollowOrder(sorted, DateOf, before);
    var ks := KeysInOrder(sorted, DateOf);
    forall i, j | 0 <= i < j < |ks| ensures LexLt(ks[j], ks[i]) {
      LexLtIsStrict(ks[j], ks[i]);
    }
    GroupedSize(sorted, DateOf);
    ArchiveSizeIsTotal(Grouped(sorted, DateOf));
  }

  /** Within a day, the archive keeps the items by `sort_order`. */
  lemma ArchiveDayInOrder(logs: seq<DailyLog>, t: seq<ItemRow>, d: string)
    ensures var ms := MembersOf(SortBy(Joined(logs, t), NewestFirst), DateOf, d);
      forall i, j :: 0 <= i < j < |ms| ==> ms[i].row.sortOrder <= ms[j].row.sortOrder
  {
    var sorted := SortBy(Joined(logs, t), NewestFirst);
    NewestFirstIsPreorder();
    SortBySorted(Joined(logs, t), NewestFirst);
    MembersOfSorted(sorted, d);
    var ms := MembersOf(sorted, DateOf, d);
    MembersOfSpec(sorted, DateOf, d);
    forall i, j | 0 <= i < j < |ms| ensures ms[i].row.sortOrder <= ms[j].row.sortOrder {
      assert ms[i] in ms && ms[j] in ms;
    }
  }

  lemma {:induction false} MembersOfSorted(xs: seq<JoinedRow>, d: string)
    requires SortedBy(xs, NewestFirst)
    ensures SortedBy(MembersOf(xs, DateOf, d), NewestFirst)
  {
    if xs != [] {
      var init := xs[..|xs| - 1];
      var x := xs[|xs| - 1];
      assert SortedBy(init, NewestFirst) by {
        forall i, j | 0 <= i < j < |init| ensures NewestFirst(init[i], init[j]) {
          assert init[i] == xs[i] && init[j] == xs[j];
        }
      }
      MembersOfSorted(init, d);
      var ms := MembersOf(init, DateOf, d);
      MembersOfSpec(init, DateOf, d);
      MembersStep(xs, DateOf, |xs| - 1, d);
      assert xs[..|xs|] == xs;
      if DateOf(x) == d {
        var r := ms + [x];
        forall i, j | 0 <= i < j < |r| ensures NewestFirst(r[i], r[j]) {
          if j == |ms| {
            assert r[i] in init;
            var m :| 0 <= m < |init| && init[m] == r[i];
            assert xs[m] == r[i];
          } else {
            assert r[i] == ms[i] && r[j] == ms[j];
          }
        }
      }
    }
  }

  // ---------------------------------------------------------------------
  // get_project_history
  // ---------------------------------------------------------------------

  datatype HistoryEntry = HistoryEntry(date: string, content: string, tags: Option<string>)

  datatype History = History(totalDays: nat, history: seq<HistoryEntry>)

  /** ASCII upper case to lower case, as SQLite's `LIKE` compares. */
  function FoldCase(c: char): char {
    if 'A' <= c <= 'Z' then (c as int + 32) as char else c
  }

  predicate SameFolded(a: string, b: string) {
    |a| == |b| && forall k :: 0 <= k < |a| ==> FoldCase(a[k]) == FoldCase(b[k])
  }

  /** `needle` occurs in `hay` at position `i`, ignoring ASCII case. */
  predicate FoldedAt(hay: string, needle: string, i: int) {
    0 <= i && i + |needle| <= |hay| && SameFolded(hay[i..i + |needle|], needle)
  }

  /** `hay LIKE '%needle%'`, the needle taken literally. */
  predicate ContainsFolded(hay: string, needle: string) {
    exists i :: 0 <= i <= |hay| && FoldedAt(hay, needle, i)
  }

  /** The filter of the query: the title matches exactly and, when a tag
      text is given, the stored tags contain it. */
  predicate HistoryMatch(j: JoinedRow, title: string, tags: Option<string>) {
    && j.row.title == title
    && (Truthy(tags) ==> j.row.tags.Some? && ContainsFolded(j.row.tags.value, tags.value))
  }

  function Matching(js: seq<JoinedRow>, title: string, tags: Option<string>): (r: seq<JoinedRow>)
    ensures |r| <= |js|
  {
    if js == [] then []
    else Matching(js[..|js| - 1], title, tags) + (if HistoryMatch(js[|js| - 1], title, tags) then [js[|js| - 1]] else [])
  }

  lemma {:induction false} MatchingSpec(js: seq<JoinedRow>, title: string, tags: Option<string>, j: JoinedRow)
    ensures j in Matching(js, title, tags) <==> j in js && HistoryMatch(j, title, tags)
  {
    if js != [] {
      MatchingSpec(js[..|js| - 1], title, tags, j);
      assert js == js[..|js| - 1] + [js[|js| - 1]];
    }
  }

  function ToEntry(j: JoinedRow): HistoryEntry {
    HistoryEntry(j.date, j.row.content, j.row.tags)
  }

  /** `set(h['date'] for h in history)`. */
  function DateSet(h: seq<HistoryEntry>): set<string> {
    if h == [] then {} else DateSet(h[..|h| - 1]) + {h[|h| - 1].date}
  }

  /** `/get-project-history`. */
  function ProjectHistory(logs: seq<DailyLog>, t: seq<ItemRow>, title: string, tags: Option<string>): (r: History)
    ensures |r.history| <= |t|
  {
    var rows := SortBy(Matching(Joined(logs, t), title, tags), OldestFirst);
    var h := seq(|rows|, k requires 0 <= k < |rows| => ToEntry(rows[k]));
    History(|DateSet(h)|, h)
  }

  lemma {:induction false} DateSetBounds(h: seq<HistoryEntry>)
    ensures |DateSet(h)| <= |h|
    ensures h != [] ==> |DateSet(h)| >= 1
    ensures forall k :: 0 <= k < |h| ==> h[k].date in DateSet(h)
  {
    if h != [] {
      var init := h[..|h| - 1];
      DateSetBounds(init);
      assert forall k :: 0 <= k < |init| ==> h[k] == init[k];
    }
  }

  /** The history is oldest first. */
  lemma HistoryOldestFirst(logs: seq<DailyLog>, t: seq<ItemRow>, title: string, tags: Option<string>)
    ensures var h := ProjectHistory(logs, t, title, tags).history;
      forall i, j :: 0 <= i < j < |h| ==> LexLe(h[i].date, h[j].date)
  {
    var m := Matching(Joined(logs, t), title, tags);
    OldestFirstIsPreorder();
    SortBySorted(m, OldestFirst);
  }

  /** The history holds exactly the matching rows. */
  lemma HistoryComplete(logs: seq<DailyLog>, t: seq<ItemRow>, title: string, tags: Option<string>, x: JoinedRow)
    ensures x in Joined(logs, t) && HistoryMatch(x, title, tags) ==>
      ToEntry(x) in ProjectHistory(logs, t, title, tags).history
    ensures forall e :: e in ProjectHistory(logs, t, title, tags).history ==>
      exists y :: y in Joined(logs, t) && HistoryMatch(y, title, tags) && e == ToEntry(y)
  {
    if x in Joined(logs, t) && HistoryMatch(x, title, tags) {
      HistoryHasMatch(logs, t, title, tags, x);
    }
    forall e | e in ProjectHistory(logs, t, title, tags).history
      ensures exists y :: y in Joined(logs, t) && HistoryMatch(y, title, tags) && e == ToEntry(y)
    {
      HistoryOnlyMatches(logs, t, title, tags, e);
    }
  }

  lemma HistoryHasMatch(logs: seq<DailyLog>, t: seq<ItemRow>, title: string, tags: Option<string>, x: JoinedRow)
    requires x in Joined(logs, t) && HistoryMatch(x, title, tags)
    ensures ToEntry(x) in ProjectHistory(logs, t, title, tags).history
  {
    var js := Joined(logs, t);
    var rows := SortBy(Matching(js, title, tags), OldestFirst);
    var h := ProjectHistory(logs, t, title, tags).history;
    MatchingSpec(js, title, tags, x);
    assert x in multiset(rows);
    var k :| 0 <= k < |rows| && rows[k] == x;
    assert h[k] == ToEntry(x);
  }

  lemma HistoryOnlyMatches(logs: seq<DailyLog>, t: seq<ItemRow>, title: string, tags: Option<string>, e: HistoryEntry)
    requires e in ProjectHistory(logs, t, title, tags).history
    ensures exists y :: y in Joined(logs, t) && HistoryMatch(y, title, tags) && e == ToEntry(y)
  {
    var js := Joined(logs, t);
    var m := Matching(js, title, tags);
    var rows := SortBy(m, OldestFirst);
    var h := ProjectHistory(logs, t, title, tags).history;
    var k :| 0 <= k < |h| && h[k] == e;
    assert rows[k] in multiset(m);
    MatchingSpec(js, title, tags, rows[k]);
  }

  /** `total_days` counts the different dates of the history: at most one
      per entry, and none only when the history is empty. */
  lemma HistoryDays(logs: seq<DailyLog>, t: seq<ItemRow>, title: string, tags: Option<string>)
    ensures var r := ProjectHistory(logs, t, title, tags);
      && r.totalDays <= |r.history|
      && (r.totalDays == 0 <==> r.history == [])
      && (forall e :: e in r.history ==> e.date in DateSet(r.history))
  {
    DateSetBounds(ProjectHistory(logs, t, title, tags).history);
  }

  // ---------------------------------------------------------------------
  // export_month_to_txt
  // ---------------------------------------------------------------------

  /** The first `n` characters, or all of a shorter string (`s[:n]`). */
  function Take(s: string, n: nat): (r: string)
    ensures |r| <= n
  {
    if |s| <= n then s else s[..n]
  }

  /** `s.replace('-', '')`. */
  function DropDashes(s: string): (r: string)
    ensures '-' !in r
  {
    if s == [] then []
    else (if s[0] == '-' then [] else [s[0]]) + DropDashes(s[1..])
  }

  /** The export file's name. */
  function ExportName(date: string): string {
    Take(DropDashes(date), 6) + ".txt"
  }

  predicate IsDigit(c: char) {
    '0' <= c <= '9'
  }

  /** An ISO date `YYYY-MM-DD` is exported to `YYYYMM.txt`. */
  lemma ExportNameOfIsoDate(date: string)
    requires |date| == 10 && date[4] == '-' && date[7] == '-'
    requires forall k :: 0 <= k < 10 && k != 4 && k != 7 ==> IsDigit(date[k])
    ensures ExportName(date) == date[..4] + date[5..7] + ".txt"
  {
    var y, m, rest := date[..4], date[5..7], date[8..];
    assert date == y + ['-'] + m + ['-'] + rest;
    assert DropDashes(y + ['-'] + m) == y + m by {
      DropDashSkip(y, m);
      DropDashesNone(y);
      DropDashesNone(m);
    }
    assert DropDashes(date) == y + m + rest by {
      DropDashSkip(y + ['-'] + m, rest);
      DropDashesNone(rest);
    }
    assert (y + m + rest)[..6] == y + m;
  }

  lemma DropDashSkip(a: string, b: string)
    ensures DropDashes(a + ['-'] + b) == DropDashes(a) + DropDashes(b)
  {
    DropDashesAppend(a + ['-'], b);
    DropDashesAppend(a, ['-']);
  }

  lemma {:induction false} DropDashesAppend(a: string, b: string)
    ensures DropDashes(a + b) == DropDashes(a) + DropDashes(b)
  {
    if a != [] {
      assert (a + b)[1..] == a[1..] + b;
      DropDashesAppend(a[1..], b);
    } else {
      assert a + b == b;
    }
  }

  lemma {:induction false} DropDashesNone(s: string)
    requires '-' !in s
    ensures DropDashes(s) == s
  {
    if s != [] {
      DropDashesNone(s[1..]);
    }
  }

  /** `"=" * 50`. */
  function Rule(): (r: string)
    ensures |r| == 50 && forall k :: 0 <= k < 50 ==> r[k] == '='
  {
    seq(50, _ => '=')
  }

  function DateHeader(d: string): string {
    Rule() + "\nDATE: " + d + "\n" + Rule() + "\n"
  }

  function StatusMark(done: bool): string {
    if done then "[v]" else "[ ]"
  }

  function TagSuffix(tags: Option<string>): (r: string)
    ensures r == "" <==> !Truthy(tags)
  {
    if Truthy(tags) then " (#" + tags.value + ")" else ""
  }

  function NoteLine(content: string): (r: string)
    ensures r == "" <==> content == ""
  {
    if content != "" then "   Note: " + content + "\n" else ""
  }

  /** The text for item `n` (counting from 1) of a day. */
  function ItemText(n: nat, r: ItemRow): string {
    NatToString(n) + ". " + StatusMark(r.isDone) + " " + r.title + TagSuffix(r.tags) + "\n" + NoteLine(r.content)
  }

  /** The item lines of a day, numbered from 1. */
  function ItemLines(rows: seq<JoinedRow>): string {
    if rows == [] then ""
    else ItemLines(rows[..|rows| - 1]) + ItemText(|rows|, rows[|rows| - 1].row)
  }

  function DayBlock(g: (string, seq<JoinedRow>)): string {
    DateHeader(g.0) + ItemLines(g.1) + "\n"
  }

  function ExportText(gs: seq<(string, seq<JoinedRow>)>): string {
    if gs == [] then "" else ExportText(gs[..|gs| - 1]) + DayBlock(gs[|gs| - 1])
  }

  predicate HasPrefix(s: string, p: string) {
    |p| <= |s| && s[..|p|] == p
  }

  function InMonth(js: seq<JoinedRow>, prefix: string): seq<JoinedRow> {
    if js == [] then []
    else InMonth(js[..|js| - 1], prefix) + (if HasPrefix(js[|js| - 1].date, prefix) then [js[|js| - 1]] else [])
  }

  lemma {:induction false} InMonthSpec(js: seq<JoinedRow>, prefix: string, j: JoinedRow)
    ensures j in InMonth(js, prefix) <==> j in js && HasPrefix(j.date, prefix)
  {
    if js != [] {
      InMonthSpec(js[..|js| - 1], prefix, j);
      assert js == js[..|js| - 1] + [js[|js| - 1]];
    }
  }

  /** The rows of the month of `date`, newest day first. */
  function MonthRows(logs: seq<DailyLog>, t: seq<ItemRow>, date: string): seq<JoinedRow> {
    SortBy(InMonth(Joined(logs, t), Take(date, 7)), NewestFirst)
  }

  /** The file `export_month_to_txt` writes, as (name, text); nothing when
      the month has no items. */
  function ExportFile(logs: seq<DailyLog>, t: seq<ItemRow>, date: string): Option<(string, string)> {
    var rows := MonthRows(logs, t, date);
    if rows == [] then None
    else Some((ExportName(date), ExportText(Grouped(rows, DateOf))))
  }

  /** The export is written exactly when the month has an item. */
  lemma ExportWrittenIff(logs: seq<DailyLog>, t: seq<ItemRow>, date: string)
    ensures ExportFile(logs, t, date).None? <==>
      forall j :: j in Joined(logs, t) ==> !HasPrefix(j.date, Take(date, 7))
  {
    var prefix := Take(date, 7);
    var m := InMonth(Joined(logs, t), prefix);
    var rows := MonthRows(logs, t, date);
    forall j | j in Joined(logs, t) && HasPrefix(j.date, prefix) ensures rows != [] {
      InMonthSpec(Joined(logs, t), prefix, j);
      assert j in multiset(rows);
    }
    if rows != [] {
      assert rows[0] in multiset(m);
      InMonthSpec(Joined(logs, t), prefix, rows[0]);
    }
  }

  /** The export has one block per day, newest day first. */
  lemma ExportDaysNewestFirst(logs: seq<DailyLog>, t: seq<ItemRow>, date: string)
    ensures var g := Grouped(MonthRows(logs, t, date), DateOf);
      forall i, j :: 0 <= i < j < |g| ==> LexLt(g[j].0, g[i].0)
  {
    var prefix := Take(date, 7);
    var m := InMonth(Joined(logs, t), prefix);
    var rows := MonthRows(logs, t, date);
    NewestFirstIsPreorder();
    SortBySorted(m, NewestFirst);
    var before := (x: string, y: string) => LexLe(y, x);
    KeysFollowOrder(rows, DateOf, before);
    var ks := KeysInOrder(rows, DateOf);
    forall i, j | 0 <= i < j < |ks| ensures LexLt(ks[j], ks[i]) {
      LexLtIsStrict(ks[j], ks[i]);
    }
  }

  /** Every day of the export lies in the month of `date`. */
  lemma ExportDaysInMonth(logs: seq<DailyLog>, t: seq<ItemRow>, date: string)
    ensures var g := Grouped(MonthRows(logs, t, date), DateOf);
      forall i :: 0 <= i < |g| ==> HasPrefix(g[i].0, Take(date, 7))
  {
    var prefix := Take(date, 7);
    var m := InMonth(Joined(logs, t), prefix);
    var rows := MonthRows(logs, t, date);
    var ks := KeysInOrder(rows, DateOf);
    forall i | 0 <= i < |ks| ensures HasPrefix(ks[i], prefix) {
      var k :| 0 <= k < |rows| && DateOf(rows[k]) == ks[i];
      assert rows[k] in multiset(m);
      InMonthSpec(Joined(logs, t), prefix, rows[k]);
    }
  }

  /** Every item of the month is listed exactly once. */
  lemma ExportCoversMonth(logs: seq<DailyLog>, t: seq<ItemRow>, date: string)
    ensures TotalSize(Grouped(MonthRows(logs, t, date), DateOf)) == |InMonth(Joined(logs, t), Take(date, 7))|
  {
    GroupedSize(MonthRows(logs, t, date), DateOf);
  }

  /** The item lines of one day, as the inner loop writes them. */
  method WriteItems(dayRows: seq<JoinedRow>) returns (text: string)
    ensures text == ItemLines(dayRows)
  {
    text := "";
    for n := 0 to |dayRows|
      invariant text == ItemLines(dayRows[..n])
    {
      var item := dayRows[n].row;
      var status := if item.isDone then "[v]" else "[ ]";
      var tagStr := if Truthy(item.tags) then " (#" + item.tags.value + ")" else "";
      var line := NatToString(n + 1) + ". " + status + " " + item.title + tagStr + "\n";
      if item.content != "" {
        line := line + "   Note: " + item.content + "\n";
      }
      assert line == ItemText(n + 1, item);
      assert dayRows[..n + 1][..n] == dayRows[..n];
      text := text + line;
    }
    assert dayRows[..|dayRows|] == dayRows;
  }

  /** The day blocks, as the outer loop writes them. */
  method WriteDays(groups: seq<(string, seq<JoinedRow>)>) returns (text: string)
    ensures text == ExportText(groups)
  {
    text := "";
    for i := 0 to |groups|
      invariant text == ExportText(groups[..i])
    {
      var d := groups[i].0;
      var header := Rule() + "\nDATE: " + d + "\n" + Rule() + "\n";
      var lines := WriteItems(groups[i].1);
      assert header + lines + "\n" == DayBlock(groups[i]);
      assert groups[..i + 1][..i] == groups[..i];
      text := text + (header + lines + "\n");
    }
    assert groups[..|groups|] == groups;
  }

  // ---------------------------------------------------------------------
  // The tables
  // ---------------------------------------------------------------------

  class LogDb {
    var logs: seq<DailyLog>
    var nextLogId: nat
    var items: seq<ItemRow>

    ghost predicate Valid()
      reads this
    {
      LogsValid(logs, nextLogId) && UniqueItemIds(items)
    }

    constructor()
      ensures Valid() && logs == [] && items == []
    {
      logs := [];
      nextLogId := 1;
      items := [];
    }

    /** `INSERT OR IGNORE INTO daily_logs` followed by the id lookup: the
        day has exactly one log row afterwards. */
    method EnsureLog(date: string) returns (logId: nat)
      requires Valid()
      modifies this
      ensures Valid()
      ensures FindLog(logs, date) == Some(logId)
      ensures old(FindLog(logs, date)).Some? ==> logs == old(logs) && logId == old(FindLog(logs, date)).value
      ensures old(FindLog(logs, date)).None? ==> logs == old(logs) + [DailyLog(logId, date)]
      ensures forall k :: 0 <= k < |logs| && logs[k].date == date ==> logs[k].id == logId
      ensures items == old(items)
    {
      var found := FindLog(logs, date);
      if found.Some? {
        logId := found.value;
        assert DailyLog(logId, date) in logs;
      } else {
        logId := nextLogId;
        logs := logs + [DailyLog(logId, date)];
        nextLogId := nextLogId + 1;
        FindLogAppend(old(logs), DailyLog(logId, date));
      }
    }

    /** `/save-log` as the handler is written: the day's log row exists
        afterwards and `log_items` is reconciled with the request. */
    method SaveLog(date: string, req: seq<TodoItem>, uuids: nat -> string) returns (logId: nat, file: Option<(string, string)>)
      requires Valid()
      modifies this
      ensures Valid()
      ensures FindLog(logs, date) == Some(logId)
      ensures old(FindLog(logs, date)).Some? ==> logs == old(logs)
      ensures old(FindLog(logs, date)).None? ==> logs == old(logs) + [DailyLog(logId, date)]
      ensures items == Reconciled(old(items), logId, req, uuids)
      ensures DistinctStored(req, uuids) && (forall x :: x in old(items) && x.logId == logId ==> Truthy(x.itemId)) ==>
        LogView(logs, items, date).items == Echoes(req, uuids)
      ensures file == ExportFile(logs, items, date)
    {
      logId := EnsureLog(date);
      ghost var before := items;
      var rows := RowsFor(req, logId, uuids);
      items := Reconcile(items, logId, req, rows);
      ReconciledKeepsUnique(before, logId, req, rows);
      if DistinctStored(req, uuids) && (forall x :: x in before && x.logId == logId ==> Truthy(x.itemId)) {
        SaveThenGet(logs, before, date, logId, req, uuids);
      }
      file := ExportMonth(date);
    }

    /** `/save-log` with the relation fields the request leaves out taken
        from the stored rows, so that a save of the day list does not
        detach its items from their projects. */
    method SaveLogKeepingLinks(date: string, req: seq<TodoItem>, uuids: nat -> string) returns (logId: nat, file: Option<(string, string)>)
      requires Valid()
      modifies this
      ensures Valid()
      ensures FindLog(logs, date) == Some(logId)
      ensures old(FindLog(logs, date)).Some? ==> logs == old(logs)
      ensures old(FindLog(logs, date)).None? ==> logs == old(logs) + [DailyLog(logId, date)]
      ensures items == ReconciledKeepingLinks(old(items), logId, req, uuids)
      ensures file == ExportFile(logs, items, date)
    {
      logId := EnsureLog(date);
      ghost var before := items;
      var rows := KeptRows(req, logId, uuids, items);
      items := Reconcile(items, logId, req, rows);
      ReconciledKeepsUnique(before, logId, req, rows);
      file := ExportMonth(date);
    }

    /** `export_month_to_txt`: the text is built day block by day block,
        item line by item line. */
    method ExportMonth(date: string) returns (file: Option<(string, string)>)
      ensures file == ExportFile(logs, items, date)
    {
      var rows := MonthRows(logs, items, date);
      if rows == [] {
        return None;
      }
      var groups := GroupInOrder(rows, DateOf);
      var text := WriteDays(groups);
      file := Some((ExportName(date), text));
    }

    /** `/get-all-logs`. */
    method GetAllLogs() returns (days: seq<ArchiveDay>)
      ensures days == Archive(logs, items)
    {
      var rows := SortBy(Joined(logs, items), NewestFirst);
      var groups := GroupInOrder(rows, DateOf);
      days := seq(|groups|, j requires 0 <= j < |groups| => ToArchiveDay(groups[j]));
    }
  }

  lemma FindLogAppend(logs: seq<DailyLog>, l: DailyLog)
    requires FindLog(logs, l.date).None?
    ensures FindLog(logs + [l], l.date) == Some(l.id)
  {
    if logs != [] {
      assert (logs + [l])[1..] == logs[1..] + [l];
      FindLogAppend(logs[1..], l);
    }
  }
}
