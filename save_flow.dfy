/** The day page's save as the server receives it: the payload of
    `saveToBackend` (static/js/app.js) carries no relation fields, so the
    request model gives them their `None` defaults, and `save_log`
    (routers/logs.py) writes those over whatever the row held. This module
    states what that does to the project trees of routers/project.py, and
    what the link-keeping save does instead. */
module SaveFlow {
  import opened Common
  import opened DayLog
  import opened LogStore
  import opened ProjectStore

  /** A payload item parsed by the request model: the relation fields the
      client does not send are `None`. */
  function ToRequest(p: PayloadItem): (r: TodoItem)
    ensures r.itemId == Some(p.itemId)
    ensures r.originId.None? && r.parentId.None? && r.relationType.None?
  {
    TodoItem(Some(p.itemId), p.title, p.content, p.tags, p.isDone, None, None, None)
  }

  function Requests(ps: seq<PayloadItem>): (r: seq<TodoItem>)
    ensures |r| == |ps|
    ensures forall k :: 0 <= k < |ps| ==> r[k] == ToRequest(ps[k])
  {
    seq(|ps|, k requires 0 <= k < |ps| => ToRequest(ps[k]))
  }

  /** As written: after the client saves a day, none of that day's items
      belongs to the tree of any other origin, whatever its row said
      before the save. */
  lemma ClientSaveUnlinks(logs: seq<DailyLog>, t: seq<ItemRow>, logId: nat, ps: seq<PayloadItem>,
                          uuids: nat -> string, k: nat, origin: string)
    requires WellKeyed(Requests(ps)) && k < |ps| && ps[k].itemId != origin
    ensures forall n :: n in ProjectTree(logs, Reconciled(t, logId, Requests(ps), uuids), origin).tree ==>
      n.itemId != Some(ps[k].itemId)
  {
    var req := Requests(ps);
    WellKeyedStored(req, uuids);
    var s := Reconciled(t, logId, req, uuids);
    forall n | n in ProjectTree(logs, s, origin).tree ensures n.itemId != Some(ps[k].itemId) {
      TreeMembers(logs, s, origin, JoinedRow("", ItemRow(None, 0, "", "", false, 0, None, None, None, None)));
      var y :| y in Joined(logs, s) && InFamily(y, origin) && n == ToNode(y);
      JoinedSpec(logs, s, y);
      if y.row.itemId == Some(ps[k].itemId) {
        LinksReplaced(t, logId, req, uuids, k, y.row);
      }
    }
  }

  /** A concrete instance: task "b", logged on the second day as a child of
      "a", is in the tree of "a"; once the second day is saved from the
      page it is not. */
  lemma SaveDropsChild(uuids: nat -> string)
    ensures var logs := [DailyLog(1, "2026-01-05"), DailyLog(2, "2026-01-06")];
            var a := ItemRow(Some("a"), 1, "plan", "", false, 0, Some(""), None, None, None);
            var b := ItemRow(Some("b"), 2, "build", "", false, 0, Some(""), Some("a"), Some("a"), Some("inherit"));
            var ps := [PayloadItem("b", "build", "", "", false)];
            && (exists n :: n in ProjectTree(logs, [a, b], "a").tree && n.itemId == Some("b"))
            && (forall n :: n in ProjectTree(logs, Reconciled([a, b], 2, Requests(ps), uuids), "a").tree ==>
                  n.itemId != Some("b"))
  {
    var logs := [DailyLog(1, "2026-01-05"), DailyLog(2, "2026-01-06")];
    var a := ItemRow(Some("a"), 1, "plan", "", false, 0, Some(""), None, None, None);
    var b := ItemRow(Some("b"), 2, "build", "", false, 0, Some(""), Some("a"), Some("a"), Some("inherit"));
    var ps := [PayloadItem("b", "build", "", "", false)];
    var j := JoinedRow("2026-01-06", b);
    assert DateOfLog(logs, 2) == Some("2026-01-06");
    JoinedSpec(logs, [a, b], j);
    TreeMembers(logs, [a, b], "a", j);
    assert ToNode(j).itemId == Some("b");
    ClientSaveUnlinks(logs, [a, b], 2, ps, uuids, 0, "a");
  }

  /** Corrected: with the link-keeping save, an item that was in the tree of
      `origin` is still there after its day is saved from the page. */
  lemma ClientSaveKeepsTree(logs: seq<DailyLog>, t: seq<ItemRow>, logId: nat, date: string, ps: seq<PayloadItem>,
                            uuids: nat -> string, k: nat, p: ItemRow, origin: string)
    requires WellKeyed(Requests(ps)) && UniqueItemIds(t) && k < |ps|
    requires DateOfLog(logs, logId) == Some(date)
    requires p in t && p.itemId == Some(ps[k].itemId) && (p.originId == Some(origin) || ps[k].itemId == origin)
    ensures exists n :: (n in ProjectTree(logs, ReconciledKeepingLinks(t, logId, Requests(ps), uuids), origin).tree &&
                         n.itemId == Some(ps[k].itemId))
  {
    var req := Requests(ps);
    WellKeyedStored(req, uuids);
    var rows := KeptRows(req, logId, uuids, t);
    var base := Without(t, ExistingIds(t, logId) - IncomingIds(req));
    UpsertAllDistinct(base, rows);
    var s := ReconciledKeepingLinks(t, logId, req, uuids);
    var x := rows[k];
    assert x in s;
    LinksKept(t, logId, req, uuids, k, p, x);
    var j := JoinedRow(date, x);
    JoinedSpec(logs, s, j);
    TreeMembers(logs, s, origin, j);
  }

  /** A save of the day with no cards, as the stale timer of
      `DayLog.TimerDuringLoad` posts it: every item of that day is deleted,
      and a reload shows the day empty. */
  lemma EmptySaveErasesDay(logs: seq<DailyLog>, t: seq<ItemRow>, date: string, logId: nat, uuids: nat -> string)
    requires FindLog(logs, date) == Some(logId)
    requires forall x :: x in t && x.logId == logId ==> Truthy(x.itemId)
    ensures ItemsOf(Reconciled(t, logId, Requests([]), uuids), logId) == []
    ensures LogView(logs, Reconciled(t, logId, Requests([]), uuids), date).items == []
  {
    SavedLogIsRequest(t, logId, Requests([]), uuids);
  }
}
