/** The project-map modal of static/js/project_map.js as a state machine:
    opening and closing it, rendering a tree response, drag-and-drop
    between trays (including the `TEMP_NEW` ghost that creates a
    milestone) and deleting a milestone. Backend calls are returned as
    `Request` values; their outcomes are parameters. */
module ProjectMapSession {
  import opened Common
  import opened Sorting
  import opened ProjectMap

  datatype Request =
    | FetchTree(origin: string)
    | CreateMilestone(originRef: Option<string>, title: string, date: string)
    | UpdateRelation(itemId: string, targetParent: Option<string>, relationType: string)
    | DeleteItem(itemId: string)

  /** What `GET /project/tree/{origin}` gave back. */
  datatype TreeResponse =
    | Success(tree: seq<TreeItem>)
    | NotSuccess          // a body whose status is not "success"
    | Unreachable         // fetch or JSON decoding threw

  /** The content of the ghost tray's list. */
  datatype GhostList = DropZone | Evolving

  datatype Canvas =
    | Blank
    | Decoding
    | LoadFailed
    | ConnectionError
    | Drawn(trays: seq<Tray>, ghostList: GhostList)

  /** Title, origin date and day count printed above the canvas. */
  datatype MapHeader = MapHeader(title: string, originDate: string, days: nat)

  /** What `apiCreateMilestone` resolved to. */
  datatype CreateOutcome =
    | CreatedId(id: string)   // status "success" with this item_id
    | NotCreated              // any other status: resolves to null
    | CreateFailed            // HTTP 405 or a network error: throws

  /** A Sortable `onEnd` event. Lists are named by tray position; position
      `|trays|` is the ghost list. */
  datatype DropEvent = DropEvent(from: nat, oldIndex: nat, to: nat, newIndex: nat)

  // ---------------------------------------------------------------------
  // The header above the map
  // ---------------------------------------------------------------------

  /** `treeData.find(i => i.item_id === origin)`. */
  function FindById(tree: seq<TreeItem>, id: string): (r: Option<TreeItem>)
    ensures r.Some? ==> r.value in tree && r.value.itemId == id
    ensures r.None? ==> forall x :: x in tree ==> x.itemId != id
  {
    if tree == [] then None
    else if tree[0].itemId == id then Some(tree[0])
    else FindById(tree[1..], id)
  }

  /** A text longer than every given id. The render after `closeProjectMap`
      compares item ids with a `null` origin, which no id equals; this text
      stands in for that origin. */
  function Unmatched(ids: seq<string>): (r: string)
    ensures forall id :: id in ids ==> |id| < |r|
  {
    if ids == [] then ""
    else
      var r := Unmatched(ids[1..]);
      if |ids[0]| < |r| then r else ids[0] + "?"
  }

  /** `new Set(treeData.map(i => i.date))`. */
  function DatesOf(tree: seq<TreeItem>): (ds: set<string>)
    ensures forall d :: d in ds <==> exists x :: x in tree && x.date == d
  {
    if tree == [] then {}
    else
      var init := tree[..|tree| - 1];
      assert tree == init + [tree[|tree| - 1]];
      DatesOf(init) + {tree[|tree| - 1].date}
  }

  function HeaderOf(tree: seq<TreeItem>, origin: string): MapHeader
    requires |tree| > 0
  {
    var root := match FindById(tree, origin)
      case Some(x) => x
      case None => tree[0];
    MapHeader(root.title, root.date, |DatesOf(tree)|)
  }

  /** The day count is at least one and at most the number of items, and
      the header names the origin item when the tree holds it. */
  lemma {:induction false} HeaderFacts(tree: seq<TreeItem>, origin: string)
    requires |tree| > 0
    ensures 1 <= HeaderOf(tree, origin).days <= |tree|
    ensures forall x :: x in tree && x.itemId == origin ==>
      exists y :: y in tree && y.itemId == origin && HeaderOf(tree, origin).title == y.title
  {
    DatesBound(tree);
    assert tree[0].date in DatesOf(tree);
  }

  lemma {:induction false} DatesBound(tree: seq<TreeItem>)
    ensures |DatesOf(tree)| <= |tree|
  {
    if tree != [] {
      DatesBound(tree[..|tree| - 1]);
    }
  }

  // ---------------------------------------------------------------------
  // Drag-and-drop
  // ---------------------------------------------------------------------

  function RemoveAt<T>(s: seq<T>, i: nat): (r: seq<T>)
    requires i < |s|
    ensures |r| == |s| - 1
    ensures multiset(r) == multiset(s) - multiset{s[i]}
  {
    assert s == s[..i] + [s[i]] + s[i + 1..];
    s[..i] + s[i + 1..]
  }

  function InsertAt<T>(s: seq<T>, i: nat, x: T): (r: seq<T>)
    requires i <= |s|
    ensures |r| == |s| + 1 && r[i] == x
    ensures multiset(r) == multiset(s) + multiset{x}
  {
    assert s == s[..i] + s[i..];
    s[..i] + [x] + s[i..]
  }

  /** A well-formed event on the trays: it starts on a task of a real tray
      and ends in a real tray or in the ghost list. */
  predicate ValidDrop(trays: seq<Tray>, ev: DropEvent) {
    && ev.from < |trays|
    && ev.oldIndex < |trays[ev.from].tasks|
    && ev.to <= |trays|
    && (ev.to < |trays| ==>
          ev.newIndex <= |trays[ev.to].tasks| - (if ev.to == ev.from then 1 else 0))
  }

  /** With a `null` origin the render heads its trays with the `evolve`
      and `root` items only, no tray reads GENESIS and the header falls
      back to the first item. */
  lemma NullOriginRender(tree: seq<TreeItem>)
    ensures var o := Unmatched(Ids(tree));
      var ms := Milestones(tree, o);
      var trays := RenderTrays(ms, o);
      && (forall m :: m in ms ==> m.item.relationType == EVOLVE || m.item.relationType == ROOT)
      && (forall i :: 0 <= i < |trays| ==> trays[i].badge != Genesis)
      && (|tree| > 0 ==> HeaderOf(tree, o).title == tree[0].title && HeaderOf(tree, o).originDate == tree[0].date)
  {
    var o := Unmatched(Ids(tree));
    forall x | x in tree ensures x.itemId != o {
      var i :| 0 <= i < |tree| && tree[i] == x;
      assert Ids(tree)[i] == x.itemId;
    }
    HeadsSpec(tree, o);
    var ms := Milestones(tree, o);
    forall m | m in ms ensures m.item in tree && m.item.itemId != o {
      var k :| 0 <= k < |ms| && ms[k] == m;
      assert m.item == Heads(tree, o)[k];
    }
    GenesisPresent(ms, o);
  }

  /** `onEnd` reads the target list's `data-parent-id` as `newParentId`:
      the ghost list carries `TEMP_NEW`, a tray's list its milestone id.
      Unless some milestone id is itself `TEMP_NEW`, the test
      `newParentId === 'TEMP_NEW'` picks out exactly the ghost list, which
      `MapSession.OnEnd` names by its position `|trays|`. */
  lemma GhostTargetIsCreate(trays: seq<Tray>, ev: DropEvent)
    requires ValidDrop(trays, ev)
    requires forall i :: 0 <= i < |trays| ==> trays[i].milestoneId != TEMP_NEW
    ensures DropTargets(trays)[ev.to] == TEMP_NEW <==> ev.to == |trays|
    ensures ev.to < |trays| ==> DropTargets(trays)[ev.to] == trays[ev.to].milestoneId
  {
  }

  function Dragged(trays: seq<Tray>, ev: DropEvent): TreeItem
    requires ValidDrop(trays, ev)
  {
    trays[ev.from].tasks[ev.oldIndex]
  }

  /** The tray the dragged task left, without it. */
  function Lifted(trays: seq<Tray>, ev: DropEvent): seq<Tray>
    requires ValidDrop(trays, ev)
  {
    trays[ev.from := trays[ev.from].(tasks := RemoveAt(trays[ev.from].tasks, ev.oldIndex))]
  }

  /** What Sortable has done to the lists before `onEnd` runs. */
  function Moved(trays: seq<Tray>, ev: DropEvent): (r: seq<Tray>)
    requires ValidDrop(trays, ev) && ev.to < |trays|
    ensures |r| == |trays|
  {
    var lifted := Lifted(trays, ev);
    lifted[ev.to := lifted[ev.to].(tasks := InsertAt(lifted[ev.to].tasks, ev.newIndex, Dragged(trays, ev)))]
  }

  /** `updateTrayHeaderDate` on one tray. */
  function Refresh(t: Tray): (r: Tray)
    ensures r.tasks == t.tasks && r.milestoneId == t.milestoneId && r.baseDate == t.baseDate
    ensures r.amber <==> LexLt(r.shownDate, r.baseDate)
    ensures LexLe(r.shownDate, r.baseDate)
  {
    var h := HeaderDate(t.baseDate, t.tasks);
    t.(shownDate := h.0, amber := h.1)
  }

  /** `sortListByDate` on the target list, then the header refreshes. */
  function Settle(trays: seq<Tray>, from: nat, to: nat): (r: seq<Tray>)
    requires from < |trays| && to < |trays|
    ensures |r| == |trays|
  {
    var sorted := trays[to := Refresh(trays[to].(tasks := SortBy(trays[to].tasks, TaskDateLe)))];
    if from != to then sorted[from := Refresh(sorted[from])] else sorted
  }

  /** Every task on the map, tray after tray. */
  function AllTasks(trays: seq<Tray>): seq<TreeItem> {
    if trays == [] then [] else AllTasks(trays[..|trays| - 1]) + trays[|trays| - 1].tasks
  }

  /** Replacing one tray changes the count of `z` over the whole map by
      the change in that tray. */
  lemma {:induction false} AllTasksUpdate(trays: seq<Tray>, k: nat, t: Tray, z: TreeItem)
    requires k < |trays|
    ensures multiset(AllTasks(trays[k := t]))[z] + multiset(trays[k].tasks)[z] ==
      multiset(AllTasks(trays))[z] + multiset(t.tasks)[z]
  {
    var n := |trays| - 1;
    var u := trays[k := t];
    assert AllTasks(u) == AllTasks(u[..n]) + u[n].tasks;
    assert AllTasks(trays) == AllTasks(trays[..n]) + trays[n].tasks;
    if k == n {
      assert u[..n] == trays[..n];
    } else {
      assert u[..n] == trays[..n][k := t];
      AllTasksUpdate(trays[..n], k, t, z);
    }
  }

  lemma MovedKeepsTasks(trays: seq<Tray>, ev: DropEvent)
    requires ValidDrop(trays, ev) && ev.to < |trays|
    ensures multiset(AllTasks(Moved(trays, ev))) == multiset(AllTasks(trays))
  {
    var x := Dragged(trays, ev);
    var lifted := Lifted(trays, ev);
    var moved := Moved(trays, ev);
    assert x in multiset(trays[ev.from].tasks);
    forall z ensures multiset(AllTasks(moved))[z] == multiset(AllTasks(trays))[z] {
      AllTasksUpdate(trays, ev.from, lifted[ev.from], z);
      AllTasksUpdate(lifted, ev.to, moved[ev.to], z);
    }
  }

  lemma SettleKeepsTasks(trays: seq<Tray>, from: nat, to: nat)
    requires from < |trays| && to < |trays|
    ensures multiset(AllTasks(Settle(trays, from, to))) == multiset(AllTasks(trays))
  {
    var t := trays[to];
    var sorted := trays[to := Refresh(t.(tasks := SortBy(t.tasks, TaskDateLe)))];
    var r := Settle(trays, from, to);
    forall z ensures multiset(AllTasks(r))[z] == multiset(AllTasks(trays))[z] {
      AllTasksUpdate(trays, to, sorted[to], z);
      if from != to {
        AllTasksUpdate(sorted, from, Refresh(sorted[from]), z);
      }
    }
  }

  /** A drop between real trays neither loses nor duplicates a task. */
  lemma DropKeepsTasks(trays: seq<Tray>, ev: DropEvent)
    requires ValidDrop(trays, ev) && ev.to < |trays|
    ensures multiset(AllTasks(Moved(trays, ev))) == multiset(AllTasks(trays))
    ensures multiset(AllTasks(Settle(Moved(trays, ev), ev.from, ev.to))) == multiset(AllTasks(trays))
  {
    MovedKeepsTasks(trays, ev);
    SettleKeepsTasks(Moved(trays, ev), ev.from, ev.to);
  }

  /** After a drop into a real tray, that tray holds the task, its list is
      in date order, both touched headers show their earliest date (amber
      when earlier than the base date) and no other tray changed. */
  lemma DropSettles(trays: seq<Tray>, ev: DropEvent)
    requires ValidDrop(trays, ev) && ev.to < |trays|
    ensures var r := Settle(Moved(trays, ev), ev.from, ev.to);
      && Dragged(trays, ev) in r[ev.to].tasks
      && SortedBy(r[ev.to].tasks, TaskDateLe)
      && r[ev.to].milestoneId == trays[ev.to].milestoneId
      && (r[ev.to].shownDate, r[ev.to].amber) == HeaderDate(r[ev.to].baseDate, r[ev.to].tasks)
      && (r[ev.from].shownDate, r[ev.from].amber) == HeaderDate(r[ev.from].baseDate, r[ev.from].tasks)
      && forall k :: 0 <= k < |trays| && k != ev.from && k != ev.to ==> r[k] == trays[k]
  {
    var moved := Moved(trays, ev);
    TaskDateLeIsPreorder();
    SortBySorted(moved[ev.to].tasks, TaskDateLe);
    assert Dragged(trays, ev) in multiset(moved[ev.to].tasks);
  }

  // ---------------------------------------------------------------------
  // Deleting a milestone
  // ---------------------------------------------------------------------

  /** `document.getElementById('tray-' + id)`: the first tray with that id. */
  function FindTray(trays: seq<Tray>, id: string): (r: Option<nat>)
    ensures r.Some? ==> r.value < |trays| && trays[r.value].milestoneId == id
    ensures r.None? ==> forall k :: 0 <= k < |trays| ==> trays[k].milestoneId != id
  {
    if trays == [] then None
    else if trays[0].milestoneId == id then Some(0)
    else match FindTray(trays[1..], id)
      case None => None
      case Some(k) => Some(k + 1)
  }

  function TaskIds(tasks: seq<TreeItem>): seq<string> {
    seq(|tasks|, i requires 0 <= i < |tasks| => tasks[i].itemId)
  }

  // ---------------------------------------------------------------------
  // The session
  // ---------------------------------------------------------------------

  class MapSession {
    var originId: Option<string>   // currentMapOriginId
    var modalOpen: bool
    var canvas: Canvas
    var header: Option<MapHeader>

    constructor()
      ensures originId == None && !modalOpen && canvas == Blank && header == None
    {
      originId := None;
      modalOpen := false;
      canvas := Blank;
      header := None;
    }

    /** `openProjectMap`: a missing id, "" or the text "null" only alerts;
        otherwise the modal opens on the spinner and the tree is fetched. */
    method Open(requested: Option<string>) returns (alerted: bool, reqs: seq<Request>)
      modifies this
      ensures var refused := requested.None? || requested.value == "" || requested.value == "null";
        && alerted == refused
        && (refused ==> reqs == [] && unchanged(this))
        && (!refused ==>
              && reqs == [FetchTree(requested.value)]
              && originId == requested && modalOpen && canvas == Decoding
              && header == old(header))
    {
      if requested.None? || requested.value == "" || requested.value == "null" {
        return true, [];
      }
      originId := requested;
      modalOpen := true;
      canvas := Decoding;
      return false, [FetchTree(requested.value)];
    }

    /** The fetched tree arrives and `renderProjectMap` runs. The header is
        only rewritten for a non-empty tree. When the modal was closed
        during the fetch the origin is `null`; the render then matches no
        item as the origin (`Unmatched`, see `NullOriginRender`). */
    method Deliver(response: TreeResponse)
      requires response.Success? ==> Distinct(Ids(response.tree))
      modifies this
      ensures originId == old(originId) && modalOpen == old(modalOpen)
      ensures response.NotSuccess? ==> canvas == LoadFailed && header == old(header)
      ensures response.Unreachable? ==> canvas == ConnectionError && header == old(header)
      ensures response.Success? ==>
        var o := if originId.Some? then originId.value else Unmatched(Ids(response.tree));
        && canvas == Drawn(RenderTrays(Milestones(response.tree, o), o), DropZone)
        && header == (if |response.tree| > 0 then Some(HeaderOf(response.tree, o)) else old(header))
    {
      match response {
        case NotSuccess =>
          canvas := LoadFailed;
        case Unreachable =>
          canvas := ConnectionError;
        case Success(tree) =>
          var o := if originId.Some? then originId.value else Unmatched(Ids(tree));
          if |tree| > 0 {
            header := Some(HeaderOf(tree, o));
          }
          var ms := GroupMilestones(tree, o);
          canvas := Drawn(RenderTrays(ms, o), DropZone);
      }
    }

    /** `closeProjectMap`. */
    method Close()
      modifies this
      ensures !modalOpen && originId == None
      ensures canvas == old(canvas) && header == old(header)
    {
      modalOpen := false;
      originId := None;
    }

    /** Sortable's `onEnd`. `create` is what `apiCreateMilestone` gives,
        `relationOk` whether `updateRelation` reached the server, `today`
        the client's local date. `reload` asks for `openProjectMap` again. */
    method OnEnd(ev: DropEvent, create: CreateOutcome, relationOk: bool, today: string)
      returns (reqs: seq<Request>, alerted: bool, reload: bool)
      requires canvas.Drawn? && ValidDrop(canvas.trays, ev)
      modifies this
      ensures originId == old(originId) && modalOpen == old(modalOpen) && header == old(header)
      ensures var trays := old(canvas.trays);
        var x := Dragged(trays, ev);
        if ev.from == ev.to && ev.oldIndex == ev.newIndex then
          reqs == [] && !alerted && !reload && canvas == old(canvas)
        else if ev.to == |trays| then
          && canvas == Drawn(Lifted(trays, ev), Evolving)
          && |reqs| >= 1 && reqs[0] == CreateMilestone(originId, "Evolution Node", today)
          && (match create
               case CreatedId(id) =>
                 if id != "" then
                   reqs == [reqs[0], UpdateRelation(x.itemId, Some(id), INHERIT)]
                   && reload && alerted == !relationOk
                 else |reqs| == 1 && !reload && !alerted
               case NotCreated => |reqs| == 1 && !reload && !alerted
               case CreateFailed => |reqs| == 1 && reload && alerted)
        else
          var patch := trays[ev.to].milestoneId != "" && x.itemId != "";
          && !alerted && !reload
          && reqs == (if patch then [UpdateRelation(x.itemId, Some(trays[ev.to].milestoneId), INHERIT)] else [])
          && canvas == Drawn(if patch && !relationOk then Moved(trays, ev)
                           else Settle(Moved(trays, ev), ev.from, ev.to),
                           old(canvas.ghostList))
    {
      var trays := canvas.trays;
      var x := Dragged(trays, ev);
      reqs, alerted, reload := [], false, false;
      if ev.from == ev.to && ev.oldIndex == ev.newIndex {
        return;
      }
      if ev.to == |trays| {
        canvas := Drawn(Lifted(trays, ev), Evolving);
        reqs := [CreateMilestone(originId, "Evolution Node", today)];
        match create {
          case CreatedId(id) =>
            if id != "" {
              reqs := reqs + [UpdateRelation(x.itemId, Some(id), INHERIT)];
              alerted := !relationOk;
              reload := true;
            }
          case NotCreated =>
          case CreateFailed =>
            alerted, reload := true, true;
        }
        return;
      }
      var moved := Moved(trays, ev);
      var newParentId := trays[ev.to].milestoneId;
      canvas := Drawn(moved, canvas.ghostList);
      if newParentId != "" && x.itemId != "" {
        reqs := [UpdateRelation(x.itemId, Some(newParentId), INHERIT)];
        if !relationOk {
          return;
        }
      }
      canvas := Drawn(Settle(moved, ev.from, ev.to), canvas.ghostList);
    }

    /** `deleteMilestone`: after confirmation every task of the tray is
        moved to the origin as `inherit` (all requests issued together),
        then the milestone itself is deleted and the map reloads. A failed
        move alerts and stops before the deletion; `movesOk` is only
        consulted when there is a move, since `Promise.all([])` cannot
        reject. */
    method DeleteMilestone(milestoneId: string, confirmed: bool, movesOk: bool, deleteOk: bool)
      returns (reqs: seq<Request>, alerted: bool, reload: bool)
      ensures !confirmed ==> reqs == [] && !alerted && !reload
      ensures confirmed ==>
        var children :=
          if canvas.Drawn? && FindTray(canvas.trays, milestoneId).Some?
          then TaskIds(canvas.trays[FindTray(canvas.trays, milestoneId).value].tasks) else [];
        var moved := movesOk || children == [];
        && |reqs| == |children| + (if moved then 1 else 0)
        && (forall k :: 0 <= k < |children| ==> reqs[k] == UpdateRelation(children[k], originId, INHERIT))
        && (moved ==> reqs[|reqs| - 1] == DeleteItem(milestoneId))
        && reload == (moved && deleteOk)
        && alerted == !reload
    {
      if !confirmed {
        return [], false, false;
      }
      reqs := [];
      if canvas.Drawn? {
        var found := FindTray(canvas.trays, milestoneId);
        if found.Some? {
          var tasks := canvas.trays[found.value].tasks;
          for i := 0 to |tasks|
            invariant |reqs| == i
            invariant forall k :: 0 <= k < i ==> reqs[k] == UpdateRelation(tasks[k].itemId, originId, INHERIT)
          {
            reqs := reqs + [UpdateRelation(tasks[i].itemId, originId, INHERIT)];
          }
        }
      }
      if !movesOk && reqs != [] {
        return reqs, true, false;
      }
      reqs := reqs + [DeleteItem(milestoneId)];
      reload := deleteOk;
      alerted := !deleteOk;
    }
  }
}
