/** The project-map reconciler of static/js/project_map.js: it turns the
    flat list returned by `GET /project/tree/{origin}` into milestone trays
    ordered by date, each holding its tasks ordered by date, labels every
    tray with GENESIS or a star rank, computes the date shown on each tray
    and appends the `TEMP_NEW` drop target. */
module ProjectMap {
  import opened Common
  import opened Sorting

  const EVOLVE := "evolve"
  const ROOT := "root"
  const INHERIT := "inherit"
  const TEMP_NEW := "TEMP_NEW"

  /** One row of the tree response. */
  datatype TreeItem = TreeItem(
    itemId: string,
    title: string,
    date: string,
    isDone: bool,
    tags: Option<string>,
    parentId: Option<string>,
    relationType: string)

  datatype Milestone = Milestone(item: TreeItem, children: seq<TreeItem>)

  function MilestoneId(m: Milestone): string {
    m.item.itemId
  }

  function Ids(xs: seq<TreeItem>): seq<string> {
    seq(|xs|, i requires 0 <= i < |xs| => xs[i].itemId)
  }

  /** An item heads a tray when it evolves, is a root or is the origin. */
  predicate IsMilestone(x: TreeItem, origin: string) {
    x.relationType == EVOLVE || x.relationType == ROOT || x.itemId == origin
  }

  /** `parentId && parentId === m`: a null or empty parent names nothing. */
  predicate ParentIs(x: TreeItem, m: string) {
    x.parentId == Some(m) && m != ""
  }

  /** The ids of the milestone items of the tree. */
  function MilestoneIdSet(tree: seq<TreeItem>, origin: string): set<string> {
    set x | x in tree && IsMilestone(x, origin) :: x.itemId
  }

  /** Not attached anywhere by its parent and not a tray head itself. */
  predicate IsOrphan(x: TreeItem, ids: set<string>) {
    !(x.parentId.Some? && x.parentId.value != "" && x.parentId.value in ids)
    && x.relationType != EVOLVE && x.relationType != ROOT
  }

  // Filters over the tree, written from the back as the loops build them.

  function Heads(xs: seq<TreeItem>, origin: string): seq<TreeItem> {
    if xs == [] then []
    else
      var last := xs[|xs| - 1];
      Heads(xs[..|xs| - 1], origin) + (if IsMilestone(last, origin) then [last] else [])
  }

  function AttachedTo(xs: seq<TreeItem>, origin: string, m: string): seq<TreeItem> {
    if xs == [] then []
    else
      var last := xs[|xs| - 1];
      AttachedTo(xs[..|xs| - 1], origin, m)
        + (if last.itemId != origin && ParentIs(last, m) then [last] else [])
  }

  function OrphansOf(xs: seq<TreeItem>, origin: string, ids: set<string>): seq<TreeItem> {
    if xs == [] then []
    else
      var last := xs[|xs| - 1];
      OrphansOf(xs[..|xs| - 1], origin, ids)
        + (if last.itemId != origin && IsOrphan(last, ids) then [last] else [])
  }

  /** The children the map gives milestone `m`, before sorting: the items
      naming it as parent, and for the origin also every orphan. */
  function ChildrenOf(tree: seq<TreeItem>, origin: string, m: string): seq<TreeItem> {
    AttachedTo(tree, origin, m)
      + (if m == origin then OrphansOf(tree, origin, MilestoneIdSet(tree, origin)) else [])
  }

  /** The milestone map in insertion order, before sorting. */
  function Milestones(tree: seq<TreeItem>, origin: string): seq<Milestone> {
    var heads := Heads(tree, origin);
    seq(|heads|, k requires 0 <= k < |heads| => Milestone(heads[k], ChildrenOf(tree, origin, heads[k].itemId)))
  }

  // ---------------------------------------------------------------------
  // Facts about the filters
  // ---------------------------------------------------------------------

  lemma {:induction false} HeadsSpec(xs: seq<TreeItem>, origin: string)
    ensures forall x :: x in Heads(xs, origin) <==> x in xs && IsMilestone(x, origin)
  {
    if xs != [] {
      assert xs == xs[..|xs| - 1] + [xs[|xs| - 1]];
      HeadsSpec(xs[..|xs| - 1], origin);
    }
  }

  lemma {:induction false} AttachedToSpec(xs: seq<TreeItem>, origin: string, m: string)
    ensures forall x :: x in AttachedTo(xs, origin, m) <==> x in xs && x.itemId != origin && ParentIs(x, m)
  {
    if xs != [] {
      assert xs == xs[..|xs| - 1] + [xs[|xs| - 1]];
      AttachedToSpec(xs[..|xs| - 1], origin, m);
    }
  }

  lemma {:induction false} OrphansOfSpec(xs: seq<TreeItem>, origin: string, ids: set<string>)
    ensures forall x :: x in OrphansOf(xs, origin, ids) <==> x in xs && x.itemId != origin && IsOrphan(x, ids)
  {
    if xs != [] {
      assert xs == xs[..|xs| - 1] + [xs[|xs| - 1]];
      OrphansOfSpec(xs[..|xs| - 1], origin, ids);
    }
  }

  /** Where an item goes: it is a child of milestone `m` exactly when it is
      not the origin and either names `m` as its parent or is an orphan and
      `m` is the origin. The origin item is never anybody's child. */
  lemma ChildrenOfSpec(tree: seq<TreeItem>, origin: string, m: string, x: TreeItem)
    ensures x in ChildrenOf(tree, origin, m) <==>
      x in tree && x.itemId != origin
      && (ParentIs(x, m) || (m == origin && IsOrphan(x, MilestoneIdSet(tree, origin))))
  {
    AttachedToSpec(tree, origin, m);
    OrphansOfSpec(tree, origin, MilestoneIdSet(tree, origin));
  }

  /** An item is the child of at most one milestone. */
  lemma ChildOfOneMilestone(tree: seq<TreeItem>, origin: string, m1: string, m2: string, x: TreeItem)
    requires m1 in MilestoneIdSet(tree, origin) && m2 in MilestoneIdSet(tree, origin)
    requires x in ChildrenOf(tree, origin, m1) && x in ChildrenOf(tree, origin, m2)
    ensures m1 == m2
  {
    ChildrenOfSpec(tree, origin, m1, x);
    ChildrenOfSpec(tree, origin, m2, x);
  }

  /** Nothing is dropped: when the origin heads a tray, every item of the
      tree either heads a tray or is the child of one. */
  lemma NothingDropped(tree: seq<TreeItem>, origin: string, x: TreeItem)
    requires origin in MilestoneIdSet(tree, origin)
    requires x in tree
    ensures IsMilestone(x, origin)
      || exists m :: m in MilestoneIdSet(tree, origin) && x in ChildrenOf(tree, origin, m)
  {
    if !IsMilestone(x, origin) {
      var ids := MilestoneIdSet(tree, origin);
      if x.parentId.Some? && x.parentId.value != "" && x.parentId.value in ids {
        ChildrenOfSpec(tree, origin, x.parentId.value, x);
      } else {
        ChildrenOfSpec(tree, origin, origin, x);
      }
    }
  }

  /** Without an origin tray, orphans are not shown: a child always names
      its milestone as parent. */
  lemma NoOriginNoOrphans(tree: seq<TreeItem>, origin: string, m: string, x: TreeItem)
    requires origin !in MilestoneIdSet(tree, origin)
    requires m in MilestoneIdSet(tree, origin)
    requires x in ChildrenOf(tree, origin, m)
    ensures ParentIs(x, m)
  {
    ChildrenOfSpec(tree, origin, m, x);
  }

  // ---------------------------------------------------------------------
  // Building the milestone map (the two forEach loops and the orphan push)
  // ---------------------------------------------------------------------

  lemma HeadsStep(xs: seq<TreeItem>, origin: string, i: nat)
    requires i < |xs|
    ensures Heads(xs[..i + 1], origin) ==
      Heads(xs[..i], origin) + (if IsMilestone(xs[i], origin) then [xs[i]] else [])
  {
    assert xs[..i + 1][..i] == xs[..i];
  }

  lemma AttachedStep(xs: seq<TreeItem>, origin: string, m: string, i: nat)
    requires i < |xs|
    ensures AttachedTo(xs[..i + 1], origin, m) ==
      AttachedTo(xs[..i], origin, m) + (if xs[i].itemId != origin && ParentIs(xs[i], m) then [xs[i]] else [])
  {
    assert xs[..i + 1][..i] == xs[..i];
  }

  lemma OrphansStep(xs: seq<TreeItem>, origin: string, ids: set<string>, i: nat)
    requires i < |xs|
    ensures OrphansOf(xs[..i + 1], origin, ids) ==
      OrphansOf(xs[..i], origin, ids) + (if xs[i].itemId != origin && IsOrphan(xs[i], ids) then [xs[i]] else [])
  {
    assert xs[..i + 1][..i] == xs[..i];
  }

  lemma FreshId(tree: seq<TreeItem>, i: nat)
    requires Distinct(Ids(tree)) && i < |tree|
    ensures forall y :: y in tree[..i] ==> y.itemId != tree[i].itemId
  {
    forall y | y in tree[..i] ensures y.itemId != tree[i].itemId {
      var j :| 0 <= j < i && tree[..i][j] == y;
      assert Ids(tree)[j] != Ids(tree)[i];
    }
  }

  lemma IdSetStep(xs: seq<TreeItem>, origin: string, i: nat)
    requires i < |xs|
    ensures MilestoneIdSet(xs[..i + 1], origin) ==
      MilestoneIdSet(xs[..i], origin) + (if IsMilestone(xs[i], origin) then {xs[i].itemId} else {})
  {
    assert xs[..i + 1] == xs[..i] + [xs[i]];
  }

  /** First loop: `milestoneMap.set(item.item_id, {...item, children: []})`
      for every milestone item. `index` plays the part of the Map's keys. */
  method CollectMilestones(tree: seq<TreeItem>, origin: string)
    returns (ms: seq<Milestone>, index: map<string, nat>)
    requires Distinct(Ids(tree))
    ensures |ms| == |Heads(tree, origin)|
    ensures forall k :: 0 <= k < |ms| ==> ms[k] == Milestone(Heads(tree, origin)[k], [])
    ensures index.Keys == MilestoneIdSet(tree, origin)
    ensures forall id :: id in index ==> index[id] < |ms| && ms[index[id]].item.itemId == id
    ensures forall k :: 0 <= k < |ms| ==> ms[k].item.itemId in index && index[ms[k].item.itemId] == k
  {
    ms, index := [], map[];
    for i := 0 to |tree|
      invariant |ms| == |Heads(tree[..i], origin)|
      invariant forall k :: 0 <= k < |ms| ==> ms[k] == Milestone(Heads(tree[..i], origin)[k], [])
      invariant index.Keys == MilestoneIdSet(tree[..i], origin)
      invariant forall id :: id in index ==> index[id] < |ms| && ms[index[id]].item.itemId == id
      invariant forall k :: 0 <= k < |ms| ==> ms[k].item.itemId in index && index[ms[k].item.itemId] == k
    {
      HeadsStep(tree, origin, i);
      IdSetStep(tree, origin, i);
      var x := tree[i];
      if IsMilestone(x, origin) {
        assert x.itemId !in index by { FreshId(tree, i); }
        index := index[x.itemId := |ms|];
        ms := ms + [Milestone(x, [])];
      }
    }
    assert tree[..|tree|] == tree;
  }

  /** The whole grouping: the two loops, then the orphans pushed onto the
      origin's tray when there are orphans and the origin heads a tray. */
  method GroupMilestones(tree: seq<TreeItem>, origin: string) returns (ms: seq<Milestone>)
    requires Distinct(Ids(tree))
    ensures ms == Milestones(tree, origin)
  {
    var index;
    ms, index := CollectMilestones(tree, origin);
    ghost var heads := Heads(tree, origin);
    var orphans;
    ms, orphans := AttachChildren(tree, origin, ms, index);
    if |orphans| > 0 && origin in index {
      var k := index[origin];
      ms := ms[k := Milestone(ms[k].item, ms[k].children + orphans)];
    }
    forall k | 0 <= k < |ms| ensures ms[k] == Milestones(tree, origin)[k] {
      if heads[k].itemId != origin {
        assert ms[k].children == AttachedTo(tree, origin, heads[k].itemId);
      }
    }
  }

  /** The second loop: each non-origin item goes to the tray of its
      parent when that parent heads a tray, and is otherwise an orphan
      unless it heads a tray itself. */
  method AttachChildren(tree: seq<TreeItem>, origin: string, ms0: seq<Milestone>, index: map<string, nat>)
    returns (ms: seq<Milestone>, orphans: seq<TreeItem>)
    requires |ms0| == |Heads(tree, origin)|
    requires forall k :: 0 <= k < |ms0| ==> ms0[k] == Milestone(Heads(tree, origin)[k], [])
    requires index.Keys == MilestoneIdSet(tree, origin)
    requires forall id :: id in index ==> index[id] < |ms0| && ms0[index[id]].item.itemId == id
    requires forall k :: 0 <= k < |ms0| ==> ms0[k].item.itemId in index && index[ms0[k].item.itemId] == k
    ensures |ms| == |Heads(tree, origin)|
    ensures forall k :: 0 <= k < |ms| ==>
      ms[k] == Milestone(Heads(tree, origin)[k], AttachedTo(tree, origin, Heads(tree, origin)[k].itemId))
    ensures orphans == OrphansOf(tree, origin, MilestoneIdSet(tree, origin))
  {
    ghost var heads := Heads(tree, origin);
    ghost var ids := MilestoneIdSet(tree, origin);
    ms, orphans := ms0, [];
    for i := 0 to |tree|
      invariant |ms| == |heads|
      invariant forall k :: 0 <= k < |ms| ==> ms[k] == Milestone(heads[k], AttachedTo(tree[..i], origin, heads[k].itemId))
      invariant orphans == OrphansOf(tree[..i], origin, ids)
    {
      var x := tree[i];
      OrphansStep(tree, origin, ids, i);
      forall k | 0 <= k < |ms| {
        AttachedStep(tree, origin, heads[k].itemId, i);
      }
      if x.itemId == origin {
        continue;
      }
      if x.parentId.Some? && x.parentId.value != "" && x.parentId.value in index {
        var k := index[x.parentId.value];
        ms := ms[k := Milestone(ms[k].item, ms[k].children + [x])];
      } else if x.relationType != EVOLVE && x.relationType != ROOT {
        orphans := orphans + [x];
      }
    }
    assert tree[..|tree|] == tree;
  }

  // ---------------------------------------------------------------------
  // Sorting, labels and the date shown on each tray
  // ---------------------------------------------------------------------

  /** `a.date.localeCompare(b.date) <= 0` on ISO dates. */
  predicate ItemDateLe(a: TreeItem, b: TreeItem) {
    LexLe(a.date, b.date)
  }

  /** `new Date(a.date) - new Date(b.date) <= 0` on ISO dates. */
  predicate MilestoneDateLe(a: Milestone, b: Milestone) {
    LexLe(a.item.date, b.item.date)
  }

  lemma ItemDateLeIsPreorder()
    ensures TotalPreorder(ItemDateLe)
  {
    forall x: TreeItem, y: TreeItem ensures ItemDateLe(x, y) || ItemDateLe(y, x) {
      LexLeTotal(x.date, y.date);
    }
    forall x: TreeItem, y: TreeItem, z: TreeItem | ItemDateLe(x, y) && ItemDateLe(y, z)
      ensures ItemDateLe(x, z)
    {
      LexLeTrans(x.date, y.date, z.date);
    }
  }

  lemma MilestoneDateLeIsPreorder()
    ensures TotalPreorder(MilestoneDateLe)
  {
    forall x: Milestone, y: Milestone ensures MilestoneDateLe(x, y) || MilestoneDateLe(y, x) {
      LexLeTotal(x.item.date, y.item.date);
    }
    forall x: Milestone, y: Milestone, z: Milestone | MilestoneDateLe(x, y) && MilestoneDateLe(y, z)
      ensures MilestoneDateLe(x, z)
    {
      LexLeTrans(x.item.date, y.item.date, z.item.date);
    }
  }

  datatype Label = Genesis | Stars(count: nat)

  /** One rendered milestone tray. `amber` is the highlight class on the
      date label; `deletable` is the presence of the delete button. */
  datatype Tray = Tray(
    milestoneId: string,
    baseDate: string,
    badge: Label,
    shownDate: string,
    amber: bool,
    deletable: bool,
    tasks: seq<TreeItem>)

  /** The date printed on a tray when it is rendered: the first (earliest)
      child's date when that is earlier than the milestone's own date. */
  function DisplayDate(base: string, children: seq<TreeItem>): string {
    if |children| > 0 && LexLt(children[0].date, base) then children[0].date else base
  }

  /** Rendering the milestone at sorted position `index`. */
  function TrayOf(m: Milestone, index: nat, origin: string): Tray {
    var isRoot := m.item.itemId == origin;
    var tasks := SortBy(m.children, ItemDateLe);
    Tray(m.item.itemId, m.item.date,
         if isRoot then Genesis else Stars(index),
         DisplayDate(m.item.date, tasks),
         false,
         !isRoot,
         tasks)
  }

  /** The trays of `renderProjectMap`, in sorted order. */
  function RenderTrays(ms: seq<Milestone>, origin: string): seq<Tray> {
    var sorted := SortBy(ms, MilestoneDateLe);
    seq(|sorted|, i requires 0 <= i < |sorted| => TrayOf(sorted[i], i, origin))
  }

  /** The drop targets of the canvas: one per tray, then the ghost. */
  function DropTargets(trays: seq<Tray>): seq<string> {
    seq(|trays|, i requires 0 <= i < |trays| => trays[i].milestoneId) + [TEMP_NEW]
  }

  /** The shown date is never later than the base date nor than any child,
      and it is one of them. */
  lemma {:induction false} DisplayDateIsEarliest(base: string, children: seq<TreeItem>)
    ensures var tasks := SortBy(children, ItemDateLe);
      var d := DisplayDate(base, tasks);
      && LexLe(d, base)
      && (forall c :: c in children ==> LexLe(d, c.date))
      && (d == base || exists c :: c in children && c.date == d)
  {
    var tasks := SortBy(children, ItemDateLe);
    ItemDateLeIsPreorder();
    SortBySorted(children, ItemDateLe);
    var d := DisplayDate(base, tasks);
    LexLeRefl(base);
    LexLeTotal(base, d);
    forall c | c in children ensures LexLe(d, c.date) {
      assert c in multiset(tasks);
      var k :| 0 <= k < |tasks| && tasks[k] == c;
      LexLeRefl(tasks[0].date);
      assert LexLe(tasks[0].date, c.date);
      if d != tasks[0].date {
        LexLeTotal(tasks[0].date, base);
        LexLeTrans(base, tasks[0].date, c.date);
      }
    }
    if d != base {
      assert tasks[0] in multiset(children);
    }
  }

  /** Milestones come out in ascending date order, each tray's tasks in
      ascending date order and as a permutation of its children. */
  lemma RenderedOrder(ms: seq<Milestone>, origin: string)
    ensures var trays := RenderTrays(ms, origin);
      && |trays| == |ms|
      && (forall i, j :: 0 <= i < j < |trays| ==> LexLe(trays[i].baseDate, trays[j].baseDate))
      && (forall i :: 0 <= i < |trays| ==>
            && SortedBy(trays[i].tasks, ItemDateLe)
            && exists m :: (m in ms && trays[i].milestoneId == m.item.itemId
              && multiset(trays[i].tasks) == multiset(m.children)))
  {
    RenderedDates(ms, origin);
    forall i | 0 <= i < |RenderTrays(ms, origin)|
      ensures SortedBy(RenderTrays(ms, origin)[i].tasks, ItemDateLe)
      ensures exists m :: (m in ms && RenderTrays(ms, origin)[i].milestoneId == m.item.itemId
              && multiset(RenderTrays(ms, origin)[i].tasks) == multiset(m.children))
    {
      RenderedTray(ms, origin, i);
      var m := SortBy(ms, MilestoneDateLe)[i];
      assert m in ms && RenderTrays(ms, origin)[i].milestoneId == m.item.itemId;
    }
  }

  /** The trays follow the milestones' base dates. */
  lemma RenderedDates(ms: seq<Milestone>, origin: string)
    ensures var trays := RenderTrays(ms, origin);
      forall i, j :: 0 <= i < j < |trays| ==> LexLe(trays[i].baseDate, trays[j].baseDate)
  {
    var sorted := SortBy(ms, MilestoneDateLe);
    var trays := RenderTrays(ms, origin);
    MilestoneDateLeIsPreorder();
    SortBySorted(ms, MilestoneDateLe);
    forall i, j | 0 <= i < j < |trays| ensures LexLe(trays[i].baseDate, trays[j].baseDate) {
      assert MilestoneDateLe(sorted[i], sorted[j]);
    }
  }

  /** One tray: its tasks are its milestone's children, sorted by date. */
  lemma RenderedTray(ms: seq<Milestone>, origin: string, i: nat)
    requires i < |RenderTrays(ms, origin)|
    ensures var t, m := RenderTrays(ms, origin)[i], SortBy(ms, MilestoneDateLe)[i];
      && SortedBy(t.tasks, ItemDateLe)
      && m in ms && t.milestoneId == m.item.itemId && multiset(t.tasks) == multiset(m.children)
  {
    var sorted := SortBy(ms, MilestoneDateLe);
    ItemDateLeIsPreorder();
    SortBySorted(sorted[i].children, ItemDateLe);
    assert sorted[i] in multiset(ms);
  }

  /** With distinct milestone ids, at most one tray reads GENESIS, and
      one does exactly when the origin heads a milestone. That tray has no
      delete button; every other tray at sorted position `i` shows `i`
      stars and can be deleted. No tray is amber when first drawn. */
  lemma GenesisOnce(ms: seq<Milestone>, origin: string)
    requires DistinctKeys(ms, MilestoneId)
    ensures var trays := RenderTrays(ms, origin);
      && (forall i, j :: 0 <= i < j < |trays| ==> !(trays[i].badge == Genesis && trays[j].badge == Genesis))
      && ((exists i :: 0 <= i < |trays| && trays[i].badge == Genesis) <==> (exists m :: m in ms && m.item.itemId == origin))
      && (forall i :: 0 <= i < |trays| ==>
            && (trays[i].deletable <==> trays[i].badge != Genesis)
            && (trays[i].badge != Genesis ==> trays[i].badge == Stars(i))
            && !trays[i].amber)
  {
    GenesisUnique(ms, origin);
    GenesisPresent(ms, origin);
  }

  lemma GenesisUnique(ms: seq<Milestone>, origin: string)
    requires DistinctKeys(ms, MilestoneId)
    ensures var trays := RenderTrays(ms, origin);
      forall i, j :: 0 <= i < j < |trays| ==> !(trays[i].badge == Genesis && trays[j].badge == Genesis)
  {
    var trays := RenderTrays(ms, origin);
    var sorted := SortBy(ms, MilestoneDateLe);
    SortByDistinctKeys(ms, MilestoneDateLe, MilestoneId);
    forall i, j | 0 <= i < j < |trays| ensures !(trays[i].badge == Genesis && trays[j].badge == Genesis) {
      assert MilestoneId(sorted[i]) != MilestoneId(sorted[j]);
    }
  }

  lemma GenesisPresent(ms: seq<Milestone>, origin: string)
    ensures var trays := RenderTrays(ms, origin);
      (exists i :: 0 <= i < |trays| && trays[i].badge == Genesis) <==> (exists m :: m in ms && m.item.itemId == origin)
  {
    var trays := RenderTrays(ms, origin);
    var sorted := SortBy(ms, MilestoneDateLe);
    if m :| m in ms && m.item.itemId == origin {
      assert m in multiset(sorted);
      var i :| 0 <= i < |sorted| && sorted[i] == m;
      assert trays[i].badge == Genesis;
    }
    if i :| 0 <= i < |trays| && trays[i].badge == Genesis {
      assert sorted[i] in multiset(ms);
    }
  }

  /** When the origin is the earliest tray, a star count is the tray's
      1-based rank among the non-origin trays. */
  lemma {:induction false} StarsAreRank(ms: seq<Milestone>, origin: string, i: nat)
    requires DistinctKeys(ms, MilestoneId)
    requires |RenderTrays(ms, origin)| > 0 && RenderTrays(ms, origin)[0].milestoneId == origin
    requires 0 < i < |RenderTrays(ms, origin)|
    ensures RenderTrays(ms, origin)[i].badge == Stars(CountNonOrigin(RenderTrays(ms, origin)[..i + 1], origin))
  {
    var trays := RenderTrays(ms, origin);
    var sorted := SortBy(ms, MilestoneDateLe);
    SortByDistinctKeys(ms, MilestoneDateLe, MilestoneId);
    assert forall k :: 0 < k < |trays| ==> trays[k].milestoneId == MilestoneId(sorted[k]);
    CountNonOriginAfterHead(trays, origin, i + 1);
  }

  function CountNonOrigin(trays: seq<Tray>, origin: string): nat {
    if trays == [] then 0
    else CountNonOrigin(trays[..|trays| - 1], origin) + (if trays[|trays| - 1].milestoneId != origin then 1 else 0)
  }

  lemma {:induction false} CountNonOriginAfterHead(trays: seq<Tray>, origin: string, n: nat)
    requires 0 < n <= |trays|
    requires trays[0].milestoneId == origin
    requires forall k :: 0 < k < |trays| ==> trays[k].milestoneId != origin
    ensures CountNonOrigin(trays[..n], origin) == n - 1
  {
    if n > 1 {
      CountNonOriginAfterHead(trays, origin, n - 1);
      assert trays[..n][..n - 1] == trays[..n - 1];
    }
  }

  // ---------------------------------------------------------------------
  // updateTrayHeaderDate
  // ---------------------------------------------------------------------

  /** The text of a task's `.task-date`, trimmed. */
  function TaskDate(t: TreeItem): string {
    Trim(t.date)
  }

  /** `updateTrayHeaderDate`: the date label shows the earlier of the base
      date and the first task's (non-empty) date, and is amber exactly when
      that is earlier than the base date. */
  function HeaderDate(base: string, tasks: seq<TreeItem>): (r: (string, bool))
    ensures r.1 <==> LexLt(r.0, base)
    ensures LexLe(r.0, base)
    ensures |tasks| > 0 && TaskDate(tasks[0]) != "" ==> LexLe(r.0, TaskDate(tasks[0]))
    ensures r.0 == base || (|tasks| > 0 && r.0 == TaskDate(tasks[0]))
  {
    if |tasks| > 0 && TaskDate(tasks[0]) != "" && LexLt(TaskDate(tasks[0]), base) then
      var d := TaskDate(tasks[0]);
      LexLeTotal(d, base);
      LexLeRefl(d);
      (d, true)
    else
      LexLeRefl(base);
      (base, false)
  }

  /** `sortListByDate`: the list is reordered by its trimmed task dates. */
  predicate TaskDateLe(a: TreeItem, b: TreeItem) {
    LexLe(TaskDate(a), TaskDate(b))
  }

  lemma TaskDateLeIsPreorder()
    ensures TotalPreorder(TaskDateLe)
  {
    forall x: TreeItem, y: TreeItem ensures TaskDateLe(x, y) || TaskDateLe(y, x) {
      LexLeTotal(TaskDate(x), TaskDate(y));
    }
    forall x: TreeItem, y: TreeItem, z: TreeItem | TaskDateLe(x, y) && TaskDateLe(y, z)
      ensures TaskDateLe(x, z)
    {
      LexLeTrans(TaskDate(x), TaskDate(y), TaskDate(z));
    }
  }

  /** After `sortListByDate` the header shows the earliest of the base date
      and every task date (task dates are never empty: every item belongs
      to a dated log). */
  lemma {:induction false} SortedHeaderIsEarliest(base: string, tasks: seq<TreeItem>)
    requires forall t :: t in tasks ==> TaskDate(t) != ""
    ensures var sorted := SortBy(tasks, TaskDateLe);
      var shown := HeaderDate(base, sorted).0;
      forall t :: t in tasks && TaskDate(t) != "" ==> LexLe(shown, TaskDate(t))
  {
    var sorted := SortBy(tasks, TaskDateLe);
    var shown := HeaderDate(base, sorted).0;
    TaskDateLeIsPreorder();
    SortBySorted(tasks, TaskDateLe);
    forall t | t in tasks && TaskDate(t) != "" ensures LexLe(shown, TaskDate(t)) {
      assert t in multiset(sorted);
      var k :| 0 <= k < |sorted| && sorted[k] == t;
      LexLeRefl(TaskDate(t));
      assert LexLe(TaskDate(sorted[0]), TaskDate(t));
      assert sorted[0] in multiset(tasks);
      LexLeTrans(shown, TaskDate(sorted[0]), TaskDate(t));
    }
  }
}
