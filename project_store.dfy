/** The project-tree handlers of routers/project.py, over the day-log
    tables: the family tree of an origin task and the relation update the
    project map sends after a drag. */
module ProjectStore {
  import opened Common
  import opened Sorting
  import opened LogStore

  const ROOT := "root"

  /** One node of the `/project/tree/{origin_id}` answer. */
  datatype TreeNode = TreeNode(
    itemId: Option<string>,
    title: string,
    date: string,
    isDone: bool,
    tags: Option<string>,
    parentId: Option<string>,
    relationType: string)

  /** The answer; `origin` is the echoed `origin_id`, absent when the tree
      is empty. */
  datatype TreeAnswer = TreeAnswer(origin: Option<string>, tree: seq<TreeNode>)

  /** `WHERE li.origin_id = ? OR li.item_id = ?`. */
  predicate InFamily(j: JoinedRow, origin: string) {
    j.row.originId == Some(origin) || j.row.itemId == Some(origin)
  }

  /** `ORDER BY dl.log_date ASC, li.sort_order ASC`. */
  predicate TreeOrder(a: JoinedRow, b: JoinedRow) {
    LexLe(a.date, b.date) && (a.date == b.date ==> a.row.sortOrder <= b.row.sortOrder)
  }

  lemma TreeOrderIsPreorder()
    ensures TotalPreorder(TreeOrder)
  {
    forall x: JoinedRow, y: JoinedRow ensures TreeOrder(x, y) || TreeOrder(y, x) {
      LexLeTotal(x.date, y.date);
      if LexLe(x.date, y.date) && LexLe(y.date, x.date) {
        LexLeAntisym(x.date, y.date);
      }
    }
    forall x: JoinedRow, y: JoinedRow, z: JoinedRow | TreeOrder(x, y) && TreeOrder(y, z)
      ensures TreeOrder(x, z)
    {
      LexLeTrans(x.date, y.date, z.date);
      if x.date == z.date {
        LexLeAntisym(x.date, y.date);
      }
    }
  }

  function Family(js: seq<JoinedRow>, origin: string): (r: seq<JoinedRow>)
    ensures |r| <= |js|
  {
    if js == [] then []
    else Family(js[..|js| - 1], origin) + (if InFamily(js[|js| - 1], origin) then [js[|js| - 1]] else [])
  }

  lemma {:induction false} FamilySpec(js: seq<JoinedRow>, origin: string, j: JoinedRow)
    ensures j in Family(js, origin) <==> j in js && InFamily(j, origin)
  {
    if js != [] {
      FamilySpec(js[..|js| - 1], origin, j);
      assert js == js[..|js| - 1] + [js[|js| - 1]];
    }
  }

  /** `r["relation_type"] or "root"`. */
  function RelationOrRoot(rel: Option<string>): (r: string)
    ensures r != ""
    ensures rel.Some? && rel.value != "" ==> r == rel.value
  {
    if rel.Some? && rel.value != "" then rel.value else ROOT
  }

  function ToNode(j: JoinedRow): TreeNode {
    TreeNode(j.row.itemId, j.row.title, j.date, j.row.isDone, j.row.tags, j.row.parentId,
             RelationOrRoot(j.row.relationType))
  }

  /** `/project/tree/{origin_id}`. */
  function ProjectTree(logs: seq<DailyLog>, t: seq<ItemRow>, origin: string): (r: TreeAnswer)
    ensures r.tree == [] <==> r.origin.None?
    ensures r.origin.Some? ==> r.origin.value == origin
    ensures forall k :: 0 <= k < |r.tree| ==> r.tree[k].relationType != ""
  {
    var rows := SortBy(Family(Joined(logs, t), origin), TreeOrder);
    if rows == [] then TreeAnswer(None, [])
    else TreeAnswer(Some(origin), Nodes(rows))
  }

  function Nodes(rows: seq<JoinedRow>): (r: seq<TreeNode>)
    ensures |r| == |rows|
    ensures forall k :: 0 <= k < |rows| ==> r[k] == ToNode(rows[k])
  {
    seq(|rows|, k requires 0 <= k < |rows| => ToNode(rows[k]))
  }

  /** The `tree_nodes` loop: one node per fetched row, in row order. */
  method BuildTree(rows: seq<JoinedRow>) returns (nodes: seq<TreeNode>)
    ensures nodes == Nodes(rows)
  {
    nodes := [];
    for i := 0 to |rows|
      invariant nodes == Nodes(rows[..i])
    {
      nodes := nodes + [ToNode(rows[i])];
    }
    assert rows[..|rows|] == rows;
  }

  /** `/project/tree/{origin_id}` over the tables of `db`. */
  method GetProjectTree(db: LogDb, origin: string) returns (answer: TreeAnswer)
    ensures answer == ProjectTree(db.logs, db.items, origin)
  {
    var rows := SortBy(Family(Joined(db.logs, db.items), origin), TreeOrder);
    if rows == [] {
      return TreeAnswer(None, []);
    }
    var nodes := BuildTree(rows);
    answer := TreeAnswer(Some(origin), nodes);
  }

  /** The tree lists exactly the dated items of the family: the origin
      itself and every item naming it as origin. */
  lemma TreeMembers(logs: seq<DailyLog>, t: seq<ItemRow>, origin: string, j: JoinedRow)
    ensures j in Joined(logs, t) && InFamily(j, origin) ==> ToNode(j) in ProjectTree(logs, t, origin).tree
    ensures forall n :: n in ProjectTree(logs, t, origin).tree ==>
      exists y :: y in Joined(logs, t) && InFamily(y, origin) && n == ToNode(y)
  {
    var f := Family(Joined(logs, t), origin);
    var rows := SortBy(f, TreeOrder);
    var tree := ProjectTree(logs, t, origin).tree;
    if j in Joined(logs, t) && InFamily(j, origin) {
      FamilySpec(Joined(logs, t), origin, j);
      assert j in multiset(rows);
      var k :| 0 <= k < |rows| && rows[k] == j;
      assert tree[k] == ToNode(j);
    }
    forall n | n in tree ensures exists y :: y in Joined(logs, t) && InFamily(y, origin) && n == ToNode(y) {
      var k :| 0 <= k < |tree| && tree[k] == n;
      assert rows[k] in multiset(f);
      FamilySpec(Joined(logs, t), origin, rows[k]);
    }
  }

  /** The tree is ordered by date, and by position within a day. */
  lemma TreeIsOrdered(logs: seq<DailyLog>, t: seq<ItemRow>, origin: string)
    ensures var tree := ProjectTree(logs, t, origin).tree;
      forall i, j :: 0 <= i < j < |tree| ==> LexLe(tree[i].date, tree[j].date)
  {
    TreeOrderIsPreorder();
    SortBySorted(Family(Joined(logs, t), origin), TreeOrder);
  }

  // ---------------------------------------------------------------------
  // update_task_relation
  // ---------------------------------------------------------------------

  datatype RelationOutcome = RelationUpdated | RelationFailed(status: nat)

  function Relink(r: ItemRow, itemId: string, parent: Option<string>, relation: string): ItemRow {
    if r.itemId == Some(itemId) then r.(parentId := parent, relationType := Some(relation)) else r
  }

  /** `UPDATE log_items SET parent_id = ?, relation_type = ? WHERE item_id = ?`. */
  function Relinked(t: seq<ItemRow>, itemId: string, parent: Option<string>, relation: string): (r: seq<ItemRow>)
    ensures |r| == |t|
  {
    seq(|t|, k requires 0 <= k < |t| => Relink(t[k], itemId, parent, relation))
  }

  predicate HasItem(t: seq<ItemRow>, itemId: string) {
    exists k :: 0 <= k < |t| && t[k].itemId == Some(itemId)
  }

  /** `/project/update-relation`: an unknown item is refused (the 404
      raised inside the handler surfaces as a 500) and nothing changes;
      otherwise only the parent and relation of that item change. */
  method UpdateTaskRelation(db: LogDb, itemId: string, targetParent: Option<string>, relation: string)
    returns (outcome: RelationOutcome)
    requires db.Valid()
    modifies db
    ensures db.Valid()
    ensures db.logs == old(db.logs)
    ensures !HasItem(old(db.items), itemId) ==> outcome == RelationFailed(500) && db.items == old(db.items)
    ensures HasItem(old(db.items), itemId) ==>
      outcome == RelationUpdated && db.items == Relinked(old(db.items), itemId, targetParent, relation)
  {
    var found := false;
    var k := 0;
    while k < |db.items|
      invariant 0 <= k <= |db.items|
      invariant found <==> exists m :: 0 <= m < k && db.items[m].itemId == Some(itemId)
    {
      if db.items[k].itemId == Some(itemId) {
        found := true;
      }
      k := k + 1;
    }
    if !found {
      return RelationFailed(500);
    }
    ghost var before := db.items;
    db.items := Relinked(db.items, itemId, targetParent, relation);
    RelinkKeepsUnique(before, itemId, targetParent, relation);
    outcome := RelationUpdated;
  }

  lemma {:induction false} RelinkedIds(t: seq<ItemRow>, itemId: string, parent: Option<string>, relation: string, id: string)
    ensures CountId(Relinked(t, itemId, parent, relation), id) == CountId(t, id)
  {
    if t != [] {
      var n := |t| - 1;
      RelinkedIds(t[..n], itemId, parent, relation, id);
      assert Relinked(t, itemId, parent, relation)[..n] == Relinked(t[..n], itemId, parent, relation);
    }
  }

  lemma RelinkKeepsUnique(t: seq<ItemRow>, itemId: string, parent: Option<string>, relation: string)
    requires UniqueItemIds(t)
    ensures UniqueItemIds(Relinked(t, itemId, parent, relation))
  {
    forall id ensures CountId(Relinked(t, itemId, parent, relation), id) <= 1 {
      RelinkedIds(t, itemId, parent, relation, id);
    }
  }

  /** The update touches nothing but the parent and relation of the named
      item: every row keeps its id, log, title, content, state, position,
      tags and origin. */
  lemma RelinkTouchesOnlyLinks(t: seq<ItemRow>, itemId: string, parent: Option<string>, relation: string, k: nat)
    requires k < |t|
    ensures var r := Relinked(t, itemId, parent, relation)[k];
      && r.(parentId := t[k].parentId, relationType := t[k].relationType) == t[k]
      && (t[k].itemId == Some(itemId) ==> r.parentId == parent && r.relationType == Some(relation))
      && (t[k].itemId != Some(itemId) ==> r == t[k])
  {
  }

  /** The update seen through the join. */
  function Relinker(itemId: string, parent: Option<string>, relation: string): JoinedRow -> JoinedRow {
    (j: JoinedRow) => JoinedRow(j.date, Relink(j.row, itemId, parent, relation))
  }

  lemma {:induction false} JoinedRelinked(logs: seq<DailyLog>, t: seq<ItemRow>, itemId: string, parent: Option<string>, relation: string)
    ensures Joined(logs, Relinked(t, itemId, parent, relation)) ==
      MapSeq(Joined(logs, t), Relinker(itemId, parent, relation))
  {
    var f := Relinker(itemId, parent, relation);
    if t != [] {
      var n := |t| - 1;
      var u := Relinked(t, itemId, parent, relation);
      assert u[..n] == Relinked(t[..n], itemId, parent, relation);
      assert u[n] == Relink(t[n], itemId, parent, relation);
      JoinedRelinked(logs, t[..n], itemId, parent, relation);
      var a := Joined(logs, t[..n]);
      var b := match DateOfLog(logs, t[n].logId) case None => [] case Some(d) => [JoinedRow(d, t[n])];
      var fb := match DateOfLog(logs, t[n].logId) case None => [] case Some(d) => [JoinedRow(d, u[n])];
      assert Joined(logs, u) == Joined(logs, u[..n]) + fb;
      assert MapSeq(b, f) == fb;
      MapSeqAppend(a, b, f);
    }
  }

  lemma {:induction false} FamilyRelinked(js: seq<JoinedRow>, origin: string, itemId: string, parent: Option<string>, relation: string)
    ensures var f := Relinker(itemId, parent, relation);
      Family(MapSeq(js, f), origin) == MapSeq(Family(js, origin), f)
  {
    var f := Relinker(itemId, parent, relation);
    if js != [] {
      var n := |js| - 1;
      assert MapSeq(js, f)[..n] == MapSeq(js[..n], f);
      FamilyRelinked(js[..n], origin, itemId, parent, relation);
      var a := Family(js[..n], origin);
      var b := if InFamily(js[n], origin) then [js[n]] else [];
      MapSeqAppend(a, b, f);
    }
  }

  /** Through the tree query, the update only rewrites the rows it
      would list anyway. */
  lemma RelinkedFamily(logs: seq<DailyLog>, t: seq<ItemRow>, itemId: string, parent: Option<string>,
                       relation: string, origin: string)
    ensures SortBy(Family(Joined(logs, Relinked(t, itemId, parent, relation)), origin), TreeOrder) ==
      MapSeq(SortBy(Family(Joined(logs, t), origin), TreeOrder), Relinker(itemId, parent, relation))
  {
    var f := Relinker(itemId, parent, relation);
    var js := Joined(logs, t);
    JoinedRelinked(logs, t, itemId, parent, relation);
    FamilyRelinked(js, origin, itemId, parent, relation);
    forall a, b ensures TreeOrder(f(a), f(b)) == TreeOrder(a, b) {
    }
    SortByMap(Family(js, origin), TreeOrder, f);
  }

  /** What identifies a node on the map: its item and its day. */
  function NodeKeys(nodes: seq<TreeNode>): (r: seq<(Option<string>, string)>)
    ensures |r| == |nodes|
  {
    seq(|nodes|, k requires 0 <= k < |nodes| => (nodes[k].itemId, nodes[k].date))
  }

  lemma RelinkedNodes(rows: seq<JoinedRow>, itemId: string, parent: Option<string>, relation: string)
    ensures NodeKeys(Nodes(MapSeq(rows, Relinker(itemId, parent, relation)))) == NodeKeys(Nodes(rows))
  {
    var f := Relinker(itemId, parent, relation);
    var m := MapSeq(rows, f);
    forall k | 0 <= k < |rows| ensures NodeKeys(Nodes(m))[k] == NodeKeys(Nodes(rows))[k] {
      assert m[k] == f(rows[k]);
    }
  }

  /** A relation update never changes which items a project tree lists,
      nor their order: the origin and dates it is built from are kept. */
  lemma RelinkKeepsTrees(logs: seq<DailyLog>, t: seq<ItemRow>, itemId: string, parent: Option<string>,
                         relation: string, origin: string)
    ensures NodeKeys(ProjectTree(logs, Relinked(t, itemId, parent, relation), origin).tree) ==
      NodeKeys(ProjectTree(logs, t, origin).tree)
  {
    var rows := SortBy(Family(Joined(logs, t), origin), TreeOrder);
    var moved := Relinked(t, itemId, parent, relation);
    TreeNodes(logs, t, origin);
    TreeNodes(logs, moved, origin);
    RelinkedFamily(logs, t, itemId, parent, relation, origin);
    RelinkedNodes(rows, itemId, parent, relation);
  }

  /** The tree is the nodes of the ordered family rows. */
  lemma TreeNodes(logs: seq<DailyLog>, t: seq<ItemRow>, origin: string)
    ensures ProjectTree(logs, t, origin).tree == Nodes(SortBy(Family(Joined(logs, t), origin), TreeOrder))
  {
  }
}
