/** The habit bar and its settings panel, static/js/habit_mod.js: the
    click-through status cycle, the capsule styling, the render queue that
    folds habits sharing a chain id into one entry, the dissolving of
    one-member chains and the bookkeeping of the one pending empty chain.
    Requests to the server are returned as values; responses are
    parameters. */
module HabitChains {
  import opened Common

  /** A row of `/get-habits`. `groupId` and `status` are `None` for SQL
      NULL; `status` is NULL when no log row exists for the date. */
  datatype Habit = Habit(id: int, title: string, color: string, groupId: Option<int>, status: Option<int>)

  /** The chain a habit is in; 0 (and NULL) mean none, as the test
      `h.group_id && h.group_id !== 0` reads it. */
  function ChainId(h: Habit): int {
    if h.groupId.Some? then h.groupId.value else 0
  }

  predicate Chained(h: Habit) {
    ChainId(h) != 0
  }

  // ---------------------------------------------------------------------
  // Status cycle and capsule styling
  // ---------------------------------------------------------------------

  /** `handleHabitClick`: done becomes failed, anything else becomes done. */
  function NextStatus(current: Option<int>): (r: int)
    ensures r == 0 || r == 1
    ensures r == 0 <==> current == Some(1)
  {
    if current == Some(1) then 0 else 1
  }

  /** After the first click the status alternates between 1 and 0. */
  lemma StatusAlternates(current: Option<int>)
    ensures var first := NextStatus(current);
      && NextStatus(Some(first)) == 1 - first
      && NextStatus(Some(NextStatus(Some(first)))) == first
  {
  }

  datatype CapsuleClass = HabitDone | HabitFailed | HabitTodo

  datatype CapsuleStyle =
    | Plain
    | ChainColor(color: string)      // `--habit-color` inside a chain
    | BorderAndIcon(color: string)   // border and icon background when alone

  /** One rendered capsule. `icon` is the first code point of the title
      (`undefined` for an empty title); `click` holds the arguments the
      capsule passes to `handleHabitClick`. */
  datatype Capsule = Capsule(
    habitId: int,
    cls: CapsuleClass,
    style: CapsuleStyle,
    icon: Option<char>,
    caption: string,
    click: (int, Option<int>, string))

  /** `renderCapsule`. */
  function RenderCapsule(h: Habit, date: string, inChain: bool): (c: Capsule)
    ensures c.cls == HabitDone <==> h.status == Some(1)
    ensures c.cls == HabitFailed <==> h.status == Some(0)
    ensures c.cls == HabitTodo <==> h.status != Some(0) && h.status != Some(1)
    ensures c.style != Plain <==> h.status == Some(1)
    ensures c.style.ChainColor? ==> inChain && c.style.color == h.color
    ensures c.style.BorderAndIcon? ==> !inChain && c.style.color == h.color
    ensures c.click == (h.id, h.status, date) && c.caption == h.title
    ensures c.icon.Some? <==> |h.title| > 0
  {
    var cls := if h.status == Some(1) then HabitDone else if h.status == Some(0) then HabitFailed else HabitTodo;
    var style := if h.status != Some(1) then Plain else if inChain then ChainColor(h.color) else BorderAndIcon(h.color);
    var icon := if |h.title| > 0 then Some(h.title[0]) else None;
    Capsule(h.id, cls, style, icon, h.title, (h.id, h.status, date))
  }

  /** Clicking a capsule and reloading moves its class along the cycle
      done, failed, done, ...; a todo capsule becomes done. */
  lemma ClickCycle(h: Habit, date: string)
    ensures var next := h.(status := Some(NextStatus(h.status)));
      var before := RenderCapsule(h, date, false).cls;
      var after := RenderCapsule(next, date, false).cls;
      && (before == HabitDone ==> after == HabitFailed)
      && (before != HabitDone ==> after == HabitDone)
  {
  }

  // ---------------------------------------------------------------------
  // The render queue
  // ---------------------------------------------------------------------

  datatype Entry = Single(habit: Habit) | Chain(gid: int, items: seq<Habit>)

  /** Position of the chain entry for `g`, if there is one. */
  function FindChain(q: seq<Entry>, g: int): (r: Option<nat>)
    ensures r.Some? ==> r.value < |q| && q[r.value].Chain? && q[r.value].gid == g
    ensures r.None? ==> forall k :: 0 <= k < |q| ==> !(q[k].Chain? && q[k].gid == g)
  {
    if q == [] then None
    else if q[0].Chain? && q[0].gid == g then Some(0)
    else
      var r := FindChain(q[1..], g);
      if r.Some? then Some(r.value + 1) else None
  }

  /** The queue `renderHabitBar` builds, one habit at a time: a single
      habit gets its own entry; a chained one joins its chain's entry, or
      opens that entry where it stands. */
  function Queue(hs: seq<Habit>): seq<Entry> {
    if hs == [] then [] else Enqueued(Queue(hs[..|hs| - 1]), hs[|hs| - 1])
  }

  /** One step of the loop: a single habit gets its own entry, a chained
      one joins its chain's entry or opens a new one at the end. */
  function Enqueued(q: seq<Entry>, h: Habit): seq<Entry> {
    if !Chained(h) then q + [Single(h)]
    else
      var pos := FindChain(q, ChainId(h));
      if pos.Some? then q[pos.value := Chain(ChainId(h), q[pos.value].items + [h])]
      else q + [Chain(ChainId(h), [h])]
  }

  /** Chain entries have distinct, non-zero ids and at least one member. */
  ghost predicate WellFormed(q: seq<Entry>) {
    && (forall k :: 0 <= k < |q| && q[k].Chain? ==> q[k].gid != 0 && |q[k].items| > 0)
    && (forall j, k :: 0 <= j < k < |q| && q[j].Chain? && q[k].Chain? ==> q[j].gid != q[k].gid)
  }

  lemma {:induction false} QueueWellFormed(hs: seq<Habit>)
    ensures WellFormed(Queue(hs))
  {
    if hs != [] {
      QueueWellFormed(hs[..|hs| - 1]);
    }
  }

  /** The members of chain `g`, in input order. */
  function Members(hs: seq<Habit>, g: int): seq<Habit> {
    if hs == [] then []
    else Members(hs[..|hs| - 1], g) + (if Chained(hs[|hs| - 1]) && ChainId(hs[|hs| - 1]) == g then [hs[|hs| - 1]] else [])
  }

  /** The habits that are in no chain, in input order. */
  function Unchained(hs: seq<Habit>): seq<Habit> {
    if hs == [] then []
    else Unchained(hs[..|hs| - 1]) + (if Chained(hs[|hs| - 1]) then [] else [hs[|hs| - 1]])
  }

  /** The single habits of a queue, in queue order. */
  function Singles(q: seq<Entry>): seq<Habit> {
    if q == [] then []
    else Singles(q[..|q| - 1]) + (if q[|q| - 1].Single? then [q[|q| - 1].habit] else [])
  }

  lemma {:induction false} SinglesUpdate(q: seq<Entry>, k: nat, e: Entry)
    requires k < |q| && q[k].Chain? && e.Chain?
    ensures Singles(q[k := e]) == Singles(q)
    decreases |q|
  {
    var n := |q| - 1;
    if k < n {
      assert q[k := e][..n] == q[..n][k := e];
      assert q[k := e][n] == q[n];
      SinglesUpdate(q[..n], k, e);
    } else {
      assert q[k := e][..n] == q[..n];
    }
  }

  /** Chain `g` of the queue holds exactly the members of `g`, in input
      order; a chain id with no members has no entry. */
  lemma {:induction false} QueueChains(hs: seq<Habit>, g: int)
    ensures var q := Queue(hs);
      var pos := FindChain(q, g);
      && (pos.Some? ==> q[pos.value].items == Members(hs, g) && Members(hs, g) != [])
      && (pos.None? ==> Members(hs, g) == [])
  {
    if hs != [] {
      var init := hs[..|hs| - 1];
      var h := hs[|hs| - 1];
      var q := Queue(init);
      QueueChains(init, g);
      QueueWellFormed(init);
      QueueWellFormed(hs);
      var q' := Queue(hs);
      assert q' == Enqueued(q, h);
      var joins := Chained(h) && ChainId(h) == g;
      assert Members(hs, g) == Members(init, g) + (if joins then [h] else []);
      var p := FindChain(q, g);
      if p.Some? {
        var e := q'[p.value];
        assert e.Chain? && e.gid == g;
        assert e.items == q[p.value].items + (if joins then [h] else []);
        FindChainUnique(q', g, p.value);
      } else if joins {
        assert q' == q + [Chain(g, [h])];
        FindChainUnique(q', g, |q|);
      }
    }
  }

  /** In a well-formed queue the entry of chain `g` is the one `FindChain`
      returns. */
  lemma FindChainUnique(q: seq<Entry>, g: int, k: nat)
    requires WellFormed(q) && k < |q| && q[k].Chain? && q[k].gid == g
    ensures FindChain(q, g) == Some(k)
  {
  }

  /** The single entries are the unchained habits, in input order. */
  lemma {:induction false} QueueSingles(hs: seq<Habit>)
    ensures Singles(Queue(hs)) == Unchained(hs)
  {
    if hs != [] {
      var init := hs[..|hs| - 1];
      var h := hs[|hs| - 1];
      var q := Queue(init);
      QueueSingles(init);
      if Chained(h) {
        var p := FindChain(q, ChainId(h));
        if p.Some? {
          SinglesUpdate(q, p.value, Chain(ChainId(h), q[p.value].items + [h]));
        } else {
          assert (q + [Chain(ChainId(h), [h])])[..|q|] == q;
        }
      } else {
        assert (q + [Single(h)])[..|q|] == q;
      }
    }
  }

  /** The habit an entry is placed for: the single habit, or the first
      member of the chain. */
  function Head(e: Entry): Habit
    requires e.Single? || |e.items| > 0
  {
    if e.Single? then e.habit else e.items[0]
  }

  ghost function Heads(q: seq<Entry>): seq<Habit>
    requires WellFormed(q)
  {
    seq(|q|, k requires 0 <= k < |q| => Head(q[k]))
  }

  /** Whether some habit before position `i` is in the same chain. */
  predicate SeenChain(hs: seq<Habit>, i: nat)
    requires i < |hs|
  {
    exists j :: 0 <= j < i && Chained(hs[j]) && ChainId(hs[j]) == ChainId(hs[i])
  }

  /** The habits an entry is opened for: every unchained habit and the
      first habit of each chain, in input order. */
  ghost function Openers(hs: seq<Habit>): seq<Habit> {
    if hs == [] then []
    else
      var n := |hs| - 1;
      Openers(hs[..n]) + (if !Chained(hs[n]) || !SeenChain(hs, n) then [hs[n]] else [])
  }

  lemma {:induction false} FindChainIffSeen(hs: seq<Habit>)
    requires |hs| > 0 && Chained(hs[|hs| - 1])
    ensures var n := |hs| - 1;
      FindChain(Queue(hs[..n]), ChainId(hs[n])).Some? <==> SeenChain(hs, n)
  {
    var n := |hs| - 1;
    var g := ChainId(hs[n]);
    var init := hs[..n];
    QueueChains(init, g);
    MembersSpec(init, g);
    if SeenChain(hs, n) {
      var j :| 0 <= j < n && Chained(hs[j]) && ChainId(hs[j]) == g;
      assert init[j] == hs[j];
      assert hs[j] in Members(init, g);
    }
    if FindChain(Queue(init), g).Some? {
      var m := Members(init, g)[0];
      assert m in Members(init, g);
      var j :| 0 <= j < |init| && init[j] == m;
      assert hs[j] == m;
    }
  }

  lemma {:induction false} MembersSpec(hs: seq<Habit>, g: int)
    ensures forall h :: h in Members(hs, g) <==> h in hs && Chained(h) && ChainId(h) == g
  {
    if hs != [] {
      var init := hs[..|hs| - 1];
      assert hs == init + [hs[|hs| - 1]];
      MembersSpec(init, g);
    }
  }

  /** Each entry sits where its first habit appeared: the heads of the
      entries are exactly the unchained habits and the first member of
      each chain, in input order. */
  lemma {:induction false} QueueOrder(hs: seq<Habit>)
    ensures WellFormed(Queue(hs))
    ensures Heads(Queue(hs)) == Openers(hs)
  {
    QueueWellFormed(hs);
    if hs != [] {
      var n := |hs| - 1;
      var init := hs[..n];
      var h := hs[n];
      var q := Queue(init);
      QueueOrder(init);
      assert forall j :: 0 <= j < n ==> hs[..n][j] == hs[j];
      if Chained(h) {
        FindChainIffSeen(hs);
        var p := FindChain(q, ChainId(h));
        if p.Some? {
          var q' := Queue(hs);
          assert forall k :: 0 <= k < |q| ==> Head(q'[k]) == Head(q[k]);
          assert Heads(q') == Heads(q);
        } else {
          assert Heads(Queue(hs)) == Heads(q) + [h];
        }
      } else {
        assert Heads(Queue(hs)) == Heads(q) + [h];
      }
    }
  }

  /** How often habit `x` occurs in the entries of a queue. */
  function Occurrences(q: seq<Entry>, x: Habit): nat {
    if q == [] then 0
    else Occurrences(q[..|q| - 1], x) + EntryOccurrences(q[|q| - 1], x)
  }

  function EntryOccurrences(e: Entry, x: Habit): nat {
    if e.Single? then (if e.habit == x then 1 else 0) else multiset(e.items)[x]
  }

  lemma {:induction false} OccurrencesUpdate(q: seq<Entry>, k: nat, e: Entry, x: Habit)
    requires k < |q|
    ensures Occurrences(q[k := e], x) + EntryOccurrences(q[k], x) == Occurrences(q, x) + EntryOccurrences(e, x)
    decreases |q|
  {
    var n := |q| - 1;
    var q' := q[k := e];
    if k < n {
      OccurrencesUpdate(q[..n], k, e, x);
      assert q'[..n] == q[..n][k := e];
      assert q'[n] == q[n];
    } else {
      assert q'[..n] == q[..n];
    }
  }

  lemma {:induction false} OccurrencesAppend(q: seq<Entry>, e: Entry, x: Habit)
    ensures Occurrences(q + [e], x) == Occurrences(q, x) + EntryOccurrences(e, x)
  {
    assert (q + [e])[..|q|] == q;
  }

  /** Every habit is in the queue exactly as often as in the input, so no
      habit is dropped or shown twice. */
  lemma {:induction false} QueueKeepsAll(hs: seq<Habit>, x: Habit)
    ensures Occurrences(Queue(hs), x) == multiset(hs)[x]
  {
    if hs != [] {
      var init := hs[..|hs| - 1];
      var h := hs[|hs| - 1];
      var q := Queue(init);
      assert hs == init + [h];
      assert multiset(hs)[x] == multiset(init)[x] + (if h == x then 1 else 0);
      QueueKeepsAll(init, x);
      if Chained(h) {
        var p := FindChain(q, ChainId(h));
        if p.Some? {
          var e := Chain(ChainId(h), q[p.value].items + [h]);
          assert multiset(e.items) == multiset(q[p.value].items) + multiset{h};
          OccurrencesUpdate(q, p.value, e, x);
        } else {
          OccurrencesAppend(q, Chain(ChainId(h), [h]), x);
        }
      } else {
        OccurrencesAppend(q, Single(h), x);
      }
    }
  }

  /** The loop of `renderHabitBar` over `habits`, with `groupMap` keeping
      the position of each chain's entry. */
  method BuildRenderQueue(hs: seq<Habit>) returns (queue: seq<Entry>)
    ensures queue == Queue(hs)
  {
    queue := [];
    var groupMap: map<int, nat> := map[];
    for i := 0 to |hs|
      invariant queue == Queue(hs[..i])
      invariant Indexes(groupMap, queue)
    {
      assert hs[..i + 1][..i] == hs[..i];
      QueueWellFormed(hs[..i]);
      queue, groupMap := Enqueue(queue, groupMap, hs[i]);
    }
    assert hs[..|hs|] == hs;
  }

  /** `groupMap` gives the position of every chain entry of the queue. */
  ghost predicate Indexes(m: map<int, nat>, q: seq<Entry>) {
    && (forall g :: g in m <==> FindChain(q, g).Some?)
    && (forall g :: g in m ==> m[g] < |q| && q[m[g]].Chain? && q[m[g]].gid == g)
  }

  /** The body of the `renderHabitBar` loop for one habit. */
  method Enqueue(q: seq<Entry>, m: map<int, nat>, h: Habit) returns (q2: seq<Entry>, m2: map<int, nat>)
    requires WellFormed(q) && Indexes(m, q)
    ensures q2 == Enqueued(q, h) && Indexes(m2, q2)
  {
    q2, m2 := q, m;
    if Chained(h) {
      var g := ChainId(h);
      if g in m {
        var pos := m[g];
        assert FindChain(q, g) == Some(pos);
        q2 := q[pos := Chain(g, q[pos].items + [h])];
      } else {
        m2 := m[g := |q|];
        q2 := q + [Chain(g, [h])];
      }
    } else {
      q2 := q + [Single(h)];
    }
    forall g ensures g in m2 <==> FindChain(q2, g).Some? {
      if g in m2 {
        assert q2[m2[g]].Chain? && q2[m2[g]].gid == g;
      }
    }
  }

  datatype RenderedEntry = Alone(capsule: Capsule) | ChainBox(capsules: seq<Capsule>)

  /** What `renderHabitBar` puts in the container: the add button alone
      for no habits, otherwise the mark-all button for the date and the
      entries. */
  datatype Bar = AddButtonOnly | Strip(markAllDate: string, entries: seq<RenderedEntry>)

  function RenderEntry(e: Entry, date: string): RenderedEntry {
    match e
    case Single(h) => Alone(RenderCapsule(h, date, false))
    case Chain(_, items) =>
      ChainBox(seq(|items|, k requires 0 <= k < |items| => RenderCapsule(items[k], date, true)))
  }

  /** `renderHabitBar`: an empty list shows only the add button; otherwise
      each queue entry is rendered in order, chained capsules inside their
      chain box. */
  method RenderHabitBar(hs: seq<Habit>, date: string) returns (bar: Bar)
    ensures hs == [] <==> bar == AddButtonOnly
    ensures hs != [] ==> bar == Strip(date, seq(|Queue(hs)|, k requires 0 <= k < |Queue(hs)| => RenderEntry(Queue(hs)[k], date)))
  {
    if |hs| == 0 {
      return AddButtonOnly;
    }
    var queue := BuildRenderQueue(hs);
    var entries: seq<RenderedEntry> := [];
    for k := 0 to |queue|
      invariant entries == seq(k, j requires 0 <= j < k => RenderEntry(queue[j], date))
    {
      entries := entries + [RenderEntry(queue[k], date)];
    }
    bar := Strip(date, entries);
  }

  // ---------------------------------------------------------------------
  // Chains in the settings panel
  // ---------------------------------------------------------------------

  /** The ids of the chains, in order of first appearance. */
  function ChainIds(hs: seq<Habit>): (r: seq<int>)
    ensures forall g :: g in r <==> Members(hs, g) != []
    ensures forall g :: g in r ==> g != 0
  {
    if hs == [] then []
    else
      var init := hs[..|hs| - 1];
      var h := hs[|hs| - 1];
      var r := ChainIds(init);
      if Chained(h) && ChainId(h) !in r then r + [ChainId(h)] else r
  }

  lemma {:induction false} ChainIdsDistinct(hs: seq<Habit>)
    ensures Distinct(ChainIds(hs))
  {
    if hs != [] {
      ChainIdsDistinct(hs[..|hs| - 1]);
    }
  }

  /** A `group_id: 0` update for one habit. */
  datatype Update = Update(habitId: int, groupId: int)

  /** `group_id: 0` updates for the given habits, in order. */
  function ZeroUpdates(ms: seq<Habit>): (r: seq<Update>)
    ensures |r| == |ms| && forall k :: 0 <= k < |ms| ==> r[k] == Update(ms[k].id, 0)
  {
    seq(|ms|, k requires 0 <= k < |ms| => Update(ms[k].id, 0))
  }

  /** The updates `autoDissolveChains` issues for the chains `gids`: the
      members of each chain with fewer than two members, chain by chain. */
  function Dissolved(hs: seq<Habit>, gids: seq<int>): seq<Update> {
    if gids == [] then []
    else
      var n := |gids| - 1;
      var ms := Members(hs, gids[n]);
      Dissolved(hs, gids[..n]) + (if |ms| < 2 then ZeroUpdates(ms) else [])
  }

  /** A habit `autoDissolveChains` moves out of its chain: one in a chain
      of fewer than two members. */
  ghost predicate Doomed(hs: seq<Habit>, h: Habit) {
    h in hs && Chained(h) && |Members(hs, ChainId(h))| < 2
  }

  /** An update is issued exactly for the habits of the listed chains that
      have fewer than two members; larger chains are left alone. */
  lemma {:induction false} DissolvedSpec(hs: seq<Habit>, gids: seq<int>, u: Update)
    ensures u in Dissolved(hs, gids) <==>
      exists h :: Doomed(hs, h) && ChainId(h) in gids && u == Update(h.id, 0)
  {
    if gids != [] {
      var n := |gids| - 1;
      var g := gids[n];
      var ms := Members(hs, g);
      assert gids == gids[..n] + [g];
      DissolvedSpec(hs, gids[..n], u);
      assert u in Dissolved(hs, gids) <==>
        u in Dissolved(hs, gids[..n]) || (|ms| < 2 && u in ZeroUpdates(ms));
      assert (|ms| < 2 && u in ZeroUpdates(ms)) <==> exists h :: Doomed(hs, h) && ChainId(h) == g && u == Update(h.id, 0) by {
        ChainUpdates(hs, g, u);
      }
    }
  }

  /** The updates for chain `g` when it is dissolved. */
  lemma ChainUpdates(hs: seq<Habit>, g: int, u: Update)
    ensures (|Members(hs, g)| < 2 && u in ZeroUpdates(Members(hs, g))) <==>
      exists h :: Doomed(hs, h) && ChainId(h) == g && u == Update(h.id, 0)
  {
    var ms := Members(hs, g);
    MembersSpec(hs, g);
    if |ms| < 2 && u in ZeroUpdates(ms) {
      var k :| 0 <= k < |ms| && u == ZeroUpdates(ms)[k];
      assert ms[k] in ms;
      assert Doomed(hs, ms[k]) && ChainId(ms[k]) == g;
    }
    if exists h :: Doomed(hs, h) && ChainId(h) == g && u == Update(h.id, 0) {
      var h :| Doomed(hs, h) && ChainId(h) == g && u == Update(h.id, 0);
      assert h in ms;
      var k :| 0 <= k < |ms| && ms[k] == h;
      assert ZeroUpdates(ms)[k] == u;
    }
  }

  /** Over all chains: an update is issued exactly for the doomed habits. */
  lemma DissolvedAll(hs: seq<Habit>, u: Update)
    ensures u in Dissolved(hs, ChainIds(hs)) <==> exists h :: Doomed(hs, h) && u == Update(h.id, 0)
  {
    DissolvedSpec(hs, ChainIds(hs), u);
    if exists h :: Doomed(hs, h) && u == Update(h.id, 0) {
      var h :| Doomed(hs, h) && u == Update(h.id, 0);
      MembersSpec(hs, ChainId(h));
      assert h in Members(hs, ChainId(h));
    }
  }

  /** The inner loop of `autoDissolveChains`: one update per member. */
  method MoveOut(members: seq<Habit>) returns (updates: seq<Update>)
    ensures updates == ZeroUpdates(members)
  {
    updates := [];
    for j := 0 to |members|
      invariant updates == ZeroUpdates(members[..j])
    {
      updates := updates + [Update(members[j].id, 0)];
    }
  }

  /** The loops of `autoDissolveChains` over the chains and their members. */
  method DissolveUpdates(hs: seq<Habit>) returns (updates: seq<Update>)
    ensures updates == Dissolved(hs, ChainIds(hs))
    ensures forall u :: u in updates <==> exists h :: Doomed(hs, h) && u == Update(h.id, 0)
  {
    var gids := ChainIds(hs);
    updates := [];
    for k := 0 to |gids|
      invariant updates == Dissolved(hs, gids[..k])
    {
      var members := Members(hs, gids[k]);
      assert gids[..k + 1][..k] == gids[..k];
      if |members| < 2 {
        var more := MoveOut(members);
        updates := updates + more;
      }
    }
    assert gids[..|gids|] == gids;
    forall u ensures u in updates <==> exists h :: Doomed(hs, h) && u == Update(h.id, 0) {
      DissolvedAll(hs, u);
    }
  }

  /** One chain tray of the settings panel: its id, its members and
      whether it carries the `empty-chain` class. */
  datatype Tray = Tray(gid: int, members: seq<Habit>, empty: bool)

  /** The settings panel: chain trays, then the single habits. */
  datatype Settings = Settings(trays: seq<Tray>, singles: seq<Habit>)

  /** The `addHabit` request body. */
  datatype NewHabit = NewHabit(title: string, color: string, groupId: int)

  function Without(s: seq<int>, g: int): (r: seq<int>)
    ensures forall x :: x in r <==> x in s && x != g
    ensures |r| <= |s|
  {
    if s == [] then [] else Without(s[..|s| - 1], g) + (if s[|s| - 1] == g then [] else [s[|s| - 1]])
  }

  function WithoutAll(s: seq<int>, gs: seq<int>): (r: seq<int>)
    ensures forall x :: x in r <==> x in s && x !in gs
    ensures |r| <= |s|
  {
    if s == [] then [] else WithoutAll(s[..|s| - 1], gs) + (if s[|s| - 1] in gs then [] else [s[|s| - 1]])
  }

  /** The chain trays of the settings panel for the ids `gids`. */
  function TraysFor(hs: seq<Habit>, gids: seq<int>): (trays: seq<Tray>)
    ensures |trays| == |gids|
    ensures forall k :: 0 <= k < |gids| ==>
      (trays[k].gid == gids[k] && trays[k].members == Members(hs, gids[k])
       && (trays[k].empty <==> trays[k].members == []))
  {
    seq(|gids|, k requires 0 <= k < |gids| =>
      Tray(gids[k], Members(hs, gids[k]), Members(hs, gids[k]) == []))
  }

  /** The loop of `renderHabitSettingsList` over the chain ids. */
  method BuildTrays(hs: seq<Habit>, gids: seq<int>) returns (trays: seq<Tray>)
    ensures trays == TraysFor(hs, gids)
  {
    trays := [];
    for k := 0 to |gids|
      invariant trays == TraysFor(hs, gids[..k])
    {
      var members := Members(hs, gids[k]);
      trays := trays + [Tray(gids[k], members, members == [])];
    }
    assert gids[..|gids|] == gids;
  }

  /** The listed chain ids never repeat: the chains with members are
      distinct, and the pending ones that survive the filter have none. */
  lemma TrayIdsDistinct(hs: seq<Habit>, pending: seq<int>)
    requires |pending| <= 1
    requires forall g :: g in pending ==> g !in ChainIds(hs)
    ensures Distinct(ChainIds(hs) + pending)
  {
    var gids := ChainIds(hs);
    ChainIdsDistinct(hs);
    var all := gids + pending;
    forall j, k | 0 <= j < k < |all| ensures all[j] != all[k] {
      if k >= |gids| {
        assert all[k] in pending;
        if j < |gids| {
          assert all[j] in gids;
        }
      }
    }
  }

  /** The module state of habit_mod.js: the habits last fetched and the
      pending empty chains. */
  class HabitPanel {
    var currentHabits: seq<Habit>
    var tempEmptyGroups: seq<int>

    /** At most one empty chain is ever pending. */
    ghost predicate Valid()
      reads this
    {
      |tempEmptyGroups| <= 1
    }

    constructor()
      ensures Valid() && currentHabits == [] && tempEmptyGroups == []
    {
      currentHabits := [];
      tempEmptyGroups := [];
    }

    /** `refreshData` and a successful `initHabits`: keep the fetched list.
        `refreshData` goes on to draw the settings list, so there it is
        `Refresh` followed by `SettingsList`, whose filter then drops the
        pending chains that have members (as `DeleteGroup` does). */
    method Refresh(fetched: seq<Habit>)
      requires Valid()
      modifies this
      ensures Valid()
      ensures currentHabits == fetched && tempEmptyGroups == old(tempEmptyGroups)
    {
      currentHabits := fetched;
    }

    /** `renderHabitSettingsList`: pending empty chains that now have
        members are dropped; each chain id is listed once, the chains with
        members first in order of appearance, and a tray is marked empty
        exactly when it has no members. */
    method SettingsList() returns (view: Settings)
      requires Valid()
      modifies this
      ensures Valid()
      ensures currentHabits == old(currentHabits)
      ensures tempEmptyGroups == WithoutAll(old(tempEmptyGroups), ChainIds(currentHabits))
      ensures view == Settings(TraysFor(currentHabits, ChainIds(currentHabits) + tempEmptyGroups),
                               Unchained(currentHabits))
      ensures Distinct(ChainIds(currentHabits) + tempEmptyGroups)
    {
      var gids := ChainIds(currentHabits);
      tempEmptyGroups := WithoutAll(tempEmptyGroups, gids);
      TrayIdsDistinct(currentHabits, tempEmptyGroups);
      var trays := BuildTrays(currentHabits, gids + tempEmptyGroups);
      view := Settings(trays, Unchained(currentHabits));
    }

    /** `closeHabitSettings` / `autoDissolveChains`: every member of a
        chain with fewer than two members is moved out of its chain. When
        anything was sent and every update succeeded, the list is fetched
        again (`reload`). The pending empty chains are forgotten only when
        the function runs to its end: nothing was sent, or the updates and
        the fetch both succeeded. A rejected update (`updatesOk` false) or
        fetch (`reloaded` is `None`) leaves the panel as it was. */
    method AutoDissolve(updatesOk: bool, reloaded: Option<seq<Habit>>) returns (updates: seq<Update>, reload: bool)
      requires Valid()
      modifies this
      ensures Valid()
      ensures forall u :: u in updates <==> exists h :: Doomed(old(currentHabits), h) && u == Update(h.id, 0)
      ensures reload <==> updates != [] && updatesOk
      ensures currentHabits == (if reload && reloaded.Some? then reloaded.value else old(currentHabits))
      ensures tempEmptyGroups == (if updates == [] || (reload && reloaded.Some?) then [] else old(tempEmptyGroups))
    {
      updates := DissolveUpdates(currentHabits);
      reload := |updates| > 0 && updatesOk;
      if |updates| > 0 {
        if !updatesOk || reloaded.None? {
          return;
        }
        currentHabits := reloaded.value;
      }
      tempEmptyGroups := [];
    }

    /** `handleAddGroup`: a new empty chain is added only when none is
        pending. Then the settings list is drawn again, the new chain last
        as an empty tray; otherwise the list on screen stays as it was
        (`None`: nothing is drawn). */
    method AddGroup(now: int) returns (view: Option<Settings>)
      requires Valid()
      modifies this
      ensures Valid()
      ensures currentHabits == old(currentHabits)
      ensures old(tempEmptyGroups) != [] ==> tempEmptyGroups == old(tempEmptyGroups) && view == None
      ensures old(tempEmptyGroups) == [] ==>
        && tempEmptyGroups == WithoutAll([now], ChainIds(currentHabits))
        && view == Some(Settings(TraysFor(currentHabits, ChainIds(currentHabits) + tempEmptyGroups),
                                 Unchained(currentHabits)))
      ensures old(tempEmptyGroups) == [] && now !in ChainIds(currentHabits) ==>
        view.Some? && |view.value.trays| > 0 && view.value.trays[|view.value.trays| - 1] == Tray(now, [], true)
    {
      if |tempEmptyGroups| > 0 {
        return None;
      }
      tempEmptyGroups := [now] + tempEmptyGroups;
      var v := SettingsList();
      view := Some(v);
    }

    /** `handleDeleteGroup`: every habit whose `group_id` equals `gid` is
        moved out of the chain. Once all updates succeed (always, when
        there are none, since `Promise.all([])` resolves), `gid` is no
        longer pending and `refreshData` runs: `Refresh` with the fetched
        list, then `SettingsList`, whose filter drops pending chains that
        now have members. A rejected update stops before any of this; a
        rejected fetch (`fetched` is `None`) stops after the filter. */
    method DeleteGroup(gid: int, updatesOk: bool, fetched: Option<seq<Habit>>)
      returns (updates: seq<Update>, view: Option<Settings>)
      requires Valid()
      modifies this
      ensures Valid()
      ensures updates == ZeroUpdates(InGroup(old(currentHabits), gid))
      ensures !updatesOk && updates != [] ==>
        tempEmptyGroups == old(tempEmptyGroups) && currentHabits == old(currentHabits) && view == None
      ensures (updatesOk || updates == []) && fetched.None? ==>
        tempEmptyGroups == Without(old(tempEmptyGroups), gid) && currentHabits == old(currentHabits) && view == None
      ensures (updatesOk || updates == []) && fetched.Some? ==>
        && currentHabits == fetched.value
        && tempEmptyGroups == WithoutAll(Without(old(tempEmptyGroups), gid), ChainIds(currentHabits))
        && view == Some(Settings(TraysFor(currentHabits, ChainIds(currentHabits) + tempEmptyGroups),
                                 Unchained(currentHabits)))
    {
      var members := InGroup(currentHabits, gid);
      updates := [];
      for k := 0 to |members|
        invariant updates == ZeroUpdates(members[..k])
      {
        assert ZeroUpdates(members[..k + 1]) == ZeroUpdates(members[..k]) + [Update(members[k].id, 0)];
        updates := updates + [Update(members[k].id, 0)];
      }
      assert members[..|members|] == members;
      if !updatesOk && updates != [] {
        return updates, None;
      }
      tempEmptyGroups := Without(tempEmptyGroups, gid);
      if fetched.None? {
        return updates, None;
      }
      Refresh(fetched.value);
      var v := SettingsList();
      view := Some(v);
    }
  }

  /** `currentHabits.filter(h => h.group_id == gid)`. */
  function InGroup(hs: seq<Habit>, gid: int): seq<Habit> {
    if hs == [] then []
    else InGroup(hs[..|hs| - 1], gid) + (if hs[|hs| - 1].groupId == Some(gid) then [hs[|hs| - 1]] else [])
  }

  /** For a chain id the filter picks exactly the chain's members, so
      deleting a chain releases all of them and nothing else. */
  lemma {:induction false} InGroupIsChain(hs: seq<Habit>, gid: int)
    requires gid != 0
    ensures InGroup(hs, gid) == Members(hs, gid)
  {
    if hs != [] {
      InGroupIsChain(hs[..|hs| - 1], gid);
    }
  }

  /** `handleAddHabit`: a blank title sends nothing; otherwise the trimmed
      title is sent outside any chain. */
  function AddHabit(title: string, color: string): (r: Option<NewHabit>)
    ensures r.None? <==> Trim(title) == ""
    ensures r.Some? ==> r.value.title == Trim(title) && r.value.groupId == 0 && r.value.color == color
  {
    if Trim(title) == "" then None else Some(NewHabit(Trim(title), color, 0))
  }
}
