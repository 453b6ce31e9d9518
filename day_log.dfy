/** The daily-log page of static/js/app.js: the list of task cards with
    their tag capsules, the save payload, the card moves of `toggleDone`
    and the auto-save state machine over `isLoading`, `isModified`, the
    save timer and the status indicator. Network calls are returned as
    `Request` values and their outcomes are parameters; the timer is an
    explicit event. */
module DayLog {
  import opened Common

  const SAVE_DELAY := 1200

  datatype Status = Ready | Editing | Saving | Synced | SyncedFaded | Failed

  /** One `.task-card`: its `data-id`, the title input, the tag capsules,
      the ghost tag input, the notes textarea and the `completed` class. */
  datatype Card = Card(
    id: string,
    title: string,
    capsules: seq<string>,
    tagInput: string,
    content: string,
    completed: bool)

  /** One element of the `items` array posted to `/save-log`. */
  datatype PayloadItem = PayloadItem(itemId: string, title: string, tags: string, content: string, isDone: bool)

  /** One item of a `/get-log` response. */
  datatype LoadedItem = LoadedItem(
    itemId: Option<string>,
    title: string,
    content: string,
    isDone: bool,
    tags: Option<string>)

  datatype LogResponse =
    | LogItems(items: seq<LoadedItem>)   // status "success"
    | LogNotSuccess
    | LogThrew                           // network error or bad JSON

  /** `apiSaveLog` resolves to `res.ok`, or throws. */
  datatype SaveOutcome = SaveOk | SaveRejected | SaveThrew

  datatype Request = SaveLog(date: string, items: seq<PayloadItem>) | GetLog(date: string)

  datatype Key = Space | Enter | Backspace | OtherKey

  /** A tag container after a key press or blur, and whether it asked for
      an auto-save. */
  datatype TagEdit = TagEdit(capsules: seq<string>, input: string, autosave: bool)

  // ---------------------------------------------------------------------
  // Tag capsules
  // ---------------------------------------------------------------------

  /** What a capsule list may hold: no duplicates, nothing blank. */
  ghost predicate GoodCapsules(caps: seq<string>) {
    Distinct(caps) && forall k :: 0 <= k < |caps| ==> Trim(caps[k]) != ""
  }

  /** `createTagCapsule`: blank text and text already present add nothing;
      anything else goes after the existing capsules. */
  function AddCapsule(caps: seq<string>, text: string): (r: seq<string>)
    ensures r == caps || r == caps + [text]
    ensures |r| == |caps| + 1 <==> Trim(text) != "" && text !in caps
    ensures GoodCapsules(caps) ==> GoodCapsules(r)
  {
    if Trim(text) == "" || text in caps then caps else caps + [text]
  }

  /** `handleTagInput`. Space or Enter turns the trimmed input into a
      capsule and clears the input; Backspace on an empty input removes
      the last capsule. */
  function TagKey(caps: seq<string>, input: string, key: Key): (r: TagEdit)
    ensures (key == Space || key == Enter) && Trim(input) != "" ==>
      r == TagEdit(AddCapsule(caps, Trim(input)), "", true)
    ensures key == Backspace && input == "" && |caps| > 0 ==>
      r == TagEdit(caps[..|caps| - 1], input, true)
    ensures (!((key == Space || key == Enter) && Trim(input) != "")
             && !(key == Backspace && input == "" && |caps| > 0)) ==>
      r == TagEdit(caps, input, false)
    ensures GoodCapsules(caps) ==> GoodCapsules(r.capsules)
  {
    var val := Trim(input);
    if key == Space || key == Enter then
      if val != "" then
        TrimIdempotent(input);
        TagEdit(AddCapsule(caps, val), "", true)
      else TagEdit(caps, input, false)
    else if key == Backspace && input == "" && |caps| > 0 then
      TagEdit(caps[..|caps| - 1], input, true)
    else TagEdit(caps, input, false)
  }

  /** `handleTagBlur`: a non-blank input becomes a capsule and is cleared. */
  function TagBlur(caps: seq<string>, input: string): (r: TagEdit)
    ensures Trim(input) != "" ==> r == TagEdit(AddCapsule(caps, Trim(input)), "", true)
    ensures Trim(input) == "" ==> r == TagEdit(caps, input, false)
    ensures GoodCapsules(caps) ==> GoodCapsules(r.capsules)
  {
    if Trim(input) != "" then TagEdit(AddCapsule(caps, Trim(input)), "", true)
    else TagEdit(caps, input, false)
  }

  /** The `forEach(createTagCapsule)` over the split tag string. */
  function AddAll(caps: seq<string>, parts: seq<string>): seq<string>
    decreases |parts|
  {
    if parts == [] then caps else AddAll(AddCapsule(caps, parts[0]), parts[1..])
  }

  /** The capsules `addNewItem` builds from a stored tag string. */
  function CapsulesFromTags(tags: string): seq<string> {
    if tags == "" then [] else AddAll([], Split(tags, ' '))
  }

  /** The capsule loop of `addNewItem`: one `createTagCapsule` per
      space-separated piece of the stored tag string. */
  method BuildCapsules(tags: string) returns (caps: seq<string>)
    ensures caps == CapsulesFromTags(tags)
    ensures GoodCapsules(caps)
  {
    caps := [];
    if tags != "" {
      var parts := Split(tags, ' ');
      for k := 0 to |parts|
        invariant AddAll(caps, parts[k..]) == AddAll([], parts)
      {
        AddAllStep(caps, parts, k);
        caps := AddCapsule(caps, parts[k]);
      }
      assert parts[|parts|..] == [];
      AddAllGood([], parts);
    }
  }

  lemma {:induction false} AddAllGood(caps: seq<string>, parts: seq<string>)
    requires GoodCapsules(caps)
    ensures GoodCapsules(AddAll(caps, parts))
    decreases |parts|
  {
    if parts != [] {
      AddAllGood(AddCapsule(caps, parts[0]), parts[1..]);
    }
  }

  lemma AddAllStep(caps: seq<string>, parts: seq<string>, k: nat)
    requires k < |parts|
    ensures AddAll(caps, parts[k..]) == AddAll(AddCapsule(caps, parts[k]), parts[k + 1..])
  {
    assert parts[k..][1..] == parts[k + 1..];
  }

  /** The tag string `saveToBackend` sends for a card. */
  function TagString(caps: seq<string>): string {
    Join(caps, ' ')
  }

  lemma {:induction false} AddAllKeeps(caps: seq<string>, parts: seq<string>)
    requires GoodCapsules(caps + parts)
    ensures AddAll(caps, parts) == caps + parts
    decreases |parts|
  {
    if parts != [] {
      var p := parts[0];
      assert (caps + parts)[|caps|] == p;
      assert Trim(p) != "";
      assert p !in caps by {
        forall k | 0 <= k < |caps| ensures caps[k] != p {
          assert (caps + parts)[k] == caps[k];
        }
      }
      assert caps + parts == (caps + [p]) + parts[1..];
      AddAllKeeps(caps + [p], parts[1..]);
    }
  }

  /** Saving and reloading a card gives back its capsules, provided none
      of them contains a space. */
  lemma TagsRoundTrip(caps: seq<string>)
    requires GoodCapsules(caps)
    requires forall k :: 0 <= k < |caps| ==> ' ' !in caps[k]
    ensures CapsulesFromTags(TagString(caps)) == caps
  {
    if |caps| > 0 {
      SplitJoin(caps, ' ');
      assert Trim(caps[0]) != "";
      assert TagString(caps) != "" by {
        if |caps| == 1 {
          assert TagString(caps) == caps[0];
        } else {
          assert TagString(caps)[|caps[0]|] == ' ';
        }
      }
      AddAllKeeps([], caps);
    }
  }

  /** `createTagCapsule` over split pieces only ever adds pieces. */
  lemma {:induction false} AddAllFrom(caps: seq<string>, parts: seq<string>, c: string)
    requires c in AddAll(caps, parts)
    ensures c in caps || c in parts
    decreases |parts|
  {
    if parts != [] {
      AddAllFrom(AddCapsule(caps, parts[0]), parts[1..], c);
    }
  }

  /** A capsule holding a space does not survive a save and reload: the
      reloaded capsules are pieces of the tag string split on spaces. So
      the condition of `TagsRoundTrip` cannot be dropped. */
  lemma SpacedCapsuleLost(caps: seq<string>, k: nat)
    requires k < |caps| && ' ' in caps[k]
    ensures caps[k] !in CapsulesFromTags(TagString(caps))
  {
    var tags := TagString(caps);
    if tags != "" && caps[k] in CapsulesFromTags(tags) {
      AddAllFrom([], Split(tags, ' '), caps[k]);
    }
  }

  /** Such a capsule is easy to make: a pasted "a b" blurred out of the tag
      input is trimmed at its ends only and becomes one capsule, which the
      reload turns into "a" and "b". */
  lemma PastedTagSplits()
    ensures TagBlur([], "a b").capsules == ["a b"]
    ensures CapsulesFromTags(TagString(["a b"])) == ["a", "b"]
  {
    TrimKeeps("a b");
    PastedTagReload();
  }

  lemma PastedTagReload()
    ensures CapsulesFromTags("a b") == ["a", "b"]
  {
    SplitAtSpace();
    TrimKeeps("a");
    TrimKeeps("b");
    var parts := ["a", "b"];
    assert parts[1..] == ["b"];
    assert AddAll([], parts) == AddAll(["a"], ["b"]);
  }

  lemma SplitAtSpace()
    ensures Split("a b", ' ') == ["a", "b"]
  {
    assert IndexOf("a b", ' ') == 1;
    assert "a b"[..1] == "a" && "a b"[2..] == "b";
    assert ' ' !in "b";
  }

  // ---------------------------------------------------------------------
  // The save payload
  // ---------------------------------------------------------------------

  function ToPayload(c: Card): PayloadItem {
    PayloadItem(c.id, Trim(c.title), TagString(c.capsules), Trim(c.content), c.completed)
  }

  /** The `items` of `saveToBackend`: cards in order, blank titles dropped. */
  function Payload(cards: seq<Card>): seq<PayloadItem> {
    if cards == [] then []
    else
      var c := cards[|cards| - 1];
      Payload(cards[..|cards| - 1]) + (if Trim(c.title) != "" then [ToPayload(c)] else [])
  }

  /** The payload of two runs of cards is the two payloads in order. */
  lemma {:induction false} PayloadAppend(a: seq<Card>, b: seq<Card>)
    ensures Payload(a + b) == Payload(a) + Payload(b)
    decreases |b|
  {
    if b != [] {
      var n := |b| - 1;
      var last := if Trim(b[n].title) != "" then [ToPayload(b[n])] else [];
      assert (a + b)[..|a + b| - 1] == a + b[..n];
      assert (a + b)[|a + b| - 1] == b[n];
      assert Payload(a + b) == Payload(a + b[..n]) + last;
      assert Payload(b) == Payload(b[..n]) + last;
      PayloadAppend(a, b[..n]);
    } else {
      assert a + b == a;
    }
  }

  /** An item is sent exactly for each card with a non-blank title, and
      every item sent has a non-blank title. */
  lemma {:induction false} PayloadSpec(cards: seq<Card>)
    ensures forall p :: p in Payload(cards) <==>
      exists c :: c in cards && Trim(c.title) != "" && p == ToPayload(c)
    ensures forall p :: p in Payload(cards) ==> p.title != ""
  {
    if cards != [] {
      var init := cards[..|cards| - 1];
      var c := cards[|cards| - 1];
      var last := if Trim(c.title) != "" then [ToPayload(c)] else [];
      assert cards == init + [c];
      assert Payload(cards) == Payload(init) + last;
      PayloadSpec(init);
      forall p ensures p in Payload(cards) <==>
        exists d :: d in cards && Trim(d.title) != "" && p == ToPayload(d)
      {
        if p in Payload(cards) && p !in Payload(init) {
          assert c in cards && Trim(c.title) != "" && p == ToPayload(c);
        }
        if exists d :: d in cards && Trim(d.title) != "" && p == ToPayload(d) {
          var d :| d in cards && Trim(d.title) != "" && p == ToPayload(d);
          if d != c {
            assert d in init;
          }
        }
      }
      forall p | p in Payload(cards) ensures p.title != "" {
        var d :| d in cards && Trim(d.title) != "" && p == ToPayload(d);
      }
    }
  }

  /** With no blank titles every card is sent, in order. */
  lemma {:induction false} PayloadKeepsAll(cards: seq<Card>)
    requires forall k :: 0 <= k < |cards| ==> Trim(cards[k].title) != ""
    ensures |Payload(cards)| == |cards|
    ensures forall k :: 0 <= k < |cards| ==> Payload(cards)[k] == ToPayload(cards[k])
  {
    if cards != [] {
      var init := cards[..|cards| - 1];
      var c := cards[|cards| - 1];
      var p := Payload(init);
      assert Payload(cards) == p + [ToPayload(c)];
      assert |p| == |init| && forall k :: 0 <= k < |init| ==> p[k] == ToPayload(init[k]) by {
        forall k | 0 <= k < |init| ensures Trim(init[k].title) != "" {
          assert init[k] == cards[k];
        }
        PayloadKeepsAll(init);
      }
      forall k | 0 <= k < |cards| ensures Payload(cards)[k] == ToPayload(cards[k]) {
        if k < |init| {
          assert cards[k] == init[k];
        }
      }
    }
  }

  // ---------------------------------------------------------------------
  // The fallback UUID
  // ---------------------------------------------------------------------

  const UUID_TEMPLATE := "xxxxxxxx-xxxx-4xxx-yxxx-xxxxxxxxxxxx"

  function HexDigit(v: nat): (c: char)
    requires v < 16
    ensures c in "0123456789abcdef"
  {
    "0123456789abcdef"[v]
  }

  /** `template.replace(/[xy]/g, ...)`: each `x` becomes a random nibble,
      each `y` becomes `r & 0x3 | 0x8`, which for `r < 16` is `r % 4 + 8`.
      The draws are indexed by template position; those at the fixed
      characters go unused. */
  function Fill(t: string, draws: seq<nat>): (r: string)
    requires |draws| == |t|
    requires forall k :: 0 <= k < |draws| ==> draws[k] < 16
    ensures |r| == |t|
    ensures forall k :: 0 <= k < |t| ==>
      if t[k] == 'x' then r[k] in "0123456789abcdef"
      else if t[k] == 'y' then r[k] in "89ab"
      else r[k] == t[k]
  {
    seq(|t|, k requires 0 <= k < |t| =>
      if t[k] == 'x' then HexDigit(draws[k])
      else if t[k] == 'y' then
        var d := HexDigit(draws[k] % 4 + 8);
        assert d == "0123456789abcdef"[draws[k] % 4 + 8];
        d
      else t[k])
  }

  /** `generateUUID`: the platform's `crypto.randomUUID` when there is one,
      otherwise the template filled from random nibbles. */
  function GenerateUuid(native: Option<string>, draws: seq<nat>): string
    requires |draws| == |UUID_TEMPLATE|
    requires forall k :: 0 <= k < |draws| ==> draws[k] < 16
  {
    if native.Some? then native.value else Fill(UUID_TEMPLATE, draws)
  }

  /** The fallback has the 8-4-4-4-12 layout of section 4.4 of RFC 4122:
      lower-case hex digits and hyphens, version digit `4`, variant digit
      one of `8`, `9`, `a`, `b`. */
  lemma UuidLayout(draws: seq<nat>)
    requires |draws| == |UUID_TEMPLATE|
    requires forall k :: 0 <= k < |draws| ==> draws[k] < 16
    ensures var u := GenerateUuid(None, draws);
      && |u| == 36
      && u[8] == '-' && u[13] == '-' && u[18] == '-' && u[23] == '-'
      && u[14] == '4'
      && u[19] in "89ab"
      && forall k :: 0 <= k < 36 && k != 8 && k != 13 && k != 18 && k != 23 ==>
           u[k] in "0123456789abcdef"
  {
    var t := UUID_TEMPLATE;
    var u := Fill(t, draws);
    assert t[8] == '-' && t[13] == '-' && t[18] == '-' && t[23] == '-' && t[14] == '4' && t[19] == 'y';
    forall k | 0 <= k < 36 && k != 8 && k != 13 && k != 18 && k != 23
      ensures u[k] in "0123456789abcdef"
    {
      if k == 14 {
      } else if k == 19 {
        assert u[k] in "89ab";
      } else {
        assert t[k] == 'x';
      }
    }
  }

  // ---------------------------------------------------------------------
  // Cards
  // ---------------------------------------------------------------------

  /** The card `addNewItem` appends. */
  function NewCard(title: string, content: string, isDone: bool, tags: Option<string>,
                   itemId: Option<string>, freshId: string): Card
  {
    var uid := if itemId.Some? && itemId.value != "" then itemId.value else freshId;
    var caps := if tags.Some? then CapsulesFromTags(tags.value) else [];
    Card(uid, title, caps, "", content, isDone)
  }

  /** The cards `loadDateLogs` adds for the loaded items, the `k`-th taking
      `newIds(k)` when the server sent no id. */
  function LoadedCards(items: seq<LoadedItem>, newIds: nat -> string): (r: seq<Card>)
    ensures |r| == |items|
    ensures forall k :: 0 <= k < |items| ==>
      r[k] == NewCard(items[k].title, items[k].content, items[k].isDone, items[k].tags, items[k].itemId, newIds(k))
  {
    seq(|items|, k requires 0 <= k < |items| =>
      NewCard(items[k].title, items[k].content, items[k].isDone, items[k].tags, items[k].itemId, newIds(k)))
  }

  /** The card list after `toggleDone` on card `i`: flipped, and moved to
      the end when now completed or to the front when not. */
  function Toggled(cards: seq<Card>, i: nat): (r: seq<Card>)
    requires i < |cards|
    ensures |r| == |cards|
  {
    var c := cards[i].(completed := !cards[i].completed);
    var rest := cards[..i] + cards[i + 1..];
    if c.completed then rest + [c] else [c] + rest
  }

  /** `toggleDone` moves only the toggled card: the others keep their
      relative order, and every completed card ends up after it or every
      open card before it. */
  lemma ToggledKeepsOthers(cards: seq<Card>, i: nat)
    requires i < |cards|
    ensures var r := Toggled(cards, i);
      var rest := cards[..i] + cards[i + 1..];
      && (cards[i].completed ==> r[0] == cards[i].(completed := false) && r[1..] == rest)
      && (!cards[i].completed ==> r[|r| - 1] == cards[i].(completed := true) && r[..|r| - 1] == rest)
      && multiset(r) == multiset(rest) + multiset{cards[i].(completed := !cards[i].completed)}
  {
    var r := Toggled(cards, i);
    var rest := cards[..i] + cards[i + 1..];
    if cards[i].completed {
      assert r == [cards[i].(completed := false)] + rest;
    } else {
      assert r == rest + [cards[i].(completed := true)];
    }
  }

  /** The list after a drag takes card `from` out and puts it back at
      position `to`. */
  function Reordered(cards: seq<Card>, from: nat, to: nat): (r: seq<Card>)
    requires from < |cards| && to < |cards|
    ensures |r| == |cards| && r[to] == cards[from]
  {
    var rest := cards[..from] + cards[from + 1..];
    rest[..to] + [cards[from]] + rest[to..]
  }

  /** A drag only moves a card: the cards are the same, and the other
      cards keep their relative order. */
  lemma ReorderedIsPermutation(cards: seq<Card>, from: nat, to: nat)
    requires from < |cards| && to < |cards|
    ensures var r := Reordered(cards, from, to);
      && multiset(r) == multiset(cards)
      && r[..to] + r[to + 1..] == cards[..from] + cards[from + 1..]
  {
    var c := cards[from];
    var rest := cards[..from] + cards[from + 1..];
    var r := Reordered(cards, from, to);
    assert cards == cards[..from] + [c] + cards[from + 1..];
    assert multiset(cards) == multiset(rest) + multiset{c};
    assert rest == rest[..to] + rest[to..];
    assert r[..to] == rest[..to];
    assert r[to + 1..] == rest[to..];
  }

  /** Every card after a drag was a card before it. */
  lemma ReorderedFrom(cards: seq<Card>, from: nat, to: nat, k: nat)
    requires from < |cards| && to < |cards| && k < |cards|
    ensures exists j :: 0 <= j < |cards| && Reordered(cards, from, to)[k] == cards[j]
  {
    var rest := cards[..from] + cards[from + 1..];
    var r := Reordered(cards, from, to);
    if k < to {
      assert r[k] == rest[k];
      if k < from { assert r[k] == cards[k]; } else { assert r[k] == cards[k + 1]; }
    } else if k == to {
      assert r[k] == cards[from];
    } else {
      assert r[k] == rest[k - 1];
      if k - 1 < from { assert r[k] == cards[k - 1]; } else { assert r[k] == cards[k]; }
    }
  }

  // ---------------------------------------------------------------------
  // The controller
  // ---------------------------------------------------------------------

  class DayLogPage {
    var cards: seq<Card>
    var isLoading: bool
    var isModified: bool
    var pending: Option<nat>   // the live save timer, by id
    var nextTimer: nat
    var status: Status
    var pickerDate: string     // the value of the date picker
    var loadedDate: string     // the date the cards were loaded for

    ghost predicate Valid()
      reads this
    {
      (pending.Some? ==> pending.value < nextTimer)
      && forall k :: 0 <= k < |cards| ==> GoodCapsules(cards[k].capsules)
    }

    /** `window.onload` before the first load: the picker shows today. */
    constructor(today: string)
      ensures Valid()
      ensures cards == [] && !isLoading && !isModified && pending == None
      ensures status == Ready && pickerDate == today && loadedDate == today
    {
      cards := [];
      isLoading := false;
      isModified := false;
      pending := None;
      nextTimer := 0;
      status := Ready;
      pickerDate := today;
      loadedDate := today;
    }

    /** `triggerAutoSave`: status `editing`, any earlier timer cleared and a
        new one armed, so at most one save is pending. */
    method TriggerAutoSave()
      requires Valid()
      modifies this
      ensures Valid()
      ensures status == Editing
      ensures pending == Some(old(nextTimer)) && old(pending) != pending
      ensures nextTimer == old(nextTimer) + 1
      ensures cards == old(cards) && isLoading == old(isLoading) && isModified == old(isModified)
      ensures pickerDate == old(pickerDate) && loadedDate == old(loadedDate)
    {
      status := Editing;
      pending := Some(nextTimer);
      nextTimer := nextTimer + 1;
    }

    /** An `input` event in card `i` outside the tag input. */
    method EditCard(i: nat, title: string, content: string)
      requires Valid() && i < |cards|
      modifies this
      ensures Valid()
      ensures cards == old(cards)[i := old(cards)[i].(title := title, content := content)]
      ensures isModified && status == Editing && pending == Some(old(nextTimer))
      ensures isLoading == old(isLoading) && pickerDate == old(pickerDate) && loadedDate == old(loadedDate)
    {
      cards := cards[i := cards[i].(title := title, content := content)];
      isModified := true;
      TriggerAutoSave();
    }

    /** Typing in the tag input: the listener skips it, nothing is marked
        modified and no save is scheduled. */
    method TypeTag(i: nat, text: string)
      requires Valid() && i < |cards|
      modifies this
      ensures Valid()
      ensures cards == old(cards)[i := old(cards)[i].(tagInput := text)]
      ensures isModified == old(isModified) && status == old(status) && pending == old(pending)
      ensures nextTimer == old(nextTimer) && isLoading == old(isLoading)
      ensures pickerDate == old(pickerDate) && loadedDate == old(loadedDate)
    {
      cards := cards[i := cards[i].(tagInput := text)];
    }

    /** `handleTagInput` on card `i`. Tag edits schedule a save without
        marking the page modified. */
    method PressTagKey(i: nat, key: Key)
      requires Valid() && i < |cards|
      modifies this
      ensures Valid()
      ensures var e := TagKey(old(cards)[i].capsules, old(cards)[i].tagInput, key);
        && cards == old(cards)[i := old(cards)[i].(capsules := e.capsules, tagInput := e.input)]
        && (e.autosave ==> status == Editing && pending == Some(old(nextTimer)))
        && (!e.autosave ==> status == old(status) && pending == old(pending))
      ensures isModified == old(isModified) && isLoading == old(isLoading)
      ensures pickerDate == old(pickerDate) && loadedDate == old(loadedDate)
    {
      var e := TagKey(cards[i].capsules, cards[i].tagInput, key);
      cards := cards[i := cards[i].(capsules := e.capsules, tagInput := e.input)];
      if e.autosave {
        TriggerAutoSave();
      }
    }

    /** `handleTagBlur` on card `i`. */
    method BlurTag(i: nat)
      requires Valid() && i < |cards|
      modifies this
      ensures Valid()
      ensures var e := TagBlur(old(cards)[i].capsules, old(cards)[i].tagInput);
        && cards == old(cards)[i := old(cards)[i].(capsules := e.capsules, tagInput := e.input)]
        && (e.autosave ==> status == Editing && pending == Some(old(nextTimer)))
        && (!e.autosave ==> status == old(status) && pending == old(pending))
      ensures isModified == old(isModified) && isLoading == old(isLoading)
      ensures pickerDate == old(pickerDate) && loadedDate == old(loadedDate)
    {
      var e := TagBlur(cards[i].capsules, cards[i].tagInput);
      cards := cards[i := cards[i].(capsules := e.capsules, tagInput := e.input)];
      if e.autosave {
        TriggerAutoSave();
      }
    }

    /** The delete mark of capsule `k` on card `i`. */
    method RemoveCapsule(i: nat, k: nat)
      requires Valid() && i < |cards| && k < |cards[i].capsules|
      modifies this
      ensures Valid()
      ensures var caps := old(cards)[i].capsules;
        cards == old(cards)[i := old(cards)[i].(capsules := caps[..k] + caps[k + 1..])]
      ensures status == Editing && pending == Some(old(nextTimer))
      ensures isModified == old(isModified) && isLoading == old(isLoading)
      ensures pickerDate == old(pickerDate) && loadedDate == old(loadedDate)
    {
      var caps := cards[i].capsules;
      var rest := caps[..k] + caps[k + 1..];
      assert forall a :: 0 <= a < |rest| ==> rest[a] == caps[if a < k then a else a + 1];
      cards := cards[i := cards[i].(capsules := caps[..k] + caps[k + 1..])];
      TriggerAutoSave();
    }

    /** `toggleDone` on card `i`. */
    method ToggleDone(i: nat)
      requires Valid() && i < |cards|
      modifies this
      ensures Valid()
      ensures cards == Toggled(old(cards), i)
      ensures isModified && status == Editing && pending == Some(old(nextTimer))
      ensures isLoading == old(isLoading) && pickerDate == old(pickerDate) && loadedDate == old(loadedDate)
    {
      var c := cards[i].(completed := !cards[i].completed);
      var rest := cards[..i] + cards[i + 1..];
      assert forall k :: 0 <= k < |rest| ==> rest[k] == cards[if k < i then k else k + 1];
      if c.completed {
        cards := rest + [c];
      } else {
        cards := [c] + rest;
      }
      isModified := true;
      TriggerAutoSave();
    }

    /** `deleteItem` on card `i`, after the confirmation dialog. */
    method DeleteItem(i: nat, confirmed: bool)
      requires Valid() && i < |cards|
      modifies this
      ensures Valid()
      ensures !confirmed ==> (cards == old(cards) && isModified == old(isModified)
        && status == old(status) && pending == old(pending) && nextTimer == old(nextTimer))
      ensures confirmed ==> (cards == old(cards)[..i] + old(cards)[i + 1..]
        && isModified && status == Editing && pending == Some(old(nextTimer)))
      ensures isLoading == old(isLoading) && pickerDate == old(pickerDate) && loadedDate == old(loadedDate)
    {
      if confirmed {
        var rest := cards[..i] + cards[i + 1..];
        assert forall k :: 0 <= k < |rest| ==> rest[k] == cards[if k < i then k else k + 1];
        cards := rest;
        isModified := true;
        TriggerAutoSave();
      }
    }

    /** A Sortable drag of card `from` to position `to`: the save is
        scheduled but the page is not marked modified. */
    method ReorderCard(from: nat, to: nat)
      requires Valid() && from < |cards| && to < |cards|
      modifies this
      ensures Valid()
      ensures cards == Reordered(old(cards), from, to)
      ensures status == Editing && pending == Some(old(nextTimer))
      ensures isModified == old(isModified) && isLoading == old(isLoading)
      ensures pickerDate == old(pickerDate) && loadedDate == old(loadedDate)
    {
      var r := Reordered(cards, from, to);
      forall k | 0 <= k < |r| ensures GoodCapsules(r[k].capsules) {
        ReorderedFrom(cards, from, to, k);
      }
      cards := r;
      TriggerAutoSave();
    }

    /** `saveToBackend` up to the request: status `saving`; the payload goes
        out under the date the picker shows. */
    method BeginSave() returns (req: Request)
      requires Valid()
      modifies this
      ensures Valid()
      ensures req == SaveLog(old(pickerDate), Payload(old(cards)))
      ensures status == Saving
      ensures cards == old(cards) && isModified == old(isModified) && isLoading == old(isLoading)
      ensures pending == old(pending) && nextTimer == old(nextTimer)
      ensures pickerDate == old(pickerDate) && loadedDate == old(loadedDate)
    {
      status := Saving;
      req := SaveLog(pickerDate, Payload(cards));
    }

    /** `saveToBackend` after the response: success clears `isModified` and
        shows `saved`; failure shows `error` and keeps `isModified`. */
    method EndSave(outcome: SaveOutcome)
      requires Valid()
      modifies this
      ensures Valid()
      ensures outcome == SaveOk ==> !isModified && status == Synced
      ensures outcome != SaveOk ==> isModified == old(isModified) && status == Failed
      ensures cards == old(cards) && isLoading == old(isLoading)
      ensures pending == old(pending) && nextTimer == old(nextTimer)
      ensures pickerDate == old(pickerDate) && loadedDate == old(loadedDate)
    {
      if outcome == SaveOk {
        isModified := false;
        status := Synced;
      } else {
        status := Failed;
      }
    }

    /** Timer `id` fires. A timer that was cleared never runs its callback;
        the live one starts a save. */
    method FireTimer(id: nat) returns (req: Option<Request>)
      requires Valid()
      modifies this
      ensures Valid()
      ensures old(pending) != Some(id) ==> req == None && status == old(status) && pending == old(pending)
      ensures old(pending) == Some(id) ==>
        req == Some(SaveLog(old(pickerDate), Payload(old(cards)))) && status == Saving && pending == None
      ensures cards == old(cards) && isModified == old(isModified) && isLoading == old(isLoading)
      ensures nextTimer == old(nextTimer) && pickerDate == old(pickerDate) && loadedDate == old(loadedDate)
    {
      if pending != Some(id) {
        return None;
      }
      pending := None;
      var r := BeginSave();
      req := Some(r);
    }

    /** The 2-second check after `saved`: the indicator fades only if
        nothing was modified meanwhile and it still reads SYNCED. */
    method FadeCheck()
      requires Valid()
      modifies this
      ensures Valid()
      ensures status == (if !old(isModified) && old(status) == Synced then SyncedFaded else old(status))
      ensures cards == old(cards) && isModified == old(isModified) && isLoading == old(isLoading)
      ensures pending == old(pending) && nextTimer == old(nextTimer)
      ensures pickerDate == old(pickerDate) && loadedDate == old(loadedDate)
    {
      if !isModified && status == Synced {
        status := SyncedFaded;
      }
    }

    /** `loadDateLogs` up to the request: nothing while a load runs;
        otherwise the list shows only the spinner. */
    method StartLoad(date: string) returns (started: bool, req: Option<Request>)
      requires Valid()
      modifies this
      ensures Valid()
      ensures started == !old(isLoading)
      ensures !started ==> req == None && cards == old(cards) && loadedDate == old(loadedDate)
      ensures started ==> req == Some(GetLog(date)) && isLoading && cards == [] && loadedDate == date
      ensures isModified == old(isModified) && status == old(status)
      ensures pending == old(pending) && nextTimer == old(nextTimer) && pickerDate == old(pickerDate)
    {
      if isLoading {
        return false, None;
      }
      isLoading := true;
      cards := [];
      loadedDate := date;
      return true, Some(GetLog(date));
    }

    /** `addNewItem`: one card appended, its capsules built from the tag
        string one `createTagCapsule` at a time. */
    method AddNewItem(title: string, content: string, isDone: bool, tags: Option<string>,
                      itemId: Option<string>, freshId: string)
      requires Valid()
      modifies this
      ensures Valid()
      ensures cards == old(cards) + [NewCard(title, content, isDone, tags, itemId, freshId)]
      ensures isLoading == old(isLoading) && isModified == old(isModified) && status == old(status)
      ensures pending == old(pending) && nextTimer == old(nextTimer)
      ensures pickerDate == old(pickerDate) && loadedDate == old(loadedDate)
    {
      var uid := if itemId.Some? && itemId.value != "" then itemId.value else freshId;
      var caps: seq<string> := [];
      if tags.Some? {
        caps := BuildCapsules(tags.value);
      }
      cards := cards + [Card(uid, title, caps, "", content, isDone)];
    }

    /** `loadDateLogs` after the response. An answer first empties the
        list, so a card added while the day was loading is gone; then it
        shows one card per item (ids missing from the server are taken from
        `newIds`), or a single blank card for an empty or unsuccessful
        answer. An exception leaves the list as it was and shows `error`.
        In every case the page ends neither loading nor modified. */
    method CompleteLoad(response: LogResponse, newIds: nat -> string)
      requires Valid() && isLoading
      modifies this
      ensures Valid()
      ensures !isLoading && !isModified
      ensures response.LogThrew? ==> cards == old(cards) && status == Failed
      ensures response.LogItems? && |response.items| > 0 ==>
        cards == LoadedCards(response.items, newIds)
      ensures response.LogNotSuccess? || (response.LogItems? && |response.items| == 0) ==>
        cards == [NewCard("", "", false, Some(""), None, newIds(0))]
      ensures !response.LogThrew? ==> status == old(status)
      ensures pending == old(pending) && nextTimer == old(nextTimer)
      ensures pickerDate == old(pickerDate) && loadedDate == old(loadedDate)
    {
      match response {
        case LogThrew =>
          status := Failed;
        case LogNotSuccess =>
          cards := [];
          AddNewItem("", "", false, Some(""), None, newIds(0));
        case LogItems(items) =>
          cards := [];
          if |items| == 0 {
            AddNewItem("", "", false, Some(""), None, newIds(0));
          } else {
            AppendLoaded(items, newIds);
          }
      }
      isLoading := false;
      isModified := false;
    }

    /** The `forEach` of `loadDateLogs`: one `addNewItem` per item. */
    method AppendLoaded(items: seq<LoadedItem>, newIds: nat -> string)
      requires Valid()
      modifies this
      ensures Valid()
      ensures cards == old(cards) + LoadedCards(items, newIds)
      ensures isLoading == old(isLoading) && isModified == old(isModified) && status == old(status)
      ensures pending == old(pending) && nextTimer == old(nextTimer)
      ensures pickerDate == old(pickerDate) && loadedDate == old(loadedDate)
    {
      ghost var before := cards;
      for k := 0 to |items|
        invariant Valid()
        invariant cards == before + LoadedCards(items[..k], newIds)
        invariant isLoading == old(isLoading) && isModified == old(isModified) && status == old(status)
        invariant pending == old(pending) && nextTimer == old(nextTimer)
        invariant pickerDate == old(pickerDate) && loadedDate == old(loadedDate)
      {
        var it := items[k];
        AddNewItem(it.title, it.content, it.isDone, it.tags, it.itemId, newIds(k));
        assert LoadedCards(items[..k + 1], newIds) == LoadedCards(items[..k], newIds) + [NewCard(it.title, it.content, it.isDone, it.tags, it.itemId, newIds(k))];
      }
      assert items[..|items|] == items;
    }

    /** `handleDateChange` as the page runs it. The picker already shows
        `newDate` when its change handler runs, so unsaved cards of the
        day on screen are saved under `newDate`. The save timer is left
        armed: `saveToBackend` never clears it. */
    method PickDateAsWritten(newDate: string, outcome: SaveOutcome)
      returns (reqs: seq<Request>)
      requires Valid()
      modifies this
      ensures Valid()
      ensures pickerDate == newDate
      ensures old(isLoading) ==> reqs == []
      ensures !old(isLoading) && old(isModified) ==>
        |reqs| == 2 && reqs[0] == SaveLog(newDate, Payload(old(cards))) && reqs[1] == GetLog(newDate)
      ensures !old(isLoading) && !old(isModified) ==> reqs == [GetLog(newDate)]
      ensures !old(isLoading) ==> isLoading && cards == [] && loadedDate == newDate
      ensures pending == old(pending) && nextTimer == old(nextTimer)
    {
      pickerDate := newDate;
      reqs := ChangeDay(newDate, pickerDate, isModified, outcome);
    }

    /** `handleDateChange` corrected: the pending save timer is cleared, and
        the cards are saved under the day they were loaded for whenever they
        are modified or a save was still pending, before `newDate` loads.
        No timer is left to fire while the new day is loading. */
    method PickDate(newDate: string, outcome: SaveOutcome)
      returns (reqs: seq<Request>)
      requires Valid()
      modifies this
      ensures Valid()
      ensures pickerDate == newDate
      ensures old(isLoading) ==> reqs == [] && pending == old(pending)
      ensures !old(isLoading) && (old(isModified) || old(pending).Some?) ==>
        |reqs| == 2 && reqs[0] == SaveLog(old(loadedDate), Payload(old(cards))) && reqs[1] == GetLog(newDate)
      ensures !old(isLoading) && !old(isModified) && old(pending).None? ==> reqs == [GetLog(newDate)]
      ensures !old(isLoading) ==> isLoading && cards == [] && loadedDate == newDate && pending == None
      ensures nextTimer == old(nextTimer)
    {
      var saveDate := loadedDate;
      pickerDate := newDate;
      var flush := isModified || pending.Some?;
      if !isLoading {
        pending := None;
      }
      reqs := ChangeDay(newDate, saveDate, flush, outcome);
    }

    /** The body of `handleDateChange` with the save date and the decision
        to save made explicit: the save (if any) completes before the new
        day loads. Neither the timer nor the picker is touched. */
    method ChangeDay(newDate: string, saveDate: string, save: bool, outcome: SaveOutcome)
      returns (reqs: seq<Request>)
      requires Valid()
      modifies this
      ensures Valid()
      ensures isLoading
      ensures pickerDate == old(pickerDate)
      ensures pending == old(pending) && nextTimer == old(nextTimer)
      ensures old(isLoading) ==> reqs == [] && cards == old(cards) && loadedDate == old(loadedDate)
      ensures !old(isLoading) && save ==>
        |reqs| == 2 && reqs[0] == SaveLog(saveDate, Payload(old(cards))) && reqs[1] == GetLog(newDate)
      ensures !old(isLoading) && !save ==> reqs == [GetLog(newDate)]
      ensures !old(isLoading) ==> cards == [] && loadedDate == newDate
      ensures isModified == (old(isModified) && (old(isLoading) || !save || outcome != SaveOk))
      ensures status == (if old(isLoading) || !save then old(status) else if outcome == SaveOk then Synced else Failed)
    {
      if isLoading {
        return [];
      }
      reqs := [];
      if save {
        var p := pickerDate;
        pickerDate := saveDate;
        var r := BeginSave();
        pickerDate := p;
        EndSave(outcome);
        reqs := [r];
      }
      var started, g := StartLoad(newDate);
      reqs := reqs + [g.value];
    }
  }

  /** Cards loaded for 2024-05-01, one of them edited, then the picker
      moved to 2024-05-02: the save request the date change posts, as
      written or corrected. */
  method SaveOnDateChange(corrected: bool) returns (req: Request)
    ensures req == SaveLog(if corrected then "2024-05-01" else "2024-05-02",
                           Payload([Card("a", "Write report", [], "", "", false)]))
  {
    var page := new DayLogPage("2024-05-01");
    var started, load := page.StartLoad("2024-05-01");
    page.CompleteLoad(LogItems([LoadedItem(Some("a"), "Draft", "", false, None)]), (k: nat) => "fresh");
    page.EditCard(0, "Write report", "");
    assert page.cards == [Card("a", "Write report", [], "", "", false)];
    var reqs;
    if corrected {
      reqs := page.PickDate("2024-05-02", SaveOk);
    } else {
      reqs := page.PickDateAsWritten("2024-05-02", SaveOk);
    }
    req := reqs[0];
  }

  /** Cards loaded for 2024-05-01, one of them edited, then the picker
      moved to 2024-05-02 before the save timer ran out; the timer then
      fires while the new day is still loading. As written it posts the
      empty card list for 2024-05-02; corrected there is no timer left. */
  method TimerDuringLoad(corrected: bool) returns (fired: Option<Request>)
    ensures corrected ==> fired == None
    ensures !corrected ==> fired == Some(SaveLog("2024-05-02", []))
  {
    var page := new DayLogPage("2024-05-01");
    var started, load := page.StartLoad("2024-05-01");
    page.CompleteLoad(LogItems([LoadedItem(Some("a"), "Draft", "", false, None)]), (k: nat) => "fresh");
    page.EditCard(0, "Write report", "");
    var timer := page.pending.value;
    var reqs;
    if corrected {
      reqs := page.PickDate("2024-05-02", SaveOk);
    } else {
      reqs := page.PickDateAsWritten("2024-05-02", SaveOk);
    }
    fired := page.FireTimer(timer);
  }

  /** The discrepancy: the same unsaved card is posted for the new day as
      written, and for the day it was loaded for once corrected. */
  method DateChangeSavesUnderNewDay() returns (asWritten: Request, intended: Request)
    ensures asWritten.SaveLog? && asWritten.date == "2024-05-02"
    ensures intended.SaveLog? && intended.date == "2024-05-01"
    ensures asWritten.items == intended.items && |asWritten.items| == 1
  {
    asWritten := SaveOnDateChange(false);
    intended := SaveOnDateChange(true);
    var cards := [Card("a", "Write report", [], "", "", false)];
    assert Trim("Write report") != "" by {
      TrimEmptyIffAllSpace("Write report");
      assert !IsSpace("Write report"[0]);
    }
    assert cards[..0] == [];
  }
}
