# TuDoLi v2 — a verified model of the day log, habit bar and project map

TuDoLi v2 is a personal day planner. Each day has a list of task cards.
A card has a title, tag capsules, notes and a done flag, and the page
auto-saves the list. A habit bar shows daily habits, some grouped into
chains. A project map shows the family tree of a task that was carried
from day to day. The server keeps this in SQLite: `daily_logs`,
`log_items`, `habit_definitions` and `habit_logs`.

This project models the logic under the DOM, `fetch` and SQL text.

- **Tables.** A table is a Dafny sequence of rows in rowid order, or a
  map for `habit_logs`. Every handler becomes a function over those
  tables or a method of a class that owns them (`LogStore.LogDb`,
  `HabitStore.HabitDb`).
- **Page state.** Each page's module state is a class:
  - `DayLog.DayLogPage`: `isLoading`, `isModified`, the save timer, the
    status indicator and the card list.
  - `HabitChains.HabitPanel`: `currentHabits` and `tempEmptyGroups`.
  - `ProjectMapSession.MapSession`: `currentMapOriginId`, the modal and
    the canvas.
- **Network.** Requests are returned as values. Their outcomes are
  parameters.
- **Nondeterminism.** Timers are explicit events. Random UUID draws are
  parameters.

Files and modules:

| file | module | models |
|---|---|---|
| common.dfy | Common | ISO-date order, JavaScript `trim`, split/join on a separator, decimal printing |
| sorting.dfy | Sorting | the stable sort every `ORDER BY` and `Array.sort` is modelled by |
| grouping.dfy | Grouping | grouping in order of first appearance (a Python dict, a JS object of arrays) |
| project_map.dfy | ProjectMap | `renderProjectMap`: milestones, children, orphans, star rank, display date, drop targets |
| project_map_session.dfy | ProjectMapSession | open/close guard, the drag `onEnd` decision, `sortListByDate`, `updateTrayHeaderDate`, `deleteMilestone` |
| day_log.dfy | DayLog | tag capsules, save payload, card moves, the auto-save state machine, `generateUUID` |
| habit_chains.dfy | HabitChains | toggle status, capsule classes, render queue, auto-dissolve, settings trays, empty-group bookkeeping |
| log_store.dfy | LogStore | `save_log`, `get_log`, `get_all_logs`, `get_project_history`, `export_month_to_txt` |
| habit_store.dfy | HabitStore | `get_habits`, `add_habit`, `toggle_habit`, `mark_all_done`, `update_habit`, `delete_habit` |
| project_store.dfy | ProjectStore | `get_project_tree`, `update_task_relation` |
| save_flow.dfy | SaveFlow | the client save payload as the server stores it, and its effect on project trees |

Conventions:

- Dates are ISO `YYYY-MM-DD` strings. They are compared lexicographically
  (`Common.LexLe`), which is the order JavaScript `<`, `localeCompare` and
  SQLite text comparison give such strings. `renderProjectMap` sorts
  milestones by `new Date(a.date) - new Date(b.date)`: on valid ISO dates
  that is the same order, but an empty or invalid date gives `NaN` there,
  and the model does not capture that case.
- `INSERT OR REPLACE` under the unique index on `log_items.item_id`
  removes the row holding that id and appends the new one.
- Rows that an `ORDER BY` leaves tied keep table order (`Sorting.SortByStable`).

## Model

| member | source | states |
|---|---|---|
| Common.EarlierDate | static/js/project_map.js:122-126 | the displayed date is no later than either date and is one of them |
| Common.TrimSpec | static/js/app.js:88 | `trim` returns the middle slice between whitespace-only ends, and the result neither starts nor ends with whitespace |
| Common.TrimEmptyIffAllSpace | static/js/app.js:67 | a trimmed text is empty exactly when the text is all whitespace |
| Common.TrimIdempotent | static/js/app.js:193 | trimming twice is trimming once |
| Common.TrimKeeps | static/js/app.js:88 | text with no whitespace at either end is left as it is by `trim` |
| Common.SplitJoin | static/js/app.js:246 | splitting on the separator undoes joining parts that do not contain it |
| Common.ParsePrinted | static/js/habit_mod.js:267 | `parseInt` of a printed group id gives the id back |
| Common.Split | static/js/app.js:246 | `split` yields at least one part, no part contains the separator, and joining the parts with it gives the input back |
| Common.NatToString | static/js/habit_mod.js:267 | a group id prints as decimal digits with no leading zero |
| Common.LexLeTotal | routers/logs.py:165 | any two ISO dates are ordered one way or the other |
| Common.LexLeTrans | routers/logs.py:165 | the date order is transitive |
| Sorting.SortBySorted | routers/habits.py:19 | the sort behind every `ORDER BY` returns a sorted permutation of its input |
| Sorting.SortByOfSorted | static/js/project_map.js:283-290 | sorting an already sorted list changes nothing |
| Sorting.SortByStable | static/js/project_map.js:91-93 | the sort is stable: the elements tied with any value come out in their input order |
| Sorting.InsertTies | static/js/project_map.js:91-93 | inserting an element puts it ahead of the elements tied with it and keeps their order |
| Sorting.SortByMap | routers/project.py:46 | sorting commutes with a row update that keeps the sort key |
| Grouping.KeysInOrder | routers/logs.py:168-171 | the dict keys are distinct, cover every row's key and come from rows |
| Grouping.MembersOfSpec | routers/logs.py:168-172 | a key's list holds exactly the rows with that key |
| Grouping.GroupInOrder | routers/logs.py:168-182 | the grouping loop builds exactly the first-seen-order grouping |
| Grouping.FillGroups | routers/logs.py:168-172 | after the loop the dict keys are the first-seen keys in insertion order and each key lists exactly its rows |
| Grouping.KeysFollowOrder | routers/logs.py:165-182 | rows ordered by key give keys in that same order |
| Grouping.GroupedSize | routers/logs.py:168-182 | grouping drops and duplicates no row |
| ProjectMap.HeadsSpec | static/js/project_map.js:70-74 | an item is a milestone exactly when its relation is `evolve` or `root` or it is the origin |
| ProjectMap.ChildrenOfSpec | static/js/project_map.js:76-89 | a milestone's children are the non-origin items naming it as parent, plus, for the origin, the orphans |
| ProjectMap.ChildOfOneMilestone | static/js/project_map.js:76-85 | no item is the child of two milestones |
| ProjectMap.NothingDropped | static/js/project_map.js:87-89 | with the origin present, every item is a milestone or some milestone's child |
| ProjectMap.NoOriginNoOrphans | static/js/project_map.js:87-89 | without the origin, a milestone's children are only those naming it as parent |
| ProjectMap.CollectMilestones | static/js/project_map.js:70-74 | the first loop yields the milestones in input order, with an index from id to position |
| ProjectMap.AttachChildren | static/js/project_map.js:76-85 | the second loop gives each milestone exactly the non-origin items naming it as parent, and collects exactly the orphans |
| ProjectMap.GroupMilestones | static/js/project_map.js:66-89 | both loops together build exactly the milestone/children structure |
| ProjectMap.MilestoneDateLeIsPreorder | static/js/project_map.js:92-94 | the milestone order is a total preorder |
| ProjectMap.ItemDateLeIsPreorder | static/js/project_map.js:119 | the child order is a total preorder |
| ProjectMap.DisplayDateIsEarliest | static/js/project_map.js:119-126 | the displayed date is no later than the base date or any child, and is one of them |
| ProjectMap.RenderedOrder | static/js/project_map.js:92-119 | trays come out by ascending date, each tray's tasks sorted and a permutation of the milestone's children |
| ProjectMap.RenderedDates | static/js/project_map.js:91-93 | the trays are in ascending order of base date |
| ProjectMap.RenderedTray | static/js/project_map.js:95-119 | a tray's tasks are sorted by date and are a permutation of the children of the milestone it shows |
| ProjectMap.GenesisOnce | static/js/project_map.js:95-140 | with distinct milestone ids at most one tray reads GENESIS, and one does exactly when the origin heads a milestone; it alone has no delete control, every other tray shows `index` stars; no tray is amber at render |
| ProjectMap.GenesisUnique | static/js/project_map.js:103-117 | no two trays both read GENESIS when milestone ids are distinct |
| ProjectMap.GenesisPresent | static/js/project_map.js:103-117 | some tray reads GENESIS exactly when a milestone has the origin's id |
| ProjectMap.StarsAreRank | static/js/project_map.js:110-117 | with the origin first, a tray's stars equal the number of non-origin trays up to it |
| ProjectMap.HeaderDate | static/js/project_map.js:293-313 | the shown date is no later than the base date or the first task's date; amber exactly when it is earlier than the base date |
| ProjectMap.TaskDateLeIsPreorder | static/js/project_map.js:285-289 | `localeCompare` on task dates is a total preorder |
| ProjectMap.SortedHeaderIsEarliest | static/js/project_map.js:283-313 | after `sortListByDate`, the header date is no later than any task's date |
| ProjectMapSession.FindById | static/js/project_map.js:56 | finds an item with the id, or reports that none has it |
| ProjectMapSession.DatesOf | static/js/project_map.js:60 | the set of the items' dates |
| ProjectMapSession.HeaderFacts | static/js/project_map.js:55-61 | the day count is between 1 and the number of items; the title is the origin's when present |
| ProjectMapSession.RemoveAt | static/js/project_map.js:205-208 | lifting a task removes one occurrence and nothing else |
| ProjectMapSession.InsertAt | static/js/project_map.js:205-208 | dropping a task adds it at the drop index |
| ProjectMapSession.Refresh | static/js/project_map.js:293-314 | `updateTrayHeaderDate` keeps the tasks, sets amber exactly when the shown date is earlier, never later than base |
| ProjectMapSession.DropKeepsTasks | static/js/project_map.js:236-248 | a drag and the re-sort after it lose and duplicate no task |
| ProjectMapSession.DropSettles | static/js/project_map.js:236-248 | after a drop the target list holds the task, sorted by date, both headers refreshed, other trays untouched |
| ProjectMapSession.FindTray | static/js/project_map.js:339 | finds the tray of a milestone id, or reports that none has it |
| ProjectMapSession.MapSession.Open | static/js/project_map.js:14-29 | a missing or `"null"` origin alerts and changes nothing; otherwise the tree is fetched for it |
| ProjectMapSession.MapSession.Deliver | static/js/project_map.js:28-40 | success draws the trays of the grouped tree under the current origin, or under no origin when the modal was closed during the fetch; failure and connection error show their messages |
| ProjectMapSession.Unmatched | static/js/project_map.js:29-33 | a text longer than every item id, so no item matches it as the `null` origin |
| ProjectMapSession.NullOriginRender | static/js/project_map.js:29-33 | rendered with a `null` origin, only `evolve` and `root` items head trays, no tray reads GENESIS and the header shows the first item |
| ProjectMapSession.MapSession.Close | static/js/project_map.js:44-47 | the modal closes and the origin is cleared |
| ProjectMapSession.MapSession.OnEnd | static/js/project_map.js:205-249 | unchanged drop: nothing; `TEMP_NEW`: create, then reparent as `inherit` and reload; otherwise reparent to the target as `inherit`, then re-sort and refresh headers |
| ProjectMapSession.GhostTargetIsCreate | static/js/project_map.js:167-189 | when no milestone id is `TEMP_NEW`, the list's `data-parent-id` is `TEMP_NEW` exactly for the ghost list, which `OnEnd` takes as its create branch; any other list carries its milestone id |
| ProjectMapSession.MapSession.DeleteMilestone | static/js/project_map.js:334-369 | nothing unless confirmed; otherwise every child is reparented to the origin as `inherit` before the delete, which a failed move prevents; with no children the moves cannot fail |
| DayLog.AddCapsule | static/js/app.js:66-83 | a capsule is added exactly when the text is not blank and not already present, appended at the end; capsules stay duplicate-free |
| DayLog.TagKey | static/js/app.js:86-105 | Space/Enter with text adds the trimmed tag and clears the input; Backspace on an empty input drops the last capsule; otherwise nothing |
| DayLog.TagBlur | static/js/app.js:108-116 | blur with text adds the trimmed tag and clears the input; blur with blank input changes nothing |
| DayLog.TagsRoundTrip | static/js/app.js:245-246 | capsules none of which contains a space, joined with spaces and split again, give the same duplicate-free capsules |
| DayLog.AddAllFrom | static/js/app.js:246 | the capsules built from split pieces are the earlier capsules or pieces |
| DayLog.AddAllGood | static/js/app.js:245-246 | the capsules built from any pieces stay non-blank and free of duplicates |
| DayLog.SpacedCapsuleLost | static/js/app.js:245-246 | a capsule containing a space is not among the capsules after a save and reload |
| DayLog.PastedTagSplits | static/js/app.js:108-116 | a pasted "a b" becomes the one capsule "a b", which reloads as "a" and "b" |
| DayLog.PastedTagReload | static/js/app.js:246 | the stored tag string "a b" loads as the capsules "a" and "b" |
| DayLog.SplitAtSpace | static/js/app.js:246 | "a b" splits on the space into "a" and "b" |
| DayLog.PayloadSpec | static/js/app.js:187-198 | the payload holds exactly the cards with a non-blank title, each item with its trimmed title and content and `isDone` from `completed` |
| DayLog.PayloadKeepsAll | static/js/app.js:187-198 | with no blank titles, the payload is the cards in order |
| DayLog.PayloadAppend | static/js/app.js:189-198 | the payload of consecutive card runs is the concatenation of their payloads |
| DayLog.Fill | static/js/app.js:16-19 | `x` becomes a hex digit, `y` one of `89ab`, everything else is kept |
| DayLog.UuidLayout | static/js/app.js:16-19 | the fallback id is 8-4-4-4-12 hex with version digit `4` and variant in `89ab` (RFC 4122 section 4.4) |
| DayLog.ToggledKeepsOthers | static/js/app.js:255-268 | the card flips; completed goes to the end, uncompleted to the front; the other cards keep their order |
| DayLog.ReorderedIsPermutation | static/js/app.js:25-30 | a drag reorder is a permutation that keeps the other cards' order |
| DayLog.DayLogPage.constructor | static/js/app.js:7-11 | a fresh page is idle, unmodified, with no timer |
| DayLog.DayLogPage.TriggerAutoSave | static/js/app.js:119-123 | status becomes editing and exactly one timer is pending, replacing any earlier one |
| DayLog.DayLogPage.EditCard | static/js/app.js:32-37 | typing in a card marks the page modified and arms the save |
| DayLog.DayLogPage.TypeTag | static/js/app.js:32-37 | typing in the tag input neither marks the page modified nor arms the save |
| DayLog.DayLogPage.PressTagKey | static/js/app.js:86-105 | the tag key edit applies to that card; a save is armed exactly when it asks for one |
| DayLog.DayLogPage.BlurTag | static/js/app.js:108-116 | the blur edit applies to that card; a save is armed exactly when it asks for one |
| DayLog.DayLogPage.RemoveCapsule | static/js/app.js:75-79 | removing a capsule drops it and arms the save |
| DayLog.DayLogPage.ToggleDone | static/js/app.js:255-272 | the card list becomes the toggled list, the page is modified and the save armed |
| DayLog.DayLogPage.DeleteItem | static/js/app.js:274-280 | nothing unless confirmed; otherwise the card is removed and the save armed |
| DayLog.DayLogPage.ReorderCard | static/js/app.js:25-30 | a drag end reorders the cards and arms the save |
| DayLog.DayLogPage.BeginSave | static/js/app.js:184-200 | the request posts the payload of the cards for the picker's date; status saving |
| DayLog.DayLogPage.EndSave | static/js/app.js:201-205 | success clears `isModified` and shows synced; failure or exception shows error and keeps `isModified` |
| DayLog.DayLogPage.FireTimer | static/js/app.js:122 | only the pending timer fires, and it posts the save |
| DayLog.DayLogPage.FadeCheck | static/js/app.js:150-154 | the synced indicator fades only if nothing was modified meanwhile |
| DayLog.DayLogPage.StartLoad | static/js/app.js:165-168 | a load while loading is a no-op; otherwise the list empties and the day is fetched |
| DayLog.DayLogPage.AddNewItem | static/js/app.js:208-246 | one card is appended, under the given id or a fresh one, with its tags split into capsules |
| DayLog.BuildCapsules | static/js/app.js:245-246 | the capsule loop yields the duplicate-free capsules of the stored tag string |
| DayLog.DayLogPage.CompleteLoad | static/js/app.js:170-181 | an answer first empties the list, dropping any card added during the load, then shows one card per item, or one blank card when the answer is empty or unsuccessful; an exception keeps the list and shows error; afterwards not loading and not modified |
| DayLog.LoadedCards | static/js/app.js:174-176 | one card per loaded item, in order, carrying that item's fields |
| DayLog.DayLogPage.AppendLoaded | static/js/app.js:174-176 | the load loop appends exactly the loaded cards and leaves the page flags alone |
| DayLog.DayLogPage.ChangeDay | static/js/app.js:55-62 | no-op while loading; when asked, the cards are saved before the new day loads; the save's outcome sets the status and `isModified`; the save timer is left as it was |
| DayLog.DayLogPage.PickDateAsWritten | static/js/app.js:55-62 | as written: the unsaved cards are posted under the newly picked date, and a pending save timer stays armed through the load |
| DayLog.DayLogPage.PickDate | static/js/app.js:55-62 | corrected: modified cards, or cards with a save pending, are posted under the day they were loaded for, and no save timer is left to fire during the load |
| DayLog.SaveOnDateChange | static/js/app.js:55-62 | the save request of a concrete edit-then-pick sequence, as written and corrected |
| DayLog.DateChangeSavesUnderNewDay | static/js/app.js:55-62 | the same card is posted for 2024-05-02 as written and for 2024-05-01 once corrected |
| DayLog.TimerDuringLoad | static/js/app.js:119-123 | a save timer armed before a date change fires during the load: as written it posts an empty card list for the new day; corrected nothing fires |
| HabitChains.NextStatus | static/js/habit_mod.js:101-104 | the next status is 0 exactly when the current one is 1, else 1 |
| HabitChains.StatusAlternates | static/js/habit_mod.js:101-104 | after the first click, 0 and 1 alternate |
| HabitChains.RenderCapsule | static/js/habit_mod.js:69-97 | `habit-done` exactly for status 1, `habit-failed` exactly for 0, `habit-todo` otherwise; colour styling only when done |
| HabitChains.ClickCycle | static/js/habit_mod.js:69-107 | a click on a done capsule renders it failed, on any other renders it done |
| HabitChains.FindChain | static/js/habit_mod.js:37 | finds the chain entry of a group id, or reports that there is none |
| HabitChains.QueueWellFormed | static/js/habit_mod.js:33-46 | every chain entry in the queue has members |
| HabitChains.QueueChains | static/js/habit_mod.js:33-46 | a group's entry holds exactly its members in input order; no entry for a group without members |
| HabitChains.QueueSingles | static/js/habit_mod.js:33-46 | the single entries are exactly the ungrouped habits in input order |
| HabitChains.FindChainIffSeen | static/js/habit_mod.js:36-41 | a chain entry already exists exactly when an earlier habit had that group |
| HabitChains.MembersSpec | static/js/habit_mod.js:36-42 | a group's members are exactly the grouped habits with that id |
| HabitChains.QueueOrder | static/js/habit_mod.js:33-46 | entries sit where their first habit appeared |
| HabitChains.QueueKeepsAll | static/js/habit_mod.js:33-46 | every habit appears in the queue exactly as often as in the input |
| HabitChains.BuildRenderQueue | static/js/habit_mod.js:33-46 | the grouping loop builds exactly that queue |
| HabitChains.Enqueue | static/js/habit_mod.js:35-45 | one step of the grouping loop extends the queue as specified and keeps the group map pointing at each group's entry |
| HabitChains.RenderHabitBar | static/js/habit_mod.js:24-67 | an empty list renders only the add button; otherwise the strip renders the queue in order |
| HabitChains.ChainIds | static/js/habit_mod.js:184-194 | the group ids are exactly the non-zero ids that have members |
| HabitChains.ChainIdsDistinct | static/js/habit_mod.js:184-194 | each group id is listed once |
| HabitChains.DissolvedSpec | static/js/habit_mod.js:155-162 | an update is issued exactly for members of the listed groups with fewer than 2 members |
| HabitChains.DissolvedAll | static/js/habit_mod.js:146-162 | over all chains, an update is issued exactly for each habit in a chain of fewer than two members |
| HabitChains.MoveOut | static/js/habit_mod.js:157-159 | the member loop issues one `group_id: 0` update per member, in order |
| HabitChains.DissolveUpdates | static/js/habit_mod.js:146-162 | updates to group 0 go to exactly the members of groups with fewer than 2 members |
| HabitChains.Without | static/js/habit_mod.js:289 | filtering out an id keeps exactly the other ids |
| HabitChains.WithoutAll | static/js/habit_mod.js:196 | filtering out the ids with members keeps exactly the others |
| HabitChains.TraysFor | static/js/habit_mod.js:199-221 | one tray per group id with its members, marked empty exactly when it has none |
| HabitChains.BuildTrays | static/js/habit_mod.js:199-221 | the tray loop builds exactly those trays |
| HabitChains.TrayIdsDistinct | static/js/habit_mod.js:196-197 | a pending group id without members does not duplicate a listed id |
| HabitChains.HabitPanel.constructor | static/js/habit_mod.js:3-4 | the panel starts with no habits and no pending groups |
| HabitChains.HabitPanel.Refresh | static/js/habit_mod.js:319-325 | the fetched habits replace the current ones (`refreshData` is this followed by `SettingsList`) |
| HabitChains.HabitPanel.SettingsList | static/js/habit_mod.js:177-228 | pending ids that now have members are dropped; trays for the group ids then the pending ones, each listed once; the singles |
| HabitChains.HabitPanel.AutoDissolve | static/js/habit_mod.js:146-172 | updates exactly for members of groups under 2; the list is fetched again exactly when there are any and they all succeed; pending groups are emptied only when nothing was sent or the updates and the fetch succeed, and a rejection leaves the panel as it was |
| HabitChains.HabitPanel.AddGroup | static/js/habit_mod.js:276-284 | with a pending group nothing is added and nothing is redrawn; otherwise the new id is pending unless it already has members, and the settings list is redrawn with it last as an empty tray |
| HabitChains.HabitPanel.DeleteGroup | static/js/habit_mod.js:286-291 | every member of the group is set to group 0; once the updates succeed the id leaves the pending list, and a successful fetch replaces the habits and redraws the settings list; a rejected update changes nothing |
| HabitChains.InGroupIsChain | static/js/habit_mod.js:287 | for a non-zero id the habits with that group are its chain members |
| HabitChains.AddHabit | static/js/habit_mod.js:293-302 | a blank title adds nothing; otherwise the trimmed title is added with group 0 |
| LogStore.FindLog | routers/logs.py:55-56 | finds the log row of a date, or reports that none has it |
| LogStore.DateOfLog | routers/logs.py:164 | the join finds the date of a log id, or reports that none has it |
| LogStore.ItemsOfSpec | routers/logs.py:73-74 | the items of a log are exactly the rows with that log id |
| LogStore.WithoutSpec | routers/logs.py:115-118 | the delete keeps exactly the rows whose id is not deleted |
| LogStore.UpsertAllDistinct | routers/logs.py:121-139 | upserting rows with distinct ids leaves the table without those ids, followed by the rows |
| LogStore.Reconcile | routers/logs.py:109-139 | the delete-then-upsert loop yields exactly the reconciled table |
| LogStore.FinalRowIsWritten | routers/logs.py:121-139 | when the written rows have distinct ids, the row under a written row's id after the save is that row |
| LogStore.ReconciledKeepsUnique | routers/logs.py:121-139 | the save keeps item ids unique |
| LogStore.SavedLogIsRequest | routers/logs.py:109-139 | after the save, the log holds exactly the rows written for the request, in request order, items without an id included |
| LogStore.IdLessItemStored | routers/logs.py:121-139 | a request item without an id is stored under the freshly generated id, at its place and with its fields |
| LogStore.WellKeyedStored | routers/logs.py:121-122 | a request whose ids are all present and distinct is stored under distinct ids, whatever ids the server generates |
| LogStore.NothingOldSurvives | routers/logs.py:110-118 | every previously stored item of the log is deleted or replaced |
| LogStore.LinksReplaced | routers/logs.py:124-139 | as written: a saved item carries exactly the request's relation fields |
| LogStore.LinksKept | routers/logs.py:124-139 | corrected: a saved item whose request omits them keeps the stored relation fields |
| LogStore.LogView | routers/logs.py:51-95 | the answer echoes the date; no log gives no items; otherwise one item per row of the log |
| LogStore.RowsForSorted | routers/logs.py:121-134 | the rows written carry increasing `sort_order` |
| LogStore.SaveThenGet | routers/logs.py:64-95 | after a save, `get_log` returns the request items in request order, each under its own id or the one generated for it |
| LogStore.JoinedSpec | routers/logs.py:163-164 | the join holds exactly the rows whose log exists, paired with its date |
| LogStore.NewestFirstIsPreorder | routers/logs.py:165 | `log_date DESC, sort_order ASC` is a total preorder |
| LogStore.OldestFirstIsPreorder | routers/logs.py:199 | `log_date ASC` is a total preorder |
| LogStore.ArchiveSizeIsTotal | routers/logs.py:168-182 | the answer has as many items as the grouping |
| LogStore.ArchiveShape | routers/logs.py:151-182 | dates appear once each, newest first, and every joined row is in the answer |
| LogStore.ArchiveDayInOrder | routers/logs.py:165-180 | within a date, items keep `sort_order` order |
| LogStore.MatchingSpec | routers/logs.py:189-198 | the history holds exactly the rows with that title and, when tags are given, containing them |
| LogStore.ProjectHistory | routers/logs.py:185-207 | at most one entry per stored row |
| LogStore.DateSetBounds | routers/logs.py:205 | the distinct-date count is between 1 and the entry count for a non-empty history |
| LogStore.HistoryOldestFirst | routers/logs.py:199 | history entries are oldest first |
| LogStore.HistoryComplete | routers/logs.py:189-204 | every matching row is an entry and every entry is a matching row |
| LogStore.HistoryDays | routers/logs.py:204-205 | `total_days` is at most the entry count, and 0 exactly for an empty history |
| LogStore.ExportNameOfIsoDate | routers/logs.py:14 | for `YYYY-MM-DD` the file name is `YYYYMM.txt` |
| LogStore.Rule | routers/logs.py:36 | the header rule is 50 `=` |
| LogStore.TagSuffix | routers/logs.py:41 | the tag suffix is empty exactly when the tags are null or empty |
| LogStore.NoteLine | routers/logs.py:43-44 | the note line is empty exactly when the content is |
| LogStore.InMonthSpec | routers/logs.py:22-24 | the export rows are exactly the joined rows of that month |
| LogStore.ExportWrittenIff | routers/logs.py:25-27 | nothing is written exactly when the month has no rows |
| LogStore.ExportDaysNewestFirst | routers/logs.py:23-37 | one block per date, newest first |
| LogStore.ExportDaysInMonth | routers/logs.py:13-24 | every block's date is in the month |
| LogStore.ExportCoversMonth | routers/logs.py:29-33 | every row of the month is in exactly one block |
| LogStore.WriteItems | routers/logs.py:39-44 | the item loop writes the numbered lines, from 1, with status, tag suffix and note |
| LogStore.WriteDays | routers/logs.py:37-45 | the day loop writes a header block per date followed by its items |
| LogStore.LogDb.constructor | routers/logs.py:98-107 | the tables start empty |
| LogStore.LogDb.EnsureLog | routers/logs.py:104-107 | exactly one log row exists for the date afterwards, appended when missing |
| LogStore.LogDb.SaveLog | routers/logs.py:98-144 | as written: the log exists, the items are reconciled, a later `get_log` echoes the request whenever the stored ids are distinct, the month export is produced |
| LogStore.LogDb.SaveLogKeepingLinks | routers/logs.py:98-144 | corrected: the same save with stored relation fields kept |
| LogStore.LogDb.ExportMonth | routers/logs.py:12-48 | the export loop produces the month's file name and text |
| LogStore.LogDb.GetAllLogs | routers/logs.py:151-182 | the grouping loop produces the archive |
| LogStore.FindLogAppend | routers/logs.py:105-107 | a log row appended for a missing date is the one found |
| HabitStore.ListOrderIsPreorder | routers/habits.py:19 | `sort_order, created_at` is a total preorder |
| HabitStore.ActiveSpec | routers/habits.py:18 | the active habits are exactly the non-archived ones |
| HabitStore.GetHabitsMembers | routers/habits.py:14-33 | the answer lists exactly the non-archived habits, each with that day's status or none |
| HabitStore.GetHabitsOrdered | routers/habits.py:19 | the answer is ordered by `sort_order`, then `created_at` |
| HabitStore.ToggleKeepsLast | routers/habits.py:54-58 | after a run of toggles each touched pair has exactly one status, the last one sent; untouched pairs keep theirs |
| HabitStore.PatchSetsSupplied | routers/habits.py:87-107 | exactly the supplied fields change, archived stored as 1 or 0; id, creation time and order stay |
| HabitStore.PatchFor | routers/habits.py:87-103 | the field list is empty exactly when no field is supplied |
| HabitStore.PatchKeepsId | routers/habits.py:105 | an update never changes a habit's id |
| HabitStore.HabitDb.constructor | routers/habits.py:37-46 | the tables start empty |
| HabitStore.HabitDb.AddHabit | routers/habits.py:37-46 | one definition is appended, with colour `#3B82F6` and group 0 when none is given, and not archived |
| HabitStore.HabitDb.ToggleHabit | routers/habits.py:50-60 | the pair's status becomes the value sent; nothing else changes |
| HabitStore.HabitDb.MarkAllDone | routers/habits.py:64-77 | every non-archived habit has status 1 that day; the only new keys are those; every other entry is unchanged |
| HabitStore.ActiveIdAt | routers/habits.py:68-70 | an id occurs in the active list exactly when a non-archived habit carries it |
| HabitStore.HabitDb.UpdateHabit | routers/habits.py:81-109 | the habit gets the supplied fields; no fields is a no-op; logs untouched |
| HabitStore.HabitDb.DeleteHabit | routers/habits.py:113-120 | the definition and all of its log entries go; nothing else does |
| HabitStore.WithoutHabitSpec | routers/habits.py:117 | the delete keeps exactly the other definitions |
| HabitStore.WithoutHabitValid | routers/habits.py:117 | deleting keeps the ids unique |
| ProjectStore.TreeOrderIsPreorder | routers/project.py:46 | `log_date ASC, sort_order ASC` is a total preorder |
| ProjectStore.FamilySpec | routers/project.py:44-45 | the family holds exactly the rows naming the origin or being it |
| ProjectStore.RelationOrRoot | routers/project.py:65 | a null or empty relation is reported as `root`; a non-empty one as itself |
| ProjectStore.ProjectTree | routers/project.py:52-68 | the origin is echoed exactly when the tree is not empty; every relation is non-empty |
| ProjectStore.Nodes | routers/project.py:57-66 | one node per row, in row order |
| ProjectStore.BuildTree | routers/project.py:56-66 | the node loop builds exactly those nodes |
| ProjectStore.GetProjectTree | routers/project.py:20-68 | the handler answers the tree of the origin over the tables |
| ProjectStore.TreeMembers | routers/project.py:33-50 | every dated family row is a node and every node is a dated family row |
| ProjectStore.TreeIsOrdered | routers/project.py:46 | nodes are oldest first |
| ProjectStore.UpdateTaskRelation | routers/project.py:71-99 | an unknown id fails with 500 and changes nothing; otherwise only that item's parent and relation change |
| ProjectStore.RelinkedIds | routers/project.py:86-91 | the update keeps the count of every id |
| ProjectStore.RelinkKeepsUnique | routers/project.py:86-91 | the update keeps item ids unique |
| ProjectStore.RelinkTouchesOnlyLinks | routers/project.py:86-91 | only `parent_id` and `relation_type` of the named item change |
| ProjectStore.RelinkKeepsTrees | routers/project.py:44-46 | a relation update changes no tree's membership or order |
| SaveFlow.ToRequest | models.py:6-16 | a payload item reaches the server with its id and no relation fields |
| SaveFlow.Requests | static/js/app.js:189-198 | one request item per payload item, in order |
| SaveFlow.ClientSaveUnlinks | routers/logs.py:124-139 | as written: after the page saves a day, none of its items is in another origin's tree |
| SaveFlow.SaveDropsChild | routers/logs.py:124-139 | a child task in its origin's tree is no longer there once its day is saved |
| SaveFlow.ClientSaveKeepsTree | routers/logs.py:124-139 | corrected: a task in a tree stays there after its day is saved |
| SaveFlow.EmptySaveErasesDay | routers/logs.py:109-118 | a save of a day with no items deletes every item of that day, so a reload shows it empty |

## Left out

- I/O is not modelled: the DOM, HTML strings, Font Awesome markup, the
  modal and drawer, `autoResize`, the `export_month_to_txt` file write and
  console output. The export is modelled as the file name and text it
  would write.
- Network calls are requests returned as values. Their outcomes,
  exceptions, HTTP statuses and `Promise.all` fan-outs are parameters or
  sequential lists.
- Timers are explicit events: the 1200 ms save delay, the 2 s fade, the
  300 ms and 500 ms reloads.
- `crypto.randomUUID`, `Math.random`, `uuid.uuid4()` and `Date.now()` are
  supplied values.
- LogStore.SavedLogIsRequest: requests whose stored ids clash are not covered. Such a clash is two items with one id, or a generated id equal to another item's. `INSERT OR REPLACE` then keeps only the later row, so the log does not mirror the request.
- LogStore.SaveThenGet: the same clash of stored ids is not covered, for the same reason.
- LogStore.FinalRowIsWritten: the same clash of stored ids is not covered, for the same reason.
- The "today" computed with the timezone offset is a parameter.
- Sortable.js internals are left out. A drag is an event (from, to,
  oldIndex, newIndex).
- The DB schema, migrations and backups in database.py are not part of
  this model. Two consequences:
  - The unique index on `log_items.item_id` is assumed. database.py
    creates it only through a migration.
  - `habit_logs` is an abstract map keyed by (date, habit). database.py
    names that column `date`, while routers/habits.py uses `log_date`.
- `save_log`'s catch of any exception as HTTP 500 is not modelled. Nor is
  the partial state a failure mid-loop would leave.
- SQLite `LIKE` in `get_project_history` is modelled as an ASCII
  case-insensitive substring test. A `%` or `_` inside the tags is taken
  literally.
- LogStore.ProjectHistory: the `content or ""` default is not modelled.
  Stored content is never null in this model.
- Rows that an `ORDER BY` leaves tied come out in table order. SQLite
  does not promise this order.
- `/project/add-milestone` and `DELETE /project/item/{id}` are called by
  the project map, but routers/project.py does not define them. They appear
  only as requests.
- `handleEditHabit`, `handleDeleteHabit`, the settings drag `onAdd` and
  `renderHistory`/`refreshHistoryFeed`/`continueTask`/`filterHistory` are
  left out. They only forward to endpoints modelled here (`update_habit`,
  `delete_habit`, `get_project_history`, `get_all_logs`) or only build
  HTML.
- HabitChains.ChainIds: chains are listed in order of first appearance.
  `Object.keys` gives that order only for ids above 2^32 − 2, such as the
  `Date.now()` stamps that `handleAddGroup` creates. Smaller integer ids
  come out in ascending order. The claims about `autoDissolveChains` are
  about the set of updates, so only the order of settings trays differs.
- Integers are unbounded. No 64-bit SQLite limit is modelled.
- ProjectMapSession.MapSession.OnEnd names the ghost list by its position.
  A milestone whose item id is the text `TEMP_NEW` would also take the
  create branch in static/js/project_map.js. The model does not cover that
  case (`ProjectMapSession.GhostTargetIsCreate`).

## Findings

| source | as written | input that shows it | evidently intended | confidence | as-written member | corrected member |
|---|---|---|---|---|---|---|
| routers/logs.py:124-139 | `save_log` writes the request's `origin_id`, `parent_id` and `relation_type` with `INSERT OR REPLACE`. The day page never sends them (static/js/app.js:189-198), so they are stored as NULL. | Task "b" is logged on 2026-01-06 as an `inherit` child of "a". The page then saves that day with "b" unchanged. Afterwards "b" is missing from the tree of "a". | Saving a day from the page keeps each item's stored project links. | not executed; high: both sides are in routers/logs.py and static/js/app.js | SaveFlow.SaveDropsChild | SaveFlow.ClientSaveKeepsTree |
| static/js/app.js:55-62 | `handleDateChange` saves unsaved cards through `saveToBackend`. That function reads the date picker, which already shows the new date. | Cards are loaded for 2024-05-01 and edited. The picker is then set to 2024-05-02. The edits are posted for 2024-05-02. | The unsaved cards are saved under the day they were loaded for. | not executed; medium: the picker's change wiring is in a page file that is not part of this model | DayLog.DateChangeSavesUnderNewDay | DayLog.DayLogPage.PickDate |
| static/js/app.js:119-123 | `triggerAutoSave` arms a 1200 ms timer, and neither `saveToBackend` nor `handleDateChange` (static/js/app.js:55-62) clears it. If the picker changes before the timer runs out, the timer fires while `loadDateLogs` shows only its spinner. `saveToBackend` then finds no `.task-card` and posts an empty list for the new day. `save_log` (routers/logs.py:109-118) deletes every item of that day. | A card of 2024-05-01 is edited, and within 1.2 s the picker is set to 2024-05-02. The timer fires while 2024-05-02 is loading and posts `SaveLog("2024-05-02", [])`. The items of 2024-05-02 are deleted. | A date change settles or cancels the pending auto-save, so no save of the old day runs once the new day is loading. | not executed; medium: it depends on the timer firing before the GET returns | DayLog.TimerDuringLoad | DayLog.DayLogPage.PickDate |
