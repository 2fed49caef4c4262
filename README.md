# Liveblog entry query and lazy loader, modelled in Dafny

This project models two parts of the WordPress Liveblog plugin.

- **The server-side entry query** (`WPCOM_Liveblog_Entry_Query`). The stored
  entries form an append-only log of `new`, `update` and `delete` records.
  The query folds that log into the current set of entries (`aggregate`). It
  also lists the key events newest first (for ascending input with unique
  ids) and finds a key event by id. It keeps the last entry per id and
  drops an entry whose `replaces` target is still present, and it selects the
  entries of a timestamp window for lazy loading.
- **The client-side lazy loader** (`liveblog-lazyloader.js`). It fetches older
  entries page by page into a render buffer. It applies pending updates and
  deletes to that buffer, renders the buffer from a cursor before a
  "load more" button, and serves clicks on key-event links. Such a click either
  splits off the set that starts with the entry and renders the render buffer
  before that set's button, or first requests that single entry.

Modules:

- `Wrappers`: `Option` and `Result`.
- `Seqs`: an order-keeping filter, hole compaction and reversal, with their
  lemmas.
- `PhpArray`: PHP's insertion-ordered array as `OrderedMap`.
- `EntryQuery`: the PHP class, with a method per PHP method.
  - `Aggregate`, `AssocArrayById`, `RemoveReplacedEntries`,
    `GetBetweenTimestamps` and `GetForLazyloading` are loops. Each is proved
    equal to a recursive specification function.
  - `GetAllKeyEvents` calls `Aggregate`, then filters and reverses. It is
    proved equal to the function `KeyEvents`.
  - `GetKeyEventById` searches that list. It is proved to return what the
    predicate `IsFirstWithId` describes.
  - The remaining properties are lemmas about the specification functions.
- `LoaderEntries`: the loader's entry record, plus specification functions for
  the three buffer operations (`splitEntriesOnType`, `updateEntries`,
  `deleteEntries`) and their properties.
- `LoaderState`: the loader as a state machine. It has one function per
  handler, from the state before to the state after, and lemmas about these
  functions.
- `Lazyloader`: the class `Loader`, whose fields are the loader object's
  properties. Each handler method is proved to perform exactly its
  `LoaderState` step and to keep the invariant `LoaderState.Valid`.

The model follows the code in these places:

- **An `update` whose target is not in the aggregate.** A silent no-op, as
  for `delete`, might be expected. The PHP code instead calls `set_content` on
  a missing array element, which is a fatal error. The model reports
  `Failure(DanglingUpdate(id))`, and every caller of `aggregate` passes that
  failure on. A `delete` of a missing id really is a no-op (`unset`).
- **`remove_replaced_entries`.** The loop visits a copy of the array taken
  before the loop (PHP `foreach` by value). Its `isset` test looks at the
  live array, which the loop shrinks. So in a chain 1, 2 (replaces 1),
  3 (replaces 2), entry 2 is dropped and entry 3 survives, because its target
  is already gone.
- **`get_for_lazyloading`.** The minimum bound only applies when the maximum
  is non-zero. This is preserved as written.
- **`deleteEntries`.** It ignores the rendering cursor. Deleting an entry that
  is already rendered shifts the buffer under the cursor. The next unrendered
  entry is then never rendered (`LoaderState.DeleteBelowCursorSkips`).
- **`clickLoadMoreButton`.** It has no busy check of its own. On the page, the
  buttons are disabled while the loader is busy.
- **Key event entries.** When a key event's single entry arrives and its
  button is placed, `renderEntries` fetches that set again at once. That
  empties the set: the arrived entries are dropped, and what gets rendered
  comes from the render buffer (`LoaderState.KeyEntryResponseFacts`).

## Model

| member | source | states |
|---|---|---|
| EntryQuery.Fold | classes/class-wpcom-liveblog-entry-query.php:67-88 | the aggregate of an entry list is `Step` folded from the left, stopping at the first fatal error; a successful result is a well-formed ordered array |
| EntryQuery.Step | classes/class-wpcom-liveblog-entry-query.php:69-84 | one iteration of the aggregate loop fails exactly on an `update` whose target id is absent, and otherwise keeps the array well-formed |
| EntryQuery.StepNew | classes/class-wpcom-liveblog-entry-query.php:70-72 | a `new` entry is stored under its own id, every other key keeps its value, and a fresh id is appended to the order |
| EntryQuery.StepDelete | classes/class-wpcom-liveblog-entry-query.php:73-75 | a `delete` removes exactly the key it names; a missing key leaves the aggregate unchanged |
| EntryQuery.StepUpdate | classes/class-wpcom-liveblog-entry-query.php:76-83 | an `update` of a present entry changes only that entry, in place. The stored entry becomes the old one with the update's content and exactly the update's key-event flag; its id, date and every other field are kept, and the key order is unchanged. A missing target is a fatal error |
| EntryQuery.FoldFailureSticks | classes/class-wpcom-liveblog-entry-query.php:67-88 | once the aggregate has failed, later entries do not change the outcome |
| EntryQuery.Aggregate | classes/class-wpcom-liveblog-entry-query.php:67-88 | the loop that mutates the array computes the left fold of the steps, stopping at the first fatal error |
| EntryQuery.FlagIsOverwritten | classes/class-wpcom-liveblog-entry-query.php:79-83 | the key-event flag is overwritten, not accumulated: new, flagged update, unflagged update leaves the entry unflagged and no key events |
| EntryQuery.DanglingUpdateFails | classes/class-wpcom-liveblog-entry-query.php:76-78 | an `update` with no earlier `new` makes both the aggregate and the key-event list fail |
| EntryQuery.KeyEvents | classes/class-wpcom-liveblog-entry-query.php:51-65 | an empty log gives no key events; the list fails exactly when the aggregate fails; otherwise it holds exactly the aggregated entries whose flag is set |
| EntryQuery.KeyEventsOrder | classes/class-wpcom-liveblog-entry-query.php:60-64 | the key events come in reverse of the aggregate's insertion order: of two key events, the earlier one in the list comes later in the aggregate's `foreach` order |
| EntryQuery.KeyEventsNewestFirst | classes/class-wpcom-liveblog-entry-query.php:51-65 | for an ascending entry list whose `new` ids are distinct, the key events are in non-increasing date order (newest first) |
| EntryQuery.FoldKeysByTime | classes/class-wpcom-liveblog-entry-query.php:67-88 | aggregating an ascending entry list whose `new` ids are distinct keeps the stored entries in date order along the keys, none dated after the last entry |
| EntryQuery.FoldKeysAreNewIds | classes/class-wpcom-liveblog-entry-query.php:67-88 | only a `new` entry adds a key to the aggregate |
| EntryQuery.NewKeepsKeysByTime | classes/class-wpcom-liveblog-entry-query.php:70-72 | a `new` entry with a fresh id and a date no earlier than any stored one keeps the date order along the keys |
| EntryQuery.UpdateKeepsKeysByTime | classes/class-wpcom-liveblog-entry-query.php:76-83 | an `update` keeps every stored date, so it keeps the date order along the keys |
| EntryQuery.DeleteKeepsKeysByTime | classes/class-wpcom-liveblog-entry-query.php:73-75 | a `delete` keeps the remaining keys in their order, so it keeps the date order along them |
| EntryQuery.GetAllKeyEvents | classes/class-wpcom-liveblog-entry-query.php:51-65 | the method returns exactly the key-event list |
| EntryQuery.GetKeyEventById | classes/class-wpcom-liveblog-entry-query.php:90-98 | returns the first key event with the id, or none when no key event has it; passes on an aggregate failure |
| EntryQuery.ById | classes/class-wpcom-liveblog-entry-query.php:188-195 | the id-keyed array, built by assigning each entry under its id in input order; it is well-formed (its properties are the `ById*` lemmas) |
| EntryQuery.ByIdKeys | classes/class-wpcom-liveblog-entry-query.php:188-195 | the keys of the id-keyed array are exactly the ids of the input |
| EntryQuery.ByIdValues | classes/class-wpcom-liveblog-entry-query.php:188-195 | every value of the id-keyed array is an input entry |
| EntryQuery.ByIdLastWins | classes/class-wpcom-liveblog-entry-query.php:191-192 | the value under an id is the last input entry with that id |
| EntryQuery.ByIdContents | classes/class-wpcom-liveblog-entry-query.php:188-195 | the three facts above together |
| EntryQuery.ByIdKeyIsId | classes/class-wpcom-liveblog-entry-query.php:191-192 | the entry stored under a key carries that key as its id |
| EntryQuery.AssocArrayById | classes/class-wpcom-liveblog-entry-query.php:188-195 | the loop builds exactly the id-keyed array specified by `ById` |
| EntryQuery.DropReplaced | classes/class-wpcom-liveblog-entry-query.php:179-183 | the removal loop over the snapshot's keys, testing `isset` on the live array; the result is well-formed (its properties are in `DropReplacedFacts`) |
| EntryQuery.RemoveReplaced | classes/class-wpcom-liveblog-entry-query.php:172-186 | `remove_replaced_entries`: no entries give an empty array, otherwise the removal loop runs over the id-keyed array; the result is well-formed (its properties are in `RemoveReplacedFacts`) |
| EntryQuery.DropReplacedFacts | classes/class-wpcom-liveblog-entry-query.php:179-183 | the removal loop only removes (values unchanged); it never removes an unvisited entry, one with an empty `replaces`, or one whose target was never stored; it removes a visited entry whose target is stored and replaces nothing |
| EntryQuery.RemoveReplacedFacts | classes/class-wpcom-liveblog-entry-query.php:172-186 | survivors are input entries stored under their own id; the last entry with an id survives when it replaces nothing or its target is not an input id; an entry whose stored target replaces nothing is dropped |
| EntryQuery.RemoveReplacedPair | classes/class-wpcom-liveblog-entry-query.php:172-186 | entries 1 and 2 (replaces 1) leave only id 1 |
| EntryQuery.RemoveReplacedChain | classes/class-wpcom-liveblog-entry-query.php:179-183 | because the loop checks the live array, the chain 1, 2 (replaces 1), 3 (replaces 2) leaves ids 1 and 3 |
| EntryQuery.RemoveReplacedEntries | classes/class-wpcom-liveblog-entry-query.php:172-186 | the loop over the copy, unsetting in the live array, computes `RemoveReplaced` |
| EntryQuery.GetBetweenTimestamps | classes/class-wpcom-liveblog-entry-query.php:136-147 | the result is `remove_replaced_entries` applied to the ascending entries whose timestamp lies in the inclusive range |
| EntryQuery.BetweenInRange | classes/class-wpcom-liveblog-entry-query.php:140-146 | every entry returned is a stored entry with a timestamp inside the inclusive range |
| EntryQuery.GetForLazyloading | classes/class-wpcom-liveblog-entry-query.php:205-226 | with a zero maximum, all entries are returned; otherwise the entries passing the window condition, in order |
| EntryQuery.InLazyWindow | classes/class-wpcom-liveblog-entry-query.php:216-219 | the keep-condition of the lazy-load loop, with a zero bound not applied (its meaning is stated by `LazyWindowBounds`) |
| EntryQuery.LazyWindowBounds | classes/class-wpcom-liveblog-entry-query.php:212-222 | with a non-zero maximum, an entry is kept exactly when its timestamp is below the maximum and, if the minimum is non-zero, above the minimum |
| EntryQuery.LazyWindowScenario | classes/class-wpcom-liveblog-entry-query.php:212-222 | a window of max 100 and min 50 over timestamps 30, 60, 90, 120 keeps 60 and 90 |
| LoaderEntries.OfKind | js/liveblog-lazyloader.js:130-145 | a type bucket holds exactly the response entries of that type, in response order, and is no longer than the response |
| LoaderEntries.SplitPartition | js/liveblog-lazyloader.js:130-145 | the new, update and delete buckets and the dropped entries of other types together account for every entry of the response |
| LoaderEntries.UpdateEntry | js/liveblog-lazyloader.js:167-169 | the entry takes the update's html and keeps its id, type and timestamp |
| LoaderEntries.ApplyUpdates | js/liveblog-lazyloader.js:155-161 | applying pending updates to one entry in order keeps its id, type and date (its html is stated by `ApplyUpdatesLast`) |
| LoaderEntries.ApplyUpdatesLast | js/liveblog-lazyloader.js:155-161 | an entry with no matching pending update is unchanged; otherwise it ends with the html of the last matching update |
| LoaderEntries.ReconcileUpdates | js/liveblog-lazyloader.js:152-165 | updating never changes the length of the render buffer |
| LoaderEntries.UpdatesPending | js/liveblog-lazyloader.js:152-165 | the pending updates left are exactly, in order, those whose id is not the id of any render entry |
| LoaderEntries.UpdatesRender | js/liveblog-lazyloader.js:152-165 | each render entry keeps its place; the first entry with an id gets all pending updates with that id applied, and a later entry with the same id is untouched |
| LoaderEntries.UpdatesIds | js/liveblog-lazyloader.js:152-165 | updating never changes the set of ids in the render buffer |
| LoaderEntries.UpdatesNoMatch | js/liveblog-lazyloader.js:152-165 | with no pending update matching the buffer, nothing changes |
| LoaderEntries.ReconcileDeletes | js/liveblog-lazyloader.js:171-186 | deleting never lengthens the render buffer |
| LoaderEntries.DeletesPending | js/liveblog-lazyloader.js:171-186 | the pending deletes left are exactly, in order, those whose id is not the id of any render entry |
| LoaderEntries.DeletesCount | js/liveblog-lazyloader.js:171-186 | the buffer shrinks by exactly the number of distinct render ids that have a pending delete |
| LoaderEntries.DeletesKeep | js/liveblog-lazyloader.js:171-186 | survivors are render entries, render ids only shrink, and an entry with no pending delete survives |
| LoaderEntries.DeletesFilter | js/liveblog-lazyloader.js:171-186 | with unique render ids, deleting is an order-keeping filter that removes exactly the entries whose id has a pending delete |
| LoaderEntries.DeletesNoMatch | js/liveblog-lazyloader.js:171-186 | with no pending delete matching the buffer, nothing changes |
| LoaderEntries.FreshDelete | js/liveblog-lazyloader.js:171-186 | one new delete against a reconciled buffer: if its id is in the buffer, the buffer loses exactly one entry and the delete is used up; otherwise nothing changes and the delete stays pending |
| LoaderState.StoreSet | js/liveblog-lazyloader.js:76 | storing into an entry set puts the value at the index, grows the array to cover it, and changes no other set |
| LoaderState.FetchRequest | js/liveblog-lazyloader.js:83-90 | the request carries the set index; it is bounded exactly when the oldest timestamp is non-zero, and then by that timestamp above and 0 below |
| LoaderState.Fetch | js/liveblog-lazyloader.js:72-94 | the set is emptied (created if needed); a request is sent exactly when the set has a button; nothing else changes |
| LoaderState.Render | js/liveblog-lazyloader.js:220-224 | without a button for the set, rendering changes nothing |
| LoaderState.Initial | js/liveblog-lazyloader.js:17-30 | `initialize`: empty buffers and sets, cursor -1, the oldest timestamp one past the latest entry's, busy, then set 0 fetched (its properties are in `InitialState`) |
| LoaderState.DisplayForTheFirstTime | js/liveblog-lazyloader.js:124-128 | `displayForTheFirstTime`: renders into set 0 only when nothing has been rendered and the buffer is not empty (stated by `DisplayOnce`) |
| LoaderState.SplitOnType | js/liveblog-lazyloader.js:130-145 | `splitEntriesOnType`: each bucket grows by the response's entries of its type; nothing but the three buffers changes |
| LoaderState.Reconcile | js/liveblog-lazyloader.js:147-150 | `updateEntries`, then `deleteEntries`: no buffer grows, and nothing but the three buffers changes (the invariant it restores is in `ReconcileValid`) |
| LoaderState.FetchResponse | js/liveblog-lazyloader.js:95-121 | the handler of a lazy-load response for a set (its properties are in `FetchResponseFacts`) |
| LoaderState.FreshEvent | js/liveblog-lazyloader.js:193-196 | `handleFreshEvent`: the event goes through the buckets and reconciliation (stated by `FreshDeleteFacts` and `PagingKeepsSetsEmpty`) |
| LoaderState.ClickLoadMore | js/liveblog-lazyloader.js:210-214 | `clickLoadMoreButton`: busy is set, then the set is rendered (stated by `ClickLoadMoreFacts` and `PagingKeepsSetsEmpty`) |
| LoaderState.ClickLoadMoreFacts | js/liveblog-lazyloader.js:210-214 | a load-more click always sets busy. With a button for the set, every unrendered entry is placed before it, in order, nothing is left unrendered, the set is fetched again and the invariant is kept. Without a button, only busy changes |
| LoaderState.ClickKeyEventLink | js/liveblog-lazyloader.js:244-271 | `clickKeyEventLink`: ignored while busy or when the target is on the page; otherwise the set starting with the entry is split off and the render buffer is rendered before its button, or the entry is fetched (stated by `ClickIgnored`, `ClickFetchesMissingEntry` and `ClickRendersFoundEntry`) |
| LoaderState.KeyEntryResponse | js/liveblog-lazyloader.js:361-372 | the handler of a single-entry response (its properties are in `KeyEntryResponseFacts`) |
| LoaderState.FirstIndexOf | js/liveblog-lazyloader.js:301-314 | the index of the first entry with the id, or -1 exactly when no entry has it |
| LoaderState.FirstSetWith | js/liveblog-lazyloader.js:278-292 | the index of the first set holding the id, or -1 exactly when no set holds it |
| LoaderState.SplitSet | js/liveblog-lazyloader.js:322-334 | the new set index is the old number of sets; the two parts concatenate to the old set; the head keeps exactly `entryIndex` entries; the tail starts with the entry at `entryIndex`; other sets are unchanged; the new set gets a button exactly when the old one has one |
| LoaderState.FindEntrySet | js/liveblog-lazyloader.js:278-292 | the result is -1, with nothing changed, exactly when no set holds the entry. Otherwise the first set holding the entry is chosen. If the entry heads that set, the result is that set's index and nothing changes. If not, the set is cut before the entry's first occurrence, the tail becomes a new set at the end whose index is returned, every other set is unchanged, and the new set gets a button exactly when the old set has one |
| LoaderState.FetchKeyEntry | js/liveblog-lazyloader.js:352-361 | a new empty set is appended and the single entry is requested into it |
| LoaderState.InitialState | js/liveblog-lazyloader.js:17-30 | the loader starts valid and busy, with empty render, update and delete buffers, cursor -1, next index 0, the oldest timestamp one past the latest entry's, nothing rendered and one empty set; if set 0 has a button, one request is sent, bounded by that timestamp |
| LoaderState.ReconcileValid | js/liveblog-lazyloader.js:147-150 | updating and then deleting re-establishes the invariant whatever was bucketed, touches only the three buffers, and changes nothing in a valid state |
| LoaderState.RenderFacts | js/liveblog-lazyloader.js:220-238 | rendering a set with a button places exactly the unrendered entries, in order, before it; the cursor ends on the last buffered entry (or stays put when it is already past the end), so nothing is left unrendered. The set is emptied and fetched again. Every other field is kept: the three buffers, the buttons, the busy flag, the oldest timestamp and the next-entries index |
| LoaderState.DisplayOnce | js/liveblog-lazyloader.js:124-128 | the first display does nothing once something has been rendered or when the buffer is empty; otherwise it renders into set 0, and when set 0 has a button it places the whole buffer there and leaves nothing unrendered |
| LoaderState.FetchResponseFacts | js/liveblog-lazyloader.js:95-121 | an empty response removes the set's button, clears busy and keeps the render buffer; a non-empty one sets the oldest timestamp to its last entry's and buckets and reconciles the entries; busy is cleared when a page of unrendered entries is available, and otherwise the same set is fetched again; the invariant is kept. Both idle branches show the first entries: a busy loader that has rendered nothing and ends idle with a button on set 0 has nothing left unrendered |
| LoaderState.ClickIgnored | js/liveblog-lazyloader.js:245-256 | a key-event click while busy, or on a link whose entry is already on the page, changes nothing |
| LoaderState.ClickFetchesMissingEntry | js/liveblog-lazyloader.js:259-270 | a click on an entry no set holds sets busy and requests that entry into a new, empty set; the new state is exactly that of `fetchAndRenderKeyEventEntry` with busy set |
| LoaderState.ClickRendersFoundEntry | js/liveblog-lazyloader.js:259-266 | a click on an entry some set holds renders the render buffer before the button of the set that now starts with that entry |
| LoaderState.PagingKeepsSetsEmpty | js/liveblog-lazyloader.js:72-122 | fetch responses, fresh events and load-more clicks never put entries into a set |
| LoaderState.KeyEntryResponseFacts | js/liveblog-lazyloader.js:361-372 | a single-entry response with a place for its button gives the set a button, renders the unrendered buffer there and fetches the set again, which empties it; without a place (and no earlier button) the entries stay in the set, nothing is rendered and busy is unchanged; a missing entry list changes nothing |
| LoaderState.FreshDeleteFacts | js/liveblog-lazyloader.js:193-196 | a fresh delete removes its entry from a valid buffer when present (the length drops by exactly one) and otherwise stays pending; the cursor does not move |
| LoaderState.DeleteBelowCursorSkips | js/liveblog-lazyloader.js:171-186 | with a and b buffered and a rendered, deleting a moves b under the cursor, so b is never rendered |
| Lazyloader.FindEntry | js/liveblog-lazyloader.js:301-314 | the search loop returns the first index with the id, or -1 |
| Lazyloader.UpdateFromPending | js/liveblog-lazyloader.js:155-163 | the inner update loop with holes applies the matching updates in order and leaves exactly the non-matching ones |
| Lazyloader.MatchPendingDeletes | js/liveblog-lazyloader.js:174-182 | the inner delete loop with holes reports whether some delete matched and leaves exactly the non-matching ones |
| Lazyloader.Loader.constructor | js/liveblog-lazyloader.js:10-38 | `initialize` produces the initial state, which is valid |
| Lazyloader.Loader.SetBusy | js/liveblog-lazyloader.js:43-47 | only the busy flag changes, to set |
| Lazyloader.Loader.SetUnbusy | js/liveblog-lazyloader.js:52-56 | only the busy flag changes, to clear |
| Lazyloader.Loader.FetchEntries | js/liveblog-lazyloader.js:72-94 | performs the `Fetch` step |
| Lazyloader.Loader.OnFetchResponse | js/liveblog-lazyloader.js:95-121 | performs the response step and keeps the invariant |
| Lazyloader.Loader.DisplayForTheFirstTime | js/liveblog-lazyloader.js:124-128 | performs the first-display step |
| Lazyloader.Loader.SplitEntriesOnType | js/liveblog-lazyloader.js:130-145 | the loop appends each entry to the bucket of its type |
| Lazyloader.Loader.UpdateAndDeleteEntriesToRender | js/liveblog-lazyloader.js:147-150 | performs the reconciliation step |
| Lazyloader.Loader.UpdateEntries | js/liveblog-lazyloader.js:152-165 | the nested loops compute `ReconcileUpdates` on the buffers; nothing else changes |
| Lazyloader.Loader.DeleteEntries | js/liveblog-lazyloader.js:171-186 | the nested loops with holes compute `ReconcileDeletes` on the buffers; nothing else changes |
| Lazyloader.Loader.HandleFreshEvent | js/liveblog-lazyloader.js:193-196 | performs the fresh-event step and keeps the invariant |
| Lazyloader.Loader.ClickLoadMoreButton | js/liveblog-lazyloader.js:210-214 | sets busy, then renders the set |
| Lazyloader.Loader.RenderEntries | js/liveblog-lazyloader.js:220-238 | the rendering loop performs the `Render` step |
| Lazyloader.Loader.ClickKeyEventLink | js/liveblog-lazyloader.js:244-271 | performs the key-event click step and keeps the invariant |
| Lazyloader.Loader.FindEntrySet | js/liveblog-lazyloader.js:278-292 | the search over the sets performs `FindEntrySet`, splitting the found set when needed |
| Lazyloader.Loader.SplitEntrySet | js/liveblog-lazyloader.js:322-334 | performs `SplitSet` |
| Lazyloader.Loader.FetchAndRenderKeyEventEntry | js/liveblog-lazyloader.js:352-361 | performs `FetchKeyEntry` |
| Lazyloader.Loader.OnKeyEventEntryResponse | js/liveblog-lazyloader.js:361-378 | performs the single-entry response step and keeps the invariant |

## Left out

- KeyEventsNewestFirst: assumes an ascending entry list with distinct `new` ids, as comment ids are. If a `new` reuses a stored id, the entry keeps its key's earlier place in PHP's array. The list is then in reverse insertion order (`KeyEventsOrder`) but not necessarily newest first.

- The WordPress storage call (`get`, `get_all`, with its ordering arguments) and the object cache in `get_all_entries_asc`. Each operation receives the stored entries as an input sequence, already in the order the call would return.
- `count`, `get_by_id`, `get_latest`, `get_latest_timestamp`, `has_any` and `entries_from_comments`. These are thin wrappers over storage, not part of the core.
- Entries are values. The PHP code mutates the stored entry objects (`set_content`, `set_key_event`). The model stores an updated copy under the same key, so aliasing between the aggregate and other holders of the same object is not captured.
- EntryQuery.GetForLazyloading: returns the surviving entries as a sequence. PHP keeps the original array keys of the survivors, which leaves gaps in the numbering.
- Comparisons use exact integer equality on ids and timestamps. PHP's and JavaScript's loose `==` between strings and numbers is not modelled.
- The DOM is abstracted. Load-more buttons are the set `buttons` of set indexes. Inserted entry html is the log `rendered`. `$button.blur()`, the `disabled` attribute, `updateTimes` and the scroll animation are left out.
- HTTP is abstracted. A request is appended to the log `requests`. A response is a separate method call whose index argument is the server's echo of the request's `index`. A request that never gets an answer leaves the loader busy. A missing `entries` field in a lazyload response is treated like an empty list.
- `insertKeyEventButton` is abstracted as the boolean `anchorFound`. It says whether its walk over the buttons found a place for the new button. The timestamp comparisons of that walk are not modelled.
- The timestamp the loader reads from an entry's html (`data-timestamp`) is a field of the entry record.
- `getButton` and `createButton` are membership in, and insertion into, `buttons`. `isBusy` is a read of the `busy` field.
- Lazyloader.Loader.RenderEntries: requires a cursor of at least -1. The loader's invariant guarantees this, and the script would index below 0 otherwise.
- The response and click handlers of `Lazyloader.Loader` require the invariant `LoaderState.Valid`. The constructor establishes it, and every handler keeps it, so it holds in every state the page can reach.
