/** The client-side lazy loader as a state machine: its buffers and cursor,
    the load-more buttons present on the page, what it has inserted into the
    page and which requests it has sent. Each handler of the loader is a
    function from the state before to the state after; the methods of
    `Lazyloader.Loader` are proved to perform exactly these steps. */
module LoaderState {
  import opened Wrappers
  import Seqs
  import opened LoaderEntries

  /** A request the loader sends to the liveblog endpoint. */
  datatype Request =
      /** `lazyload/<max>/<min>/` for set `index`. */
    | Lazyload(index: nat, maxTimestamp: int, minTimestamp: int)
      /** `lazyload/` without bounds, sent when the oldest timestamp is 0. */
    | LazyloadLatest(index: nat)
      /** `entry/<id>` for the key event entry, answered into set `index`. */
    | SingleEntry(entryId: int, index: nat)

  /** An entry's html inserted right before the load-more button of a set. */
  datatype Placement = Placement(setIndex: nat, html: string)

  /** Everything the loader's handlers read or change. `buttons` holds the
      set indexes that have a load-more button on the page. */
  datatype State = State(
    entrySets: seq<seq<Entry>>,
    entriesToRender: seq<Entry>,
    entriesToUpdate: seq<Entry>,
    entriesToDelete: seq<Entry>,
    nextEntriesIndex: int,
    consumedEntriesIndex: int,
    oldestTimestamp: int,
    busy: bool,
    buttons: set<nat>,
    rendered: seq<Placement>,
    requests: seq<Request>)

  /** The loader's invariant: the cursor is at least -1 (nothing rendered),
      and no pending update or delete names an entry of the render buffer
      (those are always applied at once). */
  ghost predicate Valid(s: State) {
    s.consumedEntriesIndex >= -1
    && IdsOf(s.entriesToRender) !! IdsOf(s.entriesToUpdate)
    && IdsOf(s.entriesToRender) !! IdsOf(s.entriesToDelete)
  }

  /** No entry set holds entries. */
  ghost predicate AllSetsEmpty(sets: seq<seq<Entry>>) {
    forall k :: 0 <= k < |sets| ==> sets[k] == []
  }

  /** JavaScript `entrySets[index] = entries`: assigning past the end grows
      the array. The slots skipped over are holes in JavaScript; a hole and
      an empty set behave alike for every reader of `entrySets`. */
  function StoreSet(sets: seq<seq<Entry>>, index: nat, entries: seq<Entry>): (r: seq<seq<Entry>>)
    ensures |r| == if index < |sets| then |sets| else index + 1
    ensures r[index] == entries
    ensures forall j :: 0 <= j < |r| && j != index ==> r[j] == if j < |sets| then sets[j] else []
  {
    if index < |sets| then sets[index := entries]
    else sets + seq(index - |sets|, _ => []) + [entries]
  }

  // ---------------------------------------------------------------------
  // fetchEntries, renderEntries, displayForTheFirstTime
  // ---------------------------------------------------------------------

  /** The request `fetchEntries` sends: bounded by the oldest timestamp
      seen unless that timestamp is 0 (the minimum is always 0). */
  function FetchRequest(index: nat, oldestTimestamp: int): (r: Request)
    ensures r.index == index
    ensures oldestTimestamp != 0 <==> r.Lazyload?
    ensures r.Lazyload? ==> r.maxTimestamp == oldestTimestamp && r.minTimestamp == 0
  {
    if oldestTimestamp != 0 then Lazyload(index, oldestTimestamp, 0) else LazyloadLatest(index)
  }

  /** `fetchEntries`: the set is emptied (created if need be); a request is
      sent only when the set has a button on the page. */
  function Fetch(s: State, setIndex: nat): (r: State)
    ensures |r.entrySets| == if setIndex < |s.entrySets| then |s.entrySets| else setIndex + 1
    ensures r.entrySets[setIndex] == []
    ensures forall j :: 0 <= j < |r.entrySets| && j != setIndex ==>
      r.entrySets[j] == if j < |s.entrySets| then s.entrySets[j] else []
    ensures setIndex in s.buttons ==> r.requests == s.requests + [FetchRequest(setIndex, s.oldestTimestamp)]
    ensures setIndex !in s.buttons ==> r.requests == s.requests
    ensures r.(entrySets := s.entrySets, requests := s.requests) == s
  {
    var t := s.(entrySets := StoreSet(s.entrySets, setIndex, []));
    if setIndex in s.buttons then t.(requests := s.requests + [FetchRequest(setIndex, s.oldestTimestamp)])
    else t
  }

  /** The render entries after the cursor. */
  function Unrendered(s: State): seq<Entry> {
    if 0 <= s.consumedEntriesIndex + 1 <= |s.entriesToRender|
    then s.entriesToRender[s.consumedEntriesIndex + 1..]
    else []
  }

  /** Entries' html placed before the button of a set, in order. */
  function Placements(setIndex: nat, entries: seq<Entry>): (r: seq<Placement>)
    ensures |r| == |entries|
    ensures forall k :: 0 <= k < |r| ==> r[k] == Placement(setIndex, entries[k].html)
  {
    seq(|entries|, k requires 0 <= k < |entries| => Placement(setIndex, entries[k].html))
  }

  /** `renderEntries`: without a button for the set, nothing happens;
      otherwise every entry after the cursor is placed before that button,
      the cursor moves past them, and the set is fetched again. */
  function Render(s: State, setIndex: nat): (r: State)
    ensures setIndex !in s.buttons ==> r == s
  {
    if setIndex !in s.buttons then s
    else
      var todo := Unrendered(s);
      Fetch(s.(rendered := s.rendered + Placements(setIndex, todo),
               consumedEntriesIndex := s.consumedEntriesIndex + |todo|), setIndex)
  }

  /** `displayForTheFirstTime`: render into set 0 once, when nothing has
      been rendered yet and there is something to render. */
  function DisplayForTheFirstTime(s: State): State {
    if s.consumedEntriesIndex == -1 && |s.entriesToRender| > 0 then Render(s, 0) else s
  }

  /** Render entries not yet rendered, as `fetchEntries`' handler counts
      them. */
  function Available(s: State): int {
    |s.entriesToRender| - (s.consumedEntriesIndex + 1)
  }

  // ---------------------------------------------------------------------
  // Response handling and fresh events
  // ---------------------------------------------------------------------

  /** `splitEntriesOnType`: each bucket grows by the response's entries of
      its type. */
  function SplitOnType(s: State, entries: seq<Entry>): (r: State)
    ensures r.(entriesToRender := s.entriesToRender, entriesToUpdate := s.entriesToUpdate,
               entriesToDelete := s.entriesToDelete) == s
  {
    s.(entriesToRender := s.entriesToRender + OfKind(entries, New),
       entriesToUpdate := s.entriesToUpdate + OfKind(entries, Update),
       entriesToDelete := s.entriesToDelete + OfKind(entries, Delete))
  }

  /** `updateAndDeleteEntriesToRender`: `updateEntries`, then
      `deleteEntries`. */
  function Reconcile(s: State): (r: State)
    ensures |r.entriesToRender| <= |s.entriesToRender|
    ensures |r.entriesToUpdate| <= |s.entriesToUpdate| && |r.entriesToDelete| <= |s.entriesToDelete|
    ensures r.(entriesToRender := s.entriesToRender, entriesToUpdate := s.entriesToUpdate,
               entriesToDelete := s.entriesToDelete) == s
  {
    UpdatesPending(s.entriesToRender, s.entriesToUpdate);
    DeletesPending(ReconcileUpdates(s.entriesToRender, s.entriesToUpdate).0, s.entriesToDelete);
    var updated := ReconcileUpdates(s.entriesToRender, s.entriesToUpdate);
    var deleted := ReconcileDeletes(updated.0, s.entriesToDelete);
    s.(entriesToRender := deleted.0, entriesToUpdate := updated.1, entriesToDelete := deleted.1)
  }

  /** The handler of a `lazyload` response for set `index`. An empty
      response removes the set's button, clears busy and shows the first
      entries. Otherwise the oldest timestamp becomes the last entry's, the
      entries are bucketed and reconciled, and the loader either has a page
      worth of unrendered entries (clear busy, show the first entries) or
      fetches the same set again. */
  function FetchResponse(s: State, index: nat, entries: seq<Entry>, numberOfEntries: int): State {
    if entries == [] then
      DisplayForTheFirstTime(s.(buttons := s.buttons - {index}, busy := false))
    else
      var t := Reconcile(SplitOnType(s.(oldestTimestamp := entries[|entries| - 1].timestamp), entries));
      if Available(t) >= numberOfEntries then DisplayForTheFirstTime(t.(busy := false))
      else Fetch(t, index)
  }

  /** `handleFreshEvent`: a live event for an entry the loader has not
      rendered goes through the same buckets and reconciliation. */
  function FreshEvent(s: State, entry: Entry): State {
    Reconcile(SplitOnType(s, [entry]))
  }

  /** `clickLoadMoreButton`. */
  function ClickLoadMore(s: State, setIndex: nat): State {
    Render(s.(busy := true), setIndex)
  }

  // ---------------------------------------------------------------------
  // Key events
  // ---------------------------------------------------------------------

  /** `findEntry`: the index of the first entry with the id, or -1. */
  function FirstIndexOf(entries: seq<Entry>, id: int): (r: int)
    ensures -1 <= r < |entries|
    ensures r >= 0 ==> entries[r].id == id && forall k :: 0 <= k < r ==> entries[k].id != id
    ensures r == -1 ==> forall k :: 0 <= k < |entries| ==> entries[k].id != id
  {
    if entries == [] then -1
    else if entries[0].id == id then 0
    else
      var k := FirstIndexOf(entries[1..], id);
      if k < 0 then -1 else k + 1
  }

  /** The index of the first set holding an entry with the id, or -1. */
  function FirstSetWith(sets: seq<seq<Entry>>, id: int): (r: int)
    ensures -1 <= r < |sets|
    ensures r >= 0 ==> FirstIndexOf(sets[r], id) >= 0
                       && forall k :: 0 <= k < r ==> FirstIndexOf(sets[k], id) == -1
    ensures r == -1 ==> forall k :: 0 <= k < |sets| ==> FirstIndexOf(sets[k], id) == -1
  {
    if sets == [] then -1
    else if FirstIndexOf(sets[0], id) >= 0 then 0
    else
      var k := FirstSetWith(sets[1..], id);
      if k < 0 then -1 else k + 1
  }

  /** `splitEntrySet`: the set is cut at `entryIndex` (clamped to its
      length, as `slice` does); the tail becomes a new set appended at the
      end, whose index is returned, and it gets a button right after the old
      set's button when the old set has one. */
  function SplitSet(s: State, setIndex: nat, entryIndex: nat): (r: (State, nat))
    requires setIndex < |s.entrySets|
    ensures r.1 == |s.entrySets| && |r.0.entrySets| == r.1 + 1
    ensures r.0.entrySets[setIndex] + r.0.entrySets[r.1] == s.entrySets[setIndex]
    ensures entryIndex <= |s.entrySets[setIndex]| ==> |r.0.entrySets[setIndex]| == entryIndex
    ensures entryIndex < |s.entrySets[setIndex]| ==>
      r.0.entrySets[r.1] != [] && r.0.entrySets[r.1][0] == s.entrySets[setIndex][entryIndex]
    ensures forall j :: 0 <= j < |s.entrySets| && j != setIndex ==> r.0.entrySets[j] == s.entrySets[j]
    ensures r.1 in r.0.buttons <==> r.1 in s.buttons || setIndex in s.buttons
    ensures s.buttons <= r.0.buttons <= s.buttons + {r.1}
    ensures r.0.(entrySets := s.entrySets, buttons := s.buttons) == s
  {
    var entries := s.entrySets[setIndex];
    var cut := if entryIndex <= |entries| then entryIndex else |entries|;
    var newSetIndex := |s.entrySets|;
    var sets := (s.entrySets + [entries[cut..]])[setIndex := entries[..cut]];
    assert entries[..cut] + entries[cut..] == entries;
    (s.(entrySets := sets,
        buttons := if setIndex in s.buttons then s.buttons + {newSetIndex} else s.buttons),
     newSetIndex)
  }

  /** `findEntrySet`: the first set holding the entry; when the entry is not
      at the head of that set, the set is split so that it is. Returns -1,
      and changes nothing, when no set holds the entry. */
  function FindEntrySet(s: State, id: int): (r: (State, int))
    ensures r.1 == -1 <==> forall k, j :: 0 <= k < |s.entrySets| && 0 <= j < |s.entrySets[k]|
                                          ==> s.entrySets[k][j].id != id
    ensures r.1 == -1 ==> r.0 == s
    ensures r.1 >= 0 ==> r.1 < |r.0.entrySets| && r.0.entrySets[r.1] != [] && r.0.entrySets[r.1][0].id == id
    ensures r.0.(entrySets := s.entrySets, buttons := s.buttons) == s
    ensures var k := FirstSetWith(s.entrySets, id);
      k >= 0 && FirstIndexOf(s.entrySets[k], id) == 0 ==> r == (s, k)
    ensures var k := FirstSetWith(s.entrySets, id);
      k >= 0 && FirstIndexOf(s.entrySets[k], id) > 0 ==>
        && r.1 == |s.entrySets| && |r.0.entrySets| == r.1 + 1
        && r.0.entrySets[k] + r.0.entrySets[r.1] == s.entrySets[k]
        && |r.0.entrySets[k]| == FirstIndexOf(s.entrySets[k], id)
        && (forall j :: 0 <= j < |s.entrySets| && j != k ==> r.0.entrySets[j] == s.entrySets[j])
        && (r.1 in r.0.buttons <==> r.1 in s.buttons || k in s.buttons)
        && s.buttons <= r.0.buttons <= s.buttons + {r.1}
  {
    var k := FirstSetWith(s.entrySets, id);
    if k < 0 then (s, -1)
    else
      var e := FirstIndexOf(s.entrySets[k], id);
      if e == 0 then (s, k)
      else
        var split := SplitSet(s, k, e);
        (split.0, split.1)
  }

  /** `fetchAndRenderKeyEventEntry`: a new empty set is appended and the
      single entry is requested into it. */
  function FetchKeyEntry(s: State, id: int): (r: State)
    ensures r.entrySets == s.entrySets + [[]]
    ensures r.requests == s.requests + [SingleEntry(id, |s.entrySets|)]
    ensures r.(entrySets := s.entrySets, requests := s.requests) == s
  {
    s.(entrySets := s.entrySets + [[]], requests := s.requests + [SingleEntry(id, |s.entrySets|)])
  }

  /** `clickKeyEventLink`: ignored while busy or when the target is already
      on the page; otherwise busy is set and the render buffer is rendered
      before the button of the set starting with the entry, or the entry is
      fetched when no set holds it. */
  function ClickKeyEventLink(s: State, id: int, inPage: bool): State {
    if s.busy || inPage then s
    else
      var found := FindEntrySet(s.(busy := true), id);
      if found.1 >= 0 then Render(found.0, found.1 as nat) else FetchKeyEntry(found.0, id)
  }

  /** The handler of an `entry/<id>` response for set `index`: a missing
      entry list is ignored; otherwise the set takes the entries, the set
      gets a button when `insertKeyEventButton` finds a place for it
      (`anchorFound`), and the set is rendered. */
  function KeyEntryResponse(s: State, index: nat, entries: Option<seq<Entry>>, anchorFound: bool): State {
    if entries.None? then s
    else
      Render(s.(entrySets := StoreSet(s.entrySets, index, entries.value),
                buttons := if anchorFound then s.buttons + {index} else s.buttons), index)
  }

  /** `initialize`: empty buffers, nothing rendered, the oldest timestamp one
      past the latest entry's, busy, and set 0 fetched. */
  function Initial(latestEntryTimestamp: int, buttons: set<nat>): State {
    Fetch(State([], [], [], [], 0, -1, latestEntryTimestamp + 1, true, buttons, [], []), 0)
  }

  // ---------------------------------------------------------------------
  // Properties
  // ---------------------------------------------------------------------

  /** The first request asks for entries up to one past the latest entry,
      so the latest entry is included; the loader starts busy and valid. */
  lemma InitialState(latestEntryTimestamp: int, buttons: set<nat>)
    ensures var s := Initial(latestEntryTimestamp, buttons);
      Valid(s) && s.busy && s.consumedEntriesIndex == -1 && s.nextEntriesIndex == 0 && s.entrySets == [[]]
      && s.entriesToRender == [] && s.entriesToUpdate == [] && s.entriesToDelete == []
      && s.oldestTimestamp == latestEntryTimestamp + 1 && s.buttons == buttons && s.rendered == []
      && s.requests == if 0 in buttons then [FetchRequest(0, latestEntryTimestamp + 1)] else []
  {
  }

  /** Reconciliation re-establishes the invariant whatever was bucketed, and
      it changes nothing in a valid state. */
  lemma ReconcileValid(s: State)
    requires s.consumedEntriesIndex >= -1
    ensures Valid(Reconcile(s))
    ensures Reconcile(s).(entriesToRender := s.entriesToRender, entriesToUpdate := s.entriesToUpdate,
                          entriesToDelete := s.entriesToDelete) == s
    ensures Valid(s) ==> Reconcile(s) == s
  {
    var updated := ReconcileUpdates(s.entriesToRender, s.entriesToUpdate);
    var deleted := ReconcileDeletes(updated.0, s.entriesToDelete);
    UpdatesIds(s.entriesToRender, s.entriesToUpdate);
    UpdatesPending(s.entriesToRender, s.entriesToUpdate);
    Seqs.FilterMembers(IdNotIn(IdsOf(s.entriesToRender)), s.entriesToUpdate);
    DeletesKeep(updated.0, s.entriesToDelete);
    DeletesPending(updated.0, s.entriesToDelete);
    Seqs.FilterMembers(IdNotIn(IdsOf(updated.0)), s.entriesToDelete);
    if Valid(s) {
      UpdatesNoMatch(s.entriesToRender, s.entriesToUpdate);
      DeletesNoMatch(s.entriesToRender, s.entriesToDelete);
    }
  }

  /** Rendering a set with a button places exactly the unrendered entries,
      in order, before it, leaves nothing unrendered, keeps the buffers, and
      fetches the set again. */
  lemma RenderFacts(s: State, setIndex: nat)
    requires Valid(s) && setIndex in s.buttons
    ensures var r := Render(s, setIndex);
      Valid(r)
      && r.rendered == s.rendered + Placements(setIndex, Unrendered(s))
      && Unrendered(r) == [] && r.consumedEntriesIndex >= s.consumedEntriesIndex
      && r.consumedEntriesIndex
         == (if s.consumedEntriesIndex + 1 <= |s.entriesToRender| then |s.entriesToRender| - 1
             else s.consumedEntriesIndex)
      && r.entrySets == StoreSet(s.entrySets, setIndex, [])
      && r.requests == s.requests + [FetchRequest(setIndex, s.oldestTimestamp)]
      && r.(rendered := s.rendered, consumedEntriesIndex := s.consumedEntriesIndex,
            entrySets := s.entrySets, requests := s.requests) == s
  {
  }

  /** `displayForTheFirstTime` does nothing once something is rendered or
      when there is nothing to render; otherwise it renders into set 0, and
      then nothing is left unrendered when that set has a button. */
  lemma DisplayOnce(s: State)
    requires Valid(s)
    ensures s.consumedEntriesIndex != -1 ==> DisplayForTheFirstTime(s) == s
    ensures |s.entriesToRender| == 0 ==> DisplayForTheFirstTime(s) == s
    ensures s.consumedEntriesIndex == -1 && |s.entriesToRender| > 0 ==>
      DisplayForTheFirstTime(s) == Render(s, 0)
    ensures 0 in s.buttons && s.consumedEntriesIndex == -1 ==>
      && Unrendered(DisplayForTheFirstTime(s)) == []
      && DisplayForTheFirstTime(s).rendered == s.rendered + Placements(0, s.entriesToRender)
  {
    if 0 in s.buttons && s.consumedEntriesIndex == -1 && |s.entriesToRender| > 0 {
      RenderFacts(s, 0);
      assert Unrendered(s) == s.entriesToRender;
    }
  }

  /** An empty response removes the set's button and clears busy. A
      non-empty one moves the oldest timestamp to its last entry; the loader
      stays busy exactly when fewer than `numberOfEntries` entries are
      available, and then fetches the same set again. Both ways of becoming
      idle show the first entries: a busy loader that has rendered nothing
      and ends idle with a button on set 0 has nothing left unrendered. */
  lemma FetchResponseFacts(s: State, index: nat, entries: seq<Entry>, numberOfEntries: int)
    requires Valid(s)
    ensures Valid(FetchResponse(s, index, entries, numberOfEntries))
    ensures entries == [] ==>
      var r := FetchResponse(s, index, entries, numberOfEntries);
      index !in r.buttons && !r.busy && r.entriesToRender == s.entriesToRender
    ensures entries != [] ==>
      var r := FetchResponse(s, index, entries, numberOfEntries);
      var t := Reconcile(SplitOnType(s.(oldestTimestamp := entries[|entries| - 1].timestamp), entries));
      r.oldestTimestamp == entries[|entries| - 1].timestamp
      && r.entriesToRender == t.entriesToRender
      && (r.busy <==> s.busy && Available(t) < numberOfEntries)
      && (Available(t) < numberOfEntries ==> r == Fetch(t, index))
      && (Available(t) >= numberOfEntries ==> r == DisplayForTheFirstTime(t.(busy := false)))
    ensures entries == [] ==>
      FetchResponse(s, index, entries, numberOfEntries)
      == DisplayForTheFirstTime(s.(buttons := s.buttons - {index}, busy := false))
    ensures var r := FetchResponse(s, index, entries, numberOfEntries);
      s.busy && !r.busy && s.consumedEntriesIndex == -1 && 0 in r.buttons ==> Unrendered(r) == []
  {
    if entries == [] {
      DisplayOnce(s.(buttons := s.buttons - {index}, busy := false));
    } else {
      var t := Reconcile(SplitOnType(s.(oldestTimestamp := entries[|entries| - 1].timestamp), entries));
      ReconcileValid(SplitOnType(s.(oldestTimestamp := entries[|entries| - 1].timestamp), entries));
      if Available(t) >= numberOfEntries {
        DisplayOnce(t.(busy := false));
      }
    }
  }

  /** A click on a key event link while the loader is busy, or on one
      whose entry is already on the page, changes nothing. */
  lemma ClickIgnored(s: State, id: int, inPage: bool)
    requires s.busy || inPage
    ensures ClickKeyEventLink(s, id, inPage) == s
  {
  }

  /** A click on a link whose entry no set holds sets busy and requests the
      single entry into a new set; nothing else changes. */
  lemma ClickFetchesMissingEntry(s: State, id: int)
    requires !s.busy
    requires forall k, j :: 0 <= k < |s.entrySets| && 0 <= j < |s.entrySets[k]| ==> s.entrySets[k][j].id != id
    ensures var r := ClickKeyEventLink(s, id, false);
      r.busy && r.requests == s.requests + [SingleEntry(id, |s.entrySets|)]
      && r.entrySets == s.entrySets + [[]]
      && r == FetchKeyEntry(s.(busy := true), id)
  {
  }

  /** A click on a link whose entry a set holds renders the render buffer
      before the button of the set that now starts with that entry. */
  lemma ClickRendersFoundEntry(s: State, id: int)
    requires !s.busy
    requires exists k, j :: 0 <= k < |s.entrySets| && 0 <= j < |s.entrySets[k]| && s.entrySets[k][j].id == id
    ensures var found := FindEntrySet(s.(busy := true), id);
      found.1 >= 0 && found.0.entrySets[found.1][0].id == id
      && ClickKeyEventLink(s, id, false) == Render(found.0, found.1 as nat)
  {
  }

  /** A click on a load-more button sets busy. With a button on the page,
      every unrendered entry is placed before it and the set is fetched
      again; without one, nothing else changes. */
  lemma ClickLoadMoreFacts(s: State, setIndex: nat)
    ensures ClickLoadMore(s, setIndex).busy
    ensures setIndex !in s.buttons ==> ClickLoadMore(s, setIndex) == s.(busy := true)
    ensures Valid(s) && setIndex in s.buttons ==>
      var r := ClickLoadMore(s, setIndex);
      r.rendered == s.rendered + Placements(setIndex, Unrendered(s))
      && Unrendered(r) == [] && Valid(r)
      && r.requests == s.requests + [FetchRequest(setIndex, s.oldestTimestamp)]
      && r.entriesToRender == s.entriesToRender && r.buttons == s.buttons
  {
    if Valid(s) && setIndex in s.buttons {
      RenderFacts(s.(busy := true), setIndex);
    }
  }

  /** Paging through `lazyload` responses never puts entries into a set:
      every set stays empty. */
  lemma PagingKeepsSetsEmpty(s: State, index: nat, entries: seq<Entry>, numberOfEntries: int, event: Entry)
    requires AllSetsEmpty(s.entrySets)
    ensures AllSetsEmpty(FetchResponse(s, index, entries, numberOfEntries).entrySets)
    ensures AllSetsEmpty(FreshEvent(s, event).entrySets)
    ensures AllSetsEmpty(ClickLoadMore(s, index).entrySets)
  {
    FetchKeepsSetsEmpty(s.(busy := true), index);
    var e := s.(buttons := s.buttons - {index}, busy := false);
    if entries == [] {
      if e.consumedEntriesIndex == -1 && |e.entriesToRender| > 0 && 0 in e.buttons {
        var todo := Unrendered(e);
        FetchKeepsSetsEmpty(e.(rendered := e.rendered + Placements(0, todo),
                               consumedEntriesIndex := e.consumedEntriesIndex + |todo|), 0);
      }
    } else {
      var t := Reconcile(SplitOnType(s.(oldestTimestamp := entries[|entries| - 1].timestamp), entries));
      FetchKeepsSetsEmpty(t, index);
      var u := t.(busy := false);
      if u.consumedEntriesIndex == -1 && |u.entriesToRender| > 0 && 0 in u.buttons {
        var todo := Unrendered(u);
        FetchKeepsSetsEmpty(u.(rendered := u.rendered + Placements(0, todo),
                               consumedEntriesIndex := u.consumedEntriesIndex + |todo|), 0);
      }
    }
    var c := s.(busy := true);
    if index in c.buttons {
      var todo := Unrendered(c);
      FetchKeepsSetsEmpty(c.(rendered := c.rendered + Placements(index, todo),
                             consumedEntriesIndex := c.consumedEntriesIndex + |todo|), index);
    }
  }

  /** A key event entry that arrives with a place for its button: the set
      is fetched again at once, so the arrived entries are replaced by an
      empty set, and what is rendered comes from the render buffer. Without
      a place for the button, nothing is rendered, the entries stay in the
      set and busy stays as it was. */
  lemma KeyEntryResponseFacts(s: State, index: nat, entries: seq<Entry>, anchorFound: bool)
    requires Valid(s)
    ensures var r := KeyEntryResponse(s, index, Some(entries), anchorFound);
      (anchorFound ==>
         index in r.buttons && r.entrySets[index] == []
         && r.rendered == s.rendered + Placements(index, Unrendered(s))
         && r.requests == s.requests + [FetchRequest(index, s.oldestTimestamp)])
      && (!anchorFound && index !in s.buttons ==>
         r.entrySets[index] == entries && r.rendered == s.rendered && r.busy == s.busy)
    ensures KeyEntryResponse(s, index, None, anchorFound) == s
  {
  }

  /** Bucketing a single entry. */
  lemma SplitSingle(s: State, entry: Entry)
    ensures SplitOnType(s, [entry]) == s.(
      entriesToRender := s.entriesToRender + (if entry.kind == New then [entry] else []),
      entriesToUpdate := s.entriesToUpdate + (if entry.kind == Update then [entry] else []),
      entriesToDelete := s.entriesToDelete + (if entry.kind == Delete then [entry] else []))
  {
    Seqs.FilterSnoc(HasKind(New), [], entry);
    Seqs.FilterSnoc(HasKind(Update), [], entry);
    Seqs.FilterSnoc(HasKind(Delete), [], entry);
    assert [] + [entry] == [entry];
  }

  /** Fetching keeps every set empty. */
  lemma FetchKeepsSetsEmpty(s: State, setIndex: nat)
    requires AllSetsEmpty(s.entrySets)
    ensures AllSetsEmpty(Fetch(s, setIndex).entrySets)
  {
  }

  /** A fresh delete for a valid loader removes the entry from the render
      buffer when it is there (the buffer loses exactly one entry) and
      otherwise keeps it pending; the cursor does not move. */
  lemma FreshDeleteFacts(s: State, entry: Entry)
    requires Valid(s) && entry.kind == Delete
    ensures var r := FreshEvent(s, entry);
      Valid(r) && r.consumedEntriesIndex == s.consumedEntriesIndex
      && (entry.id in IdsOf(s.entriesToRender) ==>
            |r.entriesToRender| == |s.entriesToRender| - 1 && r.entriesToDelete == s.entriesToDelete)
      && (entry.id !in IdsOf(s.entriesToRender) ==>
            r.entriesToRender == s.entriesToRender && r.entriesToDelete == s.entriesToDelete + [entry])
  {
    SplitSingle(s, entry);
    var t := SplitOnType(s, [entry]);
    assert t.entriesToRender == s.entriesToRender && t.entriesToUpdate == s.entriesToUpdate;
    assert t.entriesToDelete == s.entriesToDelete + [entry];
    UpdatesNoMatch(s.entriesToRender, s.entriesToUpdate);
    FreshDelete(s.entriesToRender, s.entriesToDelete, entry);
    ReconcileValid(t);
  }

  /** The delete does not look at the cursor: with entries a, b in the
      buffer and a already rendered, deleting a moves b under the cursor,
      so b is never rendered. */
  lemma DeleteBelowCursorSkips(s: State, a: Entry, b: Entry, setIndex: nat)
    requires a.id != b.id
    requires s.entriesToRender == [a, b] && s.entriesToUpdate == [] && s.entriesToDelete == []
    requires s.consumedEntriesIndex == 0 && setIndex in s.buttons
    ensures var r := FreshEvent(s, Entry(a.id, Delete, "", 0));
      r.entriesToRender == [b] && r.consumedEntriesIndex == 0 && Unrendered(r) == []
      && Render(r, setIndex).rendered == s.rendered
  {
    var d := Entry(a.id, Delete, "", 0);
    SplitSingle(s, d);
    var t := SplitOnType(s, [d]);
    assert t.entriesToRender == [a, b] && t.entriesToUpdate == [] && t.entriesToDelete == [d];
    DeleteFirstOfTwo(a, b, d);
    var r := FreshEvent(s, d);
    assert r.entriesToRender == [b];
  }

  /** The buffer part of the scenario above. */
  lemma DeleteFirstOfTwo(a: Entry, b: Entry, d: Entry)
    requires a.id != b.id && d.id == a.id
    ensures ReconcileDeletes(ReconcileUpdates([a, b], []).0, [d]).0 == [b]
  {
    assert IdsOf([]) == {};
    UpdatesNoMatch([a, b], []);
    DeletesFilter([a, b], [d]);
    assert IdsOf([d]) == {a.id};
    var p := IdNotIn({a.id});
    Seqs.FilterSnoc(p, [], a);
    Seqs.FilterSnoc(p, [a], b);
    assert [a] == [] + [a];
    assert [a, b] == [a] + [b];
  }
}
