/** The lazy loader object: its fields are updated in place by its handlers,
    as in the page script. Each handler is proved to perform the step of
    the same name in module LoaderState, and to keep `LoaderState.Valid`. */
module Lazyloader {
  import opened Wrappers
  import Seqs
  import opened LoaderEntries
  import LS = LoaderState

  /** `findEntry`: the index of the first entry with the id, or -1. */
  method FindEntry(entryId: int, entries: seq<Entry>) returns (r: int)
    ensures r == LS.FirstIndexOf(entries, entryId)
  {
    r := -1;
    var i := 0;
    while i < |entries|
      invariant 0 <= i <= |entries|
      invariant forall k :: 0 <= k < i ==> entries[k].id != entryId
    {
      if entries[i].id == entryId {
        r := i;
        return;
      }
      i := i + 1;
    }
  }

  /** The inner loop of `updateEntries` for one render entry: every pending
      update with the entry's id overwrites its html, in order, and leaves
      the pending list. */
  method UpdateFromPending(entry: Entry, updates: seq<Entry>) returns (updated: Entry, rest: seq<Entry>)
    ensures updated == ApplyUpdates(entry, updates)
    ensures rest == Seqs.Filter(IdNotIn({entry.id}), updates)
  {
    updated := entry;
    var slots := Seqs.Filled(updates);
    var j := 0;
    while j < |slots|
      invariant 0 <= j <= |slots| == |updates|
      invariant updated == ApplyUpdates(entry, updates[..j])
      invariant forall k :: j <= k < |slots| ==> slots[k] == Some(updates[k])
      invariant Seqs.Compact(slots[..j]) == Seqs.Filter(IdNotIn({entry.id}), updates[..j])
    {
      var update := slots[j].value;
      ghost var before := slots;
      if entry.id == update.id {
        updated := UpdateEntry(updated, update);
        slots := slots[j := None];
      }
      assert slots[..j] == before[..j];
      Seqs.CompactFilterStep(IdNotIn({entry.id}), updates, before, slots, j);
      assert updates[..j + 1][..j] == updates[..j];
      j := j + 1;
    }
    assert slots[..j] == slots && updates[..j] == updates;
    rest := Seqs.Compact(slots);
  }

  /** The inner loop of `deleteEntries` for one render entry: whether some
      pending delete has the entry's id, and the pending deletes left. */
  method MatchPendingDeletes(entry: Entry, deletes: seq<Entry>) returns (matched: bool, rest: seq<Entry>)
    ensures matched <==> entry.id in IdsOf(deletes)
    ensures rest == Seqs.Filter(IdNotIn({entry.id}), deletes)
  {
    matched := false;
    var slots := Seqs.Filled(deletes);
    var j := 0;
    while j < |slots|
      invariant 0 <= j <= |slots| == |deletes|
      invariant matched <==> entry.id in IdsOf(deletes[..j])
      invariant forall k :: j <= k < |slots| ==> slots[k] == Some(deletes[k])
      invariant Seqs.Compact(slots[..j]) == Seqs.Filter(IdNotIn({entry.id}), deletes[..j])
    {
      var deleteEntry := slots[j].value;
      ghost var before := slots;
      if entry.id == deleteEntry.id {
        slots := slots[j := None];
        matched := true;
      }
      assert slots[..j] == before[..j];
      Seqs.CompactFilterStep(IdNotIn({entry.id}), deletes, before, slots, j);
      IdsOfPrefix(deletes, j);
      j := j + 1;
    }
    assert slots[..j] == slots && deletes[..j] == deletes;
    rest := Seqs.Compact(slots);
  }

  /** Punching (or not) a hole at `i` extends the compacted prefix by the
      slot's value (or by nothing). */
  lemma CompactStep(before: seq<Option<Entry>>, after: seq<Option<Entry>>, i: nat, hole: bool)
    requires i < |before| && before[i].Some?
    requires after == if hole then before[i := None] else before
    ensures Seqs.Compact(after[..i + 1])
         == Seqs.Compact(before[..i]) + (if hole then [] else [before[i].value])
  {
    assert after[..i] == before[..i];
    Seqs.CompactPrefix(after, i);
  }

  class Loader {
    /** The number of unrendered entries the loader gathers before it stops
        fetching (a page setting). */
    const numberOfEntries: int

    var entrySets: seq<seq<Entry>>
    var entriesToRender: seq<Entry>
    var entriesToUpdate: seq<Entry>
    var entriesToDelete: seq<Entry>
    var nextEntriesIndex: int
    var consumedEntriesIndex: int
    var oldestTimestamp: int
    var busy: bool
    /** Set indexes that have a load-more button on the page. */
    var buttons: set<nat>
    /** What has been inserted into the page, in order. */
    var rendered: seq<LS.Placement>
    /** Requests sent, in order. */
    var requests: seq<LS.Request>

    function Snapshot(): LS.State
      reads this
    {
      LS.State(entrySets, entriesToRender, entriesToUpdate, entriesToDelete, nextEntriesIndex,
               consumedEntriesIndex, oldestTimestamp, busy, buttons, rendered, requests)
    }

    /** `initialize`, given the latest entry's timestamp, the page setting and
        the buttons on the page. */
    constructor (latestEntryTimestamp: int, numberOfEntries: int, buttons: set<nat>)
      ensures this.numberOfEntries == numberOfEntries
      ensures Snapshot() == LS.Initial(latestEntryTimestamp, buttons)
      ensures LS.Valid(Snapshot())
    {
      this.numberOfEntries := numberOfEntries;
      entrySets := [];
      entriesToRender := [];
      entriesToDelete := [];
      entriesToUpdate := [];
      nextEntriesIndex := 0;
      consumedEntriesIndex := -1;
      oldestTimestamp := latestEntryTimestamp + 1;
      busy := false;
      this.buttons := buttons;
      rendered := [];
      requests := [];
      new;
      SetBusy();
      FetchEntries(0);
      LS.InitialState(latestEntryTimestamp, buttons);
    }

    method SetBusy()
      modifies this
      ensures Snapshot() == old(Snapshot()).(busy := true)
    {
      busy := true;
    }

    method SetUnbusy()
      modifies this
      ensures Snapshot() == old(Snapshot()).(busy := false)
    {
      busy := false;
    }

    method FetchEntries(setIndex: nat)
      modifies this
      ensures Snapshot() == LS.Fetch(old(Snapshot()), setIndex)
    {
      entrySets := LS.StoreSet(entrySets, setIndex, []);
      if setIndex !in buttons {
        return;
      }
      requests := requests + [LS.FetchRequest(setIndex, oldestTimestamp)];
    }

    /** The handler of `fetchEntries`' response for set `index`. */
    method OnFetchResponse(index: nat, entries: seq<Entry>)
      requires LS.Valid(Snapshot())
      modifies this
      ensures Snapshot() == LS.FetchResponse(old(Snapshot()), index, entries, numberOfEntries)
      ensures LS.Valid(Snapshot())
    {
      LS.FetchResponseFacts(Snapshot(), index, entries, numberOfEntries);
      if |entries| == 0 {
        buttons := buttons - {index};
        SetUnbusy();
        DisplayForTheFirstTime();
      } else {
        oldestTimestamp := entries[|entries| - 1].timestamp;
        SplitEntriesOnType(entries);
        UpdateAndDeleteEntriesToRender();
        var availableEntries := |entriesToRender| - (consumedEntriesIndex + 1);
        if availableEntries >= numberOfEntries {
          SetUnbusy();
          DisplayForTheFirstTime();
        } else {
          FetchEntries(index);
        }
      }
    }

    method DisplayForTheFirstTime()
      modifies this
      ensures Snapshot() == LS.DisplayForTheFirstTime(old(Snapshot()))
      ensures LS.Valid(old(Snapshot())) ==> LS.Valid(Snapshot())
    {
      if consumedEntriesIndex == -1 && |entriesToRender| > 0 {
        RenderEntries(0);
      }
    }

    method SplitEntriesOnType(entries: seq<Entry>)
      modifies this
      ensures Snapshot() == LS.SplitOnType(old(Snapshot()), entries)
    {
      var render, update, delete := entriesToRender, entriesToUpdate, entriesToDelete;
      var i := 0;
      while i < |entries|
        invariant 0 <= i <= |entries|
        invariant render == entriesToRender + Seqs.Filter(HasKind(New), entries[..i])
        invariant update == entriesToUpdate + Seqs.Filter(HasKind(Update), entries[..i])
        invariant delete == entriesToDelete + Seqs.Filter(HasKind(Delete), entries[..i])
        invariant Snapshot() == old(Snapshot())
      {
        var entry := entries[i];
        assert entries[..i + 1] == entries[..i] + [entry];
        Seqs.FilterSnoc(HasKind(New), entries[..i], entry);
        Seqs.FilterSnoc(HasKind(Update), entries[..i], entry);
        Seqs.FilterSnoc(HasKind(Delete), entries[..i], entry);
        match entry.kind {
          case New => render := render + [entry];
          case Update => update := update + [entry];
          case Delete => delete := delete + [entry];
          case Other(_) =>
        }
        i := i + 1;
      }
      assert entries[..i] == entries;
      entriesToRender, entriesToUpdate, entriesToDelete := render, update, delete;
    }

    method UpdateAndDeleteEntriesToRender()
      modifies this
      ensures Snapshot() == LS.Reconcile(old(Snapshot()))
    {
      UpdateEntries();
      DeleteEntries();
    }

    /** Each render entry takes the html of every pending update with its id,
        in order; the used updates are removed after each render entry. */
    method UpdateEntries()
      modifies this
      ensures Snapshot() == old(Snapshot()).(
        entriesToRender := ReconcileUpdates(old(entriesToRender), old(entriesToUpdate)).0,
        entriesToUpdate := ReconcileUpdates(old(entriesToRender), old(entriesToUpdate)).1)
    {
      var render, updates := entriesToRender, entriesToUpdate;
      ghost var render0, updates0 := render, updates;
      var i := 0;
      while i < |render|
        invariant 0 <= i <= |render| == |render0|
        invariant render[..i] == ReconcileUpdates(render0[..i], updates0).0
        invariant render[i..] == render0[i..]
        invariant updates == ReconcileUpdates(render0[..i], updates0).1
        invariant Snapshot() == old(Snapshot())
      {
        var entry := render[i];
        assert entry == render0[i];
        var updated, rest := UpdateFromPending(entry, updates);
        render := render[i := updated];
        assert render0[..i + 1][..i] == render0[..i];
        assert render[..i + 1] == render[..i] + [updated];
        updates := rest;
        i := i + 1;
      }
      assert render[..i] == render && render0[..i] == render0;
      entriesToRender, entriesToUpdate := render, updates;
    }

    /** A render entry is removed when some pending delete has its id, and
        those deletes are used up; holes are closed after each render entry
        (deletes) and at the end (render buffer). */
    method DeleteEntries()
      modifies this
      ensures Snapshot() == old(Snapshot()).(
        entriesToRender := ReconcileDeletes(old(entriesToRender), old(entriesToDelete)).0,
        entriesToDelete := ReconcileDeletes(old(entriesToRender), old(entriesToDelete)).1)
    {
      var render, deletes := entriesToRender, entriesToDelete;
      ghost var deletes0 := deletes;
      var renderSlots := Seqs.Filled(render);
      var i := 0;
      while i < |renderSlots|
        invariant 0 <= i <= |renderSlots| == |render|
        invariant forall k :: i <= k < |renderSlots| ==> renderSlots[k] == Some(render[k])
        invariant Seqs.Compact(renderSlots[..i]) == ReconcileDeletes(render[..i], deletes0).0
        invariant deletes == ReconcileDeletes(render[..i], deletes0).1
        invariant Snapshot() == old(Snapshot())
      {
        var entry := renderSlots[i].value;
        var matched, rest := MatchPendingDeletes(entry, deletes);
        ghost var before := renderSlots;
        if matched {
          renderSlots := renderSlots[i := None];
        }
        DeletesSnoc(render, i, deletes0);
        CompactStep(before, renderSlots, i, matched);
        deletes := rest;
        i := i + 1;
      }
      assert renderSlots[..i] == renderSlots && render[..i] == render;
      entriesToRender, entriesToDelete := Seqs.Compact(renderSlots), deletes;
    }

    /** The callback for live events about entries the loader holds. */
    method HandleFreshEvent(entry: Entry)
      requires LS.Valid(Snapshot())
      modifies this
      ensures Snapshot() == LS.FreshEvent(old(Snapshot()), entry)
      ensures LS.Valid(Snapshot())
    {
      LS.ReconcileValid(LS.SplitOnType(Snapshot(), [entry]));
      SplitEntriesOnType([entry]);
      UpdateAndDeleteEntriesToRender();
    }

    method ClickLoadMoreButton(setIndex: nat)
      requires LS.Valid(Snapshot())
      modifies this
      ensures Snapshot() == LS.ClickLoadMore(old(Snapshot()), setIndex)
      ensures LS.Valid(Snapshot())
    {
      SetBusy();
      RenderEntries(setIndex);
    }

    method RenderEntries(setIndex: nat)
      requires consumedEntriesIndex >= -1
      modifies this
      ensures Snapshot() == LS.Render(old(Snapshot()), setIndex)
      ensures LS.Valid(old(Snapshot())) ==> LS.Valid(Snapshot())
    {
      if setIndex !in buttons {
        return;
      }
      var nextEntry := consumedEntriesIndex + 1;
      var placed := rendered;
      var consumed := consumedEntriesIndex;
      var i := nextEntry;
      while i < |entriesToRender|
        invariant nextEntry <= i
        invariant nextEntry <= |entriesToRender| ==> i <= |entriesToRender|
        invariant nextEntry > |entriesToRender| ==> i == nextEntry
        invariant consumed == i - 1
        invariant nextEntry <= |entriesToRender| ==>
          placed == rendered + LS.Placements(setIndex, entriesToRender[nextEntry..i])
        invariant nextEntry > |entriesToRender| ==> placed == rendered
        invariant Snapshot() == old(Snapshot())
      {
        var entry := entriesToRender[i];
        assert entriesToRender[nextEntry..i + 1] == entriesToRender[nextEntry..i] + [entry];
        placed := placed + [LS.Placement(setIndex, entry.html)];
        consumed := consumed + 1;
        i := i + 1;
      }
      assert nextEntry <= |entriesToRender| ==> entriesToRender[nextEntry..i] == LS.Unrendered(Snapshot());
      rendered, consumedEntriesIndex := placed, consumed;
      FetchEntries(setIndex);
    }

    /** `clickKeyEventLink`; `inPage` says whether the link's target is
        already on the page. */
    method ClickKeyEventLink(entryId: int, inPage: bool)
      requires LS.Valid(Snapshot())
      modifies this
      ensures Snapshot() == LS.ClickKeyEventLink(old(Snapshot()), entryId, inPage)
      ensures LS.Valid(Snapshot())
    {
      if busy {
        return;
      }
      if inPage {
        return;
      }
      SetBusy();
      var setIndex := FindEntrySet(entryId);
      if setIndex >= 0 {
        RenderEntries(setIndex);
      } else {
        FetchAndRenderKeyEventEntry(entryId);
      }
    }

    method FindEntrySet(entryId: int) returns (foundIndex: int)
      modifies this
      ensures (Snapshot(), foundIndex) == LS.FindEntrySet(old(Snapshot()), entryId)
    {
      foundIndex := -1;
      var setIndex := 0;
      while setIndex < |entrySets|
        invariant 0 <= setIndex <= |entrySets|
        invariant forall k :: 0 <= k < setIndex ==> LS.FirstIndexOf(entrySets[k], entryId) == -1
        invariant Snapshot() == old(Snapshot())
      {
        var entryIndex := FindEntry(entryId, entrySets[setIndex]);
        if entryIndex >= 0 {
          assert LS.FirstSetWith(entrySets, entryId) == setIndex;
          if entryIndex == 0 {
            foundIndex := setIndex;
          } else {
            foundIndex := SplitEntrySet(setIndex, entryIndex);
          }
          return;
        }
        setIndex := setIndex + 1;
      }
    }

    method SplitEntrySet(setIndex: nat, entryIndex: nat) returns (newSetIndex: nat)
      requires setIndex < |entrySets|
      modifies this
      ensures (Snapshot(), newSetIndex) == LS.SplitSet(old(Snapshot()), setIndex, entryIndex)
    {
      newSetIndex := |entrySets|;
      var entries := entrySets[setIndex];
      var cut := if entryIndex <= |entries| then entryIndex else |entries|;
      entrySets := entrySets + [entries[cut..]];
      entrySets := entrySets[setIndex := entries[..cut]];
      if setIndex in buttons {
        buttons := buttons + {newSetIndex};
      }
    }

    method FetchAndRenderKeyEventEntry(entryId: int)
      modifies this
      ensures Snapshot() == LS.FetchKeyEntry(old(Snapshot()), entryId)
    {
      var newSetIndex := |entrySets|;
      entrySets := entrySets + [[]];
      requests := requests + [LS.SingleEntry(entryId, newSetIndex)];
    }

    /** The handler of `fetchAndRenderKeyEventEntry`'s response for set
        `index`; `anchorFound` says whether `insertKeyEventButton` found a
        button to place the new one after. */
    method OnKeyEventEntryResponse(index: nat, entries: Option<seq<Entry>>, anchorFound: bool)
      requires LS.Valid(Snapshot())
      modifies this
      ensures Snapshot() == LS.KeyEntryResponse(old(Snapshot()), index, entries, anchorFound)
      ensures LS.Valid(Snapshot())
    {
      if entries.None? {
        return;
      }
      entrySets := LS.StoreSet(entrySets, index, entries.value);
      if anchorFound {
        buttons := buttons + {index};
      }
      RenderEntries(index);
    }
  }
}
