/** The entries the client-side lazy loader receives, and what its three
    buffer operations do to them: `splitEntriesOnType` buckets a response by
    type, `updateEntries` applies pending updates to the render buffer and
    `deleteEntries` removes render entries named by pending deletes. The
    functions here are the specifications the loader's loops are proved
    against (module Lazyloader). */
module LoaderEntries {
  import Seqs

  /** The `type` string of an entry: "new", "update", "delete" or anything else. */
  datatype EntryType = New | Update | Delete | Other(name: string)

  /** An entry of a response. Its timestamp is the one the loader reads from
      the entry's html (`data-timestamp`). */
  datatype Entry = Entry(id: int, kind: EntryType, html: string, timestamp: int)

  function HasKind(k: EntryType): Entry -> bool {
    (e: Entry) => e.kind == k
  }

  function IsOther(e: Entry): bool {
    e.kind.Other?
  }

  function IdsOf(s: seq<Entry>): set<int> {
    set e | e in s :: e.id
  }

  function IdNotIn(ids: set<int>): Entry -> bool {
    (e: Entry) => e.id !in ids
  }

  /** No two entries share an id. */
  ghost predicate UniqueIds(s: seq<Entry>) {
    forall i, j :: 0 <= i < j < |s| ==> s[i].id != s[j].id
  }

  lemma IdsOfSnoc(s: seq<Entry>, x: Entry)
    ensures IdsOf(s + [x]) == IdsOf(s) + {x.id}
  {
    assert forall e :: e in s + [x] <==> e in s || e == x;
  }

  lemma IdsOfPrefix(s: seq<Entry>, j: nat)
    requires j < |s|
    ensures IdsOf(s[..j + 1]) == IdsOf(s[..j]) + {s[j].id}
  {
    assert s[..j + 1] == s[..j] + [s[j]];
    IdsOfSnoc(s[..j], s[j]);
  }

  // ---------------------------------------------------------------------
  // splitEntriesOnType
  // ---------------------------------------------------------------------

  /** The entries of one type, in response order. */
  function OfKind(entries: seq<Entry>, k: EntryType): (r: seq<Entry>)
    ensures |r| <= |entries|
    ensures forall e :: e in r <==> e in entries && e.kind == k
  {
    Seqs.FilterMembers(HasKind(k), entries);
    Seqs.Filter(HasKind(k), entries)
  }

  /** The three buckets and the dropped entries of unknown type partition
      the response. */
  lemma {:induction false} SplitPartition(entries: seq<Entry>)
    ensures |OfKind(entries, New)| + |OfKind(entries, Update)| + |OfKind(entries, Delete)|
            + |Seqs.Filter(IsOther, entries)| == |entries|
  {
    if entries != [] {
      var init := entries[..|entries| - 1];
      var x := entries[|entries| - 1];
      assert entries == init + [x];
      SplitPartition(init);
      Seqs.FilterSnoc(HasKind(New), init, x);
      Seqs.FilterSnoc(HasKind(Update), init, x);
      Seqs.FilterSnoc(HasKind(Delete), init, x);
      Seqs.FilterSnoc(IsOther, init, x);
    }
  }

  // ---------------------------------------------------------------------
  // updateEntry / updateEntries
  // ---------------------------------------------------------------------

  /** `updateEntry`: the render entry takes the update's html. */
  function UpdateEntry(entry: Entry, update: Entry): (r: Entry)
    ensures r.html == update.html
    ensures r.id == entry.id && r.kind == entry.kind && r.timestamp == entry.timestamp
  {
    entry.(html := update.html)
  }

  /** The inner loop of `updateEntries` for one render entry: every pending
      update with the entry's id, in order, overwrites its html. */
  function ApplyUpdates(entry: Entry, updates: seq<Entry>): (r: Entry)
    ensures r.id == entry.id && r.kind == entry.kind && r.timestamp == entry.timestamp
  {
    if updates == [] then entry
    else
      var last := updates[|updates| - 1];
      var before := ApplyUpdates(entry, updates[..|updates| - 1]);
      if last.id == entry.id then UpdateEntry(before, last) else before
  }

  /** An entry without a matching update is unchanged; otherwise it carries
      the html of the LAST matching update. */
  lemma {:induction false} ApplyUpdatesLast(entry: Entry, updates: seq<Entry>)
    ensures entry.id !in IdsOf(updates) ==> ApplyUpdates(entry, updates) == entry
    ensures forall j :: 0 <= j < |updates| && updates[j].id == entry.id
                        && (forall j' :: j < j' < |updates| ==> updates[j'].id != entry.id)
                        ==> ApplyUpdates(entry, updates).html == updates[j].html
  {
    if updates != [] {
      var init := updates[..|updates| - 1];
      assert updates == init + [updates[|updates| - 1]];
      IdsOfSnoc(init, updates[|updates| - 1]);
      ApplyUpdatesLast(entry, init);
      forall j | 0 <= j < |updates| && updates[j].id == entry.id
                 && (forall j' :: j < j' < |updates| ==> updates[j'].id != entry.id)
        ensures ApplyUpdates(entry, updates).html == updates[j].html
      {
        if j < |updates| - 1 {
          assert init[j] == updates[j];
        }
      }
    }
  }

  /** Dropping updates of other entries does not matter; dropping the
      entry's own updates leaves it unchanged. */
  lemma {:induction false} ApplyUpdatesFiltered(entry: Entry, updates: seq<Entry>, ids: set<int>)
    ensures ApplyUpdates(entry, Seqs.Filter(IdNotIn(ids), updates))
         == if entry.id in ids then entry else ApplyUpdates(entry, updates)
  {
    if updates == [] {
      assert Seqs.Filter(IdNotIn(ids), updates) == [];
    } else {
      var init := updates[..|updates| - 1];
      var x := updates[|updates| - 1];
      assert updates == init + [x];
      ApplyUpdatesFiltered(entry, init, ids);
      Seqs.FilterSnoc(IdNotIn(ids), init, x);
      var kept := Seqs.Filter(IdNotIn(ids), init);
      if x.id in ids {
        assert Seqs.Filter(IdNotIn(ids), updates) == kept;
      } else {
        var k := kept + [x];
        assert Seqs.Filter(IdNotIn(ids), updates) == k;
        assert k[..|k| - 1] == kept;
        assert ApplyUpdates(entry, k) == if x.id == entry.id then UpdateEntry(ApplyUpdates(entry, kept), x) else ApplyUpdates(entry, kept);
        assert ApplyUpdates(entry, updates) == if x.id == entry.id then UpdateEntry(ApplyUpdates(entry, init), x) else ApplyUpdates(entry, init);
      }
    }
  }

  /** `updateEntries`: the outer loop over the render buffer. Result: the new
      render buffer and the pending updates left after compaction. */
  function ReconcileUpdates(render: seq<Entry>, updates: seq<Entry>): (r: (seq<Entry>, seq<Entry>))
    ensures |r.0| == |render|
  {
    if render == [] then ([], updates)
    else
      var x := render[|render| - 1];
      var before := ReconcileUpdates(render[..|render| - 1], updates);
      (before.0 + [ApplyUpdates(x, before.1)], Seqs.Filter(IdNotIn({x.id}), before.1))
  }

  /** The pending updates left are exactly, in order, those whose id is not
      the id of any render entry. */
  lemma {:induction false} UpdatesPending(render: seq<Entry>, updates: seq<Entry>)
    ensures ReconcileUpdates(render, updates).1 == Seqs.Filter(IdNotIn(IdsOf(render)), updates)
  {
    if render == [] {
      assert IdsOf(render) == {};
      Seqs.FilterAll(IdNotIn({}), updates);
    } else {
      var init := render[..|render| - 1];
      var x := render[|render| - 1];
      assert render == init + [x];
      IdsOfSnoc(init, x);
      UpdatesPending(init, updates);
      Seqs.FilterFilter(IdNotIn(IdsOf(init)), IdNotIn({x.id}), IdNotIn(IdsOf(render)), updates);
    }
  }

  /** Each render entry keeps its place, id, type and timestamp; the first
      render entry with a given id takes the html of the last pending update
      with that id, and a later render entry with the same id is untouched. */
  lemma {:induction false} UpdatesRender(render: seq<Entry>, updates: seq<Entry>)
    ensures forall i :: 0 <= i < |render| ==>
      ReconcileUpdates(render, updates).0[i]
        == if render[i].id in IdsOf(render[..i]) then render[i] else ApplyUpdates(render[i], updates)
  {
    if render != [] {
      var init := render[..|render| - 1];
      var x := render[|render| - 1];
      assert render == init + [x];
      UpdatesRender(init, updates);
      UpdatesPending(init, updates);
      ApplyUpdatesFiltered(x, updates, IdsOf(init));
      forall i | 0 <= i < |render|
        ensures ReconcileUpdates(render, updates).0[i]
             == if render[i].id in IdsOf(render[..i]) then render[i] else ApplyUpdates(render[i], updates)
      {
        if i < |render| - 1 {
          assert render[..i] == init[..i];
        } else {
          assert render[..i] == init;
        }
      }
    }
  }

  /** Updating never changes which ids the render buffer holds. */
  lemma {:induction false} UpdatesIds(render: seq<Entry>, updates: seq<Entry>)
    ensures IdsOf(ReconcileUpdates(render, updates).0) == IdsOf(render)
  {
    if render != [] {
      var init := render[..|render| - 1];
      var x := render[|render| - 1];
      assert render == init + [x];
      UpdatesIds(init, updates);
      var before := ReconcileUpdates(init, updates);
      IdsOfSnoc(init, x);
      IdsOfSnoc(before.0, ApplyUpdates(x, before.1));
    }
  }

  /** With no pending update matching the render buffer, `updateEntries`
      changes nothing. */
  lemma {:induction false} UpdatesNoMatch(render: seq<Entry>, updates: seq<Entry>)
    requires IdsOf(render) !! IdsOf(updates)
    ensures ReconcileUpdates(render, updates) == (render, updates)
  {
    if render != [] {
      var init := render[..|render| - 1];
      var x := render[|render| - 1];
      assert render == init + [x];
      IdsOfSnoc(init, x);
      UpdatesNoMatch(init, updates);
      ApplyUpdatesLast(x, updates);
      Seqs.FilterAll(IdNotIn({x.id}), updates);
    }
  }

  // ---------------------------------------------------------------------
  // deleteEntries
  // ---------------------------------------------------------------------

  /** `deleteEntries`: a render entry is removed when some pending delete has
      its id, and every pending delete with that id is consumed. Result: the
      compacted render buffer and the pending deletes left. */
  function ReconcileDeletes(render: seq<Entry>, deletes: seq<Entry>): (r: (seq<Entry>, seq<Entry>))
    ensures |r.0| <= |render|
  {
    if render == [] then ([], deletes)
    else
      var x := render[|render| - 1];
      var before := ReconcileDeletes(render[..|render| - 1], deletes);
      (if x.id in IdsOf(before.1) then before.0 else before.0 + [x],
       Seqs.Filter(IdNotIn({x.id}), before.1))
  }

  /** The pending deletes left are exactly, in order, those whose id is not
      the id of any render entry. */
  lemma {:induction false} DeletesPending(render: seq<Entry>, deletes: seq<Entry>)
    ensures ReconcileDeletes(render, deletes).1 == Seqs.Filter(IdNotIn(IdsOf(render)), deletes)
  {
    if render == [] {
      assert IdsOf(render) == {};
      Seqs.FilterAll(IdNotIn({}), deletes);
    } else {
      var init := render[..|render| - 1];
      var x := render[|render| - 1];
      assert render == init + [x];
      IdsOfSnoc(init, x);
      DeletesPending(init, deletes);
      Seqs.FilterFilter(IdNotIn(IdsOf(init)), IdNotIn({x.id}), IdNotIn(IdsOf(render)), deletes);
    }
  }

  /** One more render entry visited by `deleteEntries`' outer loop. */
  lemma DeletesSnoc(render: seq<Entry>, i: nat, deletes: seq<Entry>)
    requires i < |render|
    ensures var before := ReconcileDeletes(render[..i], deletes);
      ReconcileDeletes(render[..i + 1], deletes)
        == (if render[i].id in IdsOf(before.1) then before.0 else before.0 + [render[i]],
            Seqs.Filter(IdNotIn({render[i].id}), before.1))
  {
    assert render[..i + 1][..i] == render[..i];
  }

  /** Whether the last render entry is removed depends only on the input:
      its id has a pending delete and no earlier render entry had that id. */
  lemma DeletesStep(init: seq<Entry>, x: Entry, deletes: seq<Entry>)
    ensures var before := ReconcileDeletes(init, deletes);
      x.id in IdsOf(before.1) <==> x.id in IdsOf(deletes) && x.id !in IdsOf(init)
  {
    DeletesPending(init, deletes);
    Seqs.FilterMembers(IdNotIn(IdsOf(init)), deletes);
  }

  /** The buffer shrinks by exactly the number of distinct render ids that
      have a pending delete. */
  lemma {:induction false} DeletesCount(render: seq<Entry>, deletes: seq<Entry>)
    ensures |ReconcileDeletes(render, deletes).0| == |render| - |IdsOf(render) * IdsOf(deletes)|
  {
    if render != [] {
      var init := render[..|render| - 1];
      var x := render[|render| - 1];
      assert render == init + [x];
      IdsOfSnoc(init, x);
      DeletesCount(init, deletes);
      DeletesStep(init, x, deletes);
      var D := IdsOf(deletes);
      if x.id in D && x.id !in IdsOf(init) {
        assert IdsOf(render) * D == (IdsOf(init) * D) + {x.id};
        assert x.id !in IdsOf(init) * D;
      } else {
        assert IdsOf(render) * D == IdsOf(init) * D;
      }
    }
  }

  /** Survivors are render entries, the render ids can only shrink, and an
      entry whose id has no pending delete survives. */
  lemma {:induction false} DeletesKeep(render: seq<Entry>, deletes: seq<Entry>)
    ensures forall e :: e in ReconcileDeletes(render, deletes).0 ==> e in render
    ensures IdsOf(ReconcileDeletes(render, deletes).0) <= IdsOf(render)
    ensures forall e :: e in render && e.id !in IdsOf(deletes) ==> e in ReconcileDeletes(render, deletes).0
  {
    if render != [] {
      var init := render[..|render| - 1];
      var x := render[|render| - 1];
      assert render == init + [x];
      IdsOfSnoc(init, x);
      DeletesKeep(init, deletes);
      DeletesStep(init, x, deletes);
    }
  }

  /** When render ids are unique, `deleteEntries` is an order-keeping filter:
      exactly the render entries whose id has a pending delete go. */
  lemma {:induction false} DeletesFilter(render: seq<Entry>, deletes: seq<Entry>)
    requires UniqueIds(render)
    ensures ReconcileDeletes(render, deletes).0 == Seqs.Filter(IdNotIn(IdsOf(deletes)), render)
  {
    if render != [] {
      var init := render[..|render| - 1];
      var x := render[|render| - 1];
      assert render == init + [x];
      DeletesFilter(init, deletes);
      DeletesStep(init, x, deletes);
      assert x.id !in IdsOf(init) by {
        forall e | e in init ensures e.id != x.id {
          var i :| 0 <= i < |init| && init[i] == e;
          assert render[i] == e;
        }
      }
    }
  }

  /** With no pending delete matching the render buffer, `deleteEntries`
      changes nothing. */
  lemma {:induction false} DeletesNoMatch(render: seq<Entry>, deletes: seq<Entry>)
    requires IdsOf(render) !! IdsOf(deletes)
    ensures ReconcileDeletes(render, deletes) == (render, deletes)
  {
    if render != [] {
      var init := render[..|render| - 1];
      var x := render[|render| - 1];
      assert render == init + [x];
      IdsOfSnoc(init, x);
      DeletesNoMatch(init, deletes);
      Seqs.FilterAll(IdNotIn({x.id}), deletes);
    }
  }

  /** A single new delete against a reconciled buffer: when its id is in the
      buffer, the buffer loses exactly one entry and the delete is consumed;
      otherwise nothing changes and the delete stays pending. */
  lemma FreshDelete(render: seq<Entry>, deletes: seq<Entry>, x: Entry)
    requires IdsOf(render) !! IdsOf(deletes)
    ensures x.id in IdsOf(render) ==>
      |ReconcileDeletes(render, deletes + [x]).0| == |render| - 1
      && ReconcileDeletes(render, deletes + [x]).1 == deletes
    ensures x.id !in IdsOf(render) ==> ReconcileDeletes(render, deletes + [x]) == (render, deletes + [x])
  {
    IdsOfSnoc(deletes, x);
    if x.id in IdsOf(render) {
      DeletesCount(render, deletes + [x]);
      assert IdsOf(render) * IdsOf(deletes + [x]) == {x.id};
      DeletesPending(render, deletes + [x]);
      Seqs.FilterSnoc(IdNotIn(IdsOf(render)), deletes, x);
      Seqs.FilterAll(IdNotIn(IdsOf(render)), deletes);
    } else {
      DeletesNoMatch(render, deletes + [x]);
    }
  }
}
