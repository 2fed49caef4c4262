/** The server-side entry query of the liveblog (WPCOM_Liveblog_Entry_Query).

    The WordPress storage call that lists the stored entries (in ascending or
    descending date order, with its cache) is abstracted as the input
    sequence each operation receives. Entries are values: the PHP code
    mutates stored entry objects in place (`set_content`, `set_key_event`),
    which is modelled by storing an updated copy under the same key. */
module EntryQuery {
  import opened Wrappers
  import Seqs
  import opened PhpArray

  /** Comment ids. PHP's `empty()` treats 0 as "no id". */
  type Id = nat

  const NoRef: Id := 0

  datatype Kind = New | Update | Delete

  /** One liveblog entry: a `new` entry carries content, an `update` names the
      entry it `replaces`, a `delete` names the entry it `deletes`. */
  datatype Entry = Entry(
    id: Id,
    kind: Kind,
    timestamp: int,
    content: string,
    replacesId: Id,
    deletesId: Id,
    keyEvent: bool)

  /** Fatal errors of the PHP code: an `update` whose target is not in the
      aggregate dereferences `null` (`$aggregated[$id]->set_content(...)`). */
  datatype QueryError = DanglingUpdate(replacesId: Id)

  /** The id-keyed, insertion-ordered aggregate. */
  type Aggregated = OrderedMap<Id, Entry>

  // ---------------------------------------------------------------------
  // aggregate
  // ---------------------------------------------------------------------

  /** One iteration of the `aggregate` loop. */
  function Step(m: Aggregated, e: Entry): (r: Result<Aggregated, QueryError>)
    requires m.Valid()
    ensures r.Success? ==> r.value.Valid()
    ensures r.Failure? <==> e.kind == Update && e.replacesId !in m.vals
  {
    match e.kind
    case New => Success(m.Set(e.id, e))
    case Delete => Success(m.Unset(e.deletesId))
    case Update =>
      if e.replacesId !in m.vals then Failure(DanglingUpdate(e.replacesId))
      else
        var target := m.vals[e.replacesId];
        Success(m.Set(e.replacesId, target.(content := e.content, keyEvent := e.keyEvent)))
  }

  /** The aggregate of an ascending list of entries: `Step` folded from the
      left, stopping at the first fatal error. */
  function Fold(events: seq<Entry>): (r: Result<Aggregated, QueryError>)
    ensures r.Success? ==> r.value.Valid()
  {
    if events == [] then Success(Empty())
    else
      match Fold(events[..|events| - 1])
      case Failure(err) => Failure(err)
      case Success(m) => Step(m, events[|events| - 1])
  }

  /** A `new` entry is stored under its own id; every other key keeps its
      value, and a fresh id goes to the end of the order. */
  lemma StepNew(m: Aggregated, e: Entry)
    requires m.Valid() && e.kind == New
    ensures Step(m, e).Success?
    ensures Step(m, e).value.vals == m.vals[e.id := e]
    ensures Step(m, e).value.keys == if e.id in m.vals then m.keys else m.keys + [e.id]
  {
  }

  /** A `delete` removes exactly the key it names, and leaves the aggregate
      as it was when that key is absent. */
  lemma StepDelete(m: Aggregated, e: Entry)
    requires m.Valid() && e.kind == Delete
    ensures Step(m, e).Success?
    ensures Step(m, e).value.vals == m.vals - {e.deletesId}
    ensures e.deletesId !in m.vals ==> Step(m, e).value == m
  {
    if e.deletesId !in m.vals {
      UnsetMissing(m, e.deletesId);
    }
  }

  /** An `update` of a present entry replaces its content and sets its
      key-event flag to exactly the update's flag, in place; an `update` of
      an absent entry is a fatal error. */
  lemma StepUpdate(m: Aggregated, e: Entry)
    requires m.Valid() && e.kind == Update
    ensures e.replacesId !in m.vals ==> Step(m, e) == Failure(DanglingUpdate(e.replacesId))
    ensures e.replacesId in m.vals ==>
      && Step(m, e).Success?
      && Step(m, e).value.keys == m.keys
      && Step(m, e).value.vals.Keys == m.vals.Keys
      && Step(m, e).value.vals[e.replacesId].content == e.content
      && Step(m, e).value.vals[e.replacesId].keyEvent == e.keyEvent
      && Step(m, e).value.vals[e.replacesId].id == m.vals[e.replacesId].id
      && Step(m, e).value.vals[e.replacesId].timestamp == m.vals[e.replacesId].timestamp
      && Step(m, e).value.vals[e.replacesId]
         == m.vals[e.replacesId].(content := e.content, keyEvent := e.keyEvent)
      && forall k :: k in m.vals && k != e.replacesId ==> Step(m, e).value.vals[k] == m.vals[k]
  {
  }

  /** Once the fold has failed, later entries do not change the outcome. */
  lemma {:induction false} FoldFailureSticks(events: seq<Entry>, i: nat)
    requires i <= |events|
    requires Fold(events[..i]).Failure?
    ensures Fold(events) == Fold(events[..i])
  {
    if i < |events| {
      var init := events[..|events| - 1];
      assert init[..i] == events[..i];
      FoldFailureSticks(init, i);
    } else {
      assert events[..i] == events;
    }
  }

  /** `aggregate`: the foreach loop over the entries, mutating the map. */
  method Aggregate(events: seq<Entry>) returns (r: Result<Aggregated, QueryError>)
    ensures r == Fold(events)
  {
    var aggregated: Aggregated := Empty();
    var i := 0;
    while i < |events|
      invariant 0 <= i <= |events|
      invariant Fold(events[..i]) == Success(aggregated)
    {
      var event := events[i];
      assert events[..i + 1][..i] == events[..i];
      assert Fold(events[..i + 1]) == Step(aggregated, event);
      if event.kind == New {
        aggregated := aggregated.Set(event.id, event);
      } else if event.kind == Delete {
        aggregated := aggregated.Unset(event.deletesId);
      } else {
        var id := event.replacesId;
        if id !in aggregated.vals {
          FoldFailureSticks(events, i + 1);
          return Failure(DanglingUpdate(id));
        }
        var target := aggregated.vals[id].(content := event.content);
        if event.keyEvent {
          target := target.(keyEvent := true);
        } else {
          target := target.(keyEvent := false);
        }
        aggregated := aggregated.Set(id, target);
      }
      i := i + 1;
    }
    assert events[..i] == events;
    r := Success(aggregated);
  }

  /** The key-event flag is overwritten, not accumulated: new(k, unflagged),
      update(k, flagged), update(k, unflagged) leaves k unflagged, and no key
      event is reported. */
  lemma FlagIsOverwritten(k: Id, t: int)
    ensures
      var events := [
        Entry(k, New, t, "a", NoRef, NoRef, false),
        Entry(k + 1, Update, t + 1, "b", k, NoRef, true),
        Entry(k + 2, Update, t + 2, "c", k, NoRef, false)];
      && Fold(events).Success?
      && k in Fold(events).value.vals
      && !Fold(events).value.vals[k].keyEvent
      && KeyEvents(events) == Success([])
  {
    var e0 := Entry(k, New, t, "a", NoRef, NoRef, false);
    var e1 := Entry(k + 1, Update, t + 1, "b", k, NoRef, true);
    var e2 := Entry(k + 2, Update, t + 2, "c", k, NoRef, false);
    var events := [e0, e1, e2];
    var m1 := Empty<Id, Entry>().Set(k, e0);
    assert Fold([e0]) == Success(m1) by { assert [e0][..0] == []; }
    var m2 := m1.Set(k, e0.(content := "b", keyEvent := true));
    assert Fold([e0, e1]) == Success(m2) by { assert [e0, e1][..1] == [e0]; }
    var m3 := m2.Set(k, e0.(content := "c", keyEvent := false));
    assert Fold(events) == Success(m3) by { assert events[..2] == [e0, e1]; }
    assert m3.keys == [k];
    assert m3.Values() == [m3.vals[k]];
    Seqs.FilterSnoc(IsKeyEvent, [], m3.vals[k]);
    assert [] + [m3.vals[k]] == [m3.vals[k]];
  }

  /** An update that names an id no earlier entry created is a fatal error. */
  lemma DanglingUpdateFails(e: Entry)
    requires e.kind == Update
    ensures Fold([e]) == Failure(DanglingUpdate(e.replacesId))
    ensures KeyEvents([e]) == Failure(DanglingUpdate(e.replacesId))
  {
    assert [e][..0] == [];
  }

  // ---------------------------------------------------------------------
  // get_all_key_events, get_key_event_by_id
  // ---------------------------------------------------------------------

  function IsKeyEvent(e: Entry): bool {
    e.keyEvent
  }

  /** The key events of the ascending entry list, newest first. */
  function KeyEvents(events: seq<Entry>): (r: Result<seq<Entry>, QueryError>)
    ensures events == [] ==> r == Success([])
    ensures r.Failure? <==> Fold(events).Failure?
    ensures r.Success? && events != [] ==>
      forall e :: e in r.value <==> e in Fold(events).value.vals.Values && e.keyEvent
  {
    if events == [] then Success([])
    else
      match Fold(events)
      case Failure(err) => Failure(err)
      case Success(m) =>
        var vs := m.Values();
        ValuesMembers(m);
        var flagged := Seqs.Filter(IsKeyEvent, vs);
        Seqs.FilterMembers(IsKeyEvent, vs);
        Seqs.ReverseMembers(flagged);
        Success(Seqs.Reverse(flagged))
  }

  /** The key events come in reverse of the aggregate's insertion order: of
      two key events, the earlier one is stored under a key that comes later
      in the aggregate's key order. */
  lemma KeyEventsOrder(events: seq<Entry>)
    requires events != [] && Fold(events).Success?
    ensures var m := Fold(events).value;
      forall i, j :: 0 <= i < j < |KeyEvents(events).value| ==>
        Seqs.Precedes(m.Values(), KeyEvents(events).value[j], KeyEvents(events).value[i])
  {
    KeyEventsShape(events);
    Seqs.ReverseFilterOrder(IsKeyEvent, Fold(events).value.Values());
  }

  /** How the key-event list is built from a successful aggregate. */
  lemma KeyEventsShape(events: seq<Entry>)
    requires events != [] && Fold(events).Success?
    ensures KeyEvents(events)
         == Success(Seqs.Reverse(Seqs.Filter(IsKeyEvent, Fold(events).value.Values())))
  {
  }

  /** The entry list is in ascending date order. */
  ghost predicate Ascending(events: seq<Entry>) {
    forall i, j :: 0 <= i < j < |events| ==> events[i].timestamp <= events[j].timestamp
  }

  /** No two `new` entries share an id (comment ids are unique). */
  ghost predicate DistinctNewIds(events: seq<Entry>) {
    forall i, j :: 0 <= i < j < |events| && events[i].kind == New && events[j].kind == New
      ==> events[i].id != events[j].id
  }

  function NewIds(events: seq<Entry>): set<Id> {
    set e | e in events && e.kind == New :: e.id
  }

  /** The aggregate's values are in ascending date order along its keys. */
  ghost predicate KeysByTime(m: Aggregated) {
    forall a, b :: 0 <= a < b < |m.keys| && m.keys[a] in m.vals && m.keys[b] in m.vals
      ==> m.vals[m.keys[a]].timestamp <= m.vals[m.keys[b]].timestamp
  }

  /** No stored entry is dated after `t`. */
  ghost predicate NotAfter(m: Aggregated, t: int) {
    forall k :: k in m.vals ==> m.vals[k].timestamp <= t
  }

  /** A fresh `new` entry dated no earlier than any stored one keeps the
      values in date order along the keys. */
  lemma NewKeepsKeysByTime(m: Aggregated, e: Entry)
    requires m.Valid() && KeysByTime(m) && NotAfter(m, e.timestamp)
    requires e.kind == New && e.id !in m.vals
    ensures KeysByTime(Step(m, e).value) && NotAfter(Step(m, e).value, e.timestamp)
  {
    StepNew(m, e);
    var r := Step(m, e).value;
    forall a, b | 0 <= a < b < |r.keys| && r.keys[a] in r.vals && r.keys[b] in r.vals
      ensures r.vals[r.keys[a]].timestamp <= r.vals[r.keys[b]].timestamp
    {
      assert r.keys[a] == m.keys[a] && m.keys[a] in m.vals && m.keys[a] != e.id;
      if b < |m.keys| {
        assert r.keys[b] == m.keys[b] && m.keys[b] in m.vals && m.keys[b] != e.id;
      }
    }
  }

  /** An update keeps every stored date, so the date order along the keys. */
  lemma UpdateKeepsKeysByTime(m: Aggregated, e: Entry)
    requires m.Valid() && KeysByTime(m) && NotAfter(m, e.timestamp)
    requires e.kind == Update && Step(m, e).Success?
    ensures KeysByTime(Step(m, e).value) && NotAfter(Step(m, e).value, e.timestamp)
  {
    StepUpdate(m, e);
  }

  /** A delete keeps the remaining keys in their order. */
  lemma DeleteKeepsKeysByTime(m: Aggregated, e: Entry)
    requires m.Valid() && KeysByTime(m) && NotAfter(m, e.timestamp)
    requires e.kind == Delete
    ensures KeysByTime(Step(m, e).value) && NotAfter(Step(m, e).value, e.timestamp)
  {
    StepDelete(m, e);
    var r := Step(m, e).value;
    Seqs.FilterOrder(NotKey(e.deletesId), m.keys);
    forall a, b | 0 <= a < b < |r.keys| && r.keys[a] in r.vals && r.keys[b] in r.vals
      ensures r.vals[r.keys[a]].timestamp <= r.vals[r.keys[b]].timestamp
    {
      assert Seqs.Precedes(m.keys, r.keys[a], r.keys[b]);
    }
  }

  /** An ascending entry list with fresh `new` ids aggregates to values in
      date order along the keys, none dated after the last entry. */
  lemma {:induction false} FoldKeysByTime(events: seq<Entry>)
    requires Ascending(events) && DistinctNewIds(events) && Fold(events).Success?
    ensures KeysByTime(Fold(events).value)
    ensures events != [] ==> NotAfter(Fold(events).value, events[|events| - 1].timestamp)
  {
    if events != [] {
      var init := events[..|events| - 1];
      var e := events[|events| - 1];
      assert events == init + [e];
      assert Fold(init).Success?;
      assert Ascending(init) && DistinctNewIds(init);
      FoldKeysByTime(init);
      FoldKeysAreNewIds(init);
      var m := Fold(init).value;
      if init != [] {
        assert init[|init| - 1].timestamp <= e.timestamp;
      }
      if e.kind == New {
        NewKeepsKeysByTime(m, e);
      } else if e.kind == Update {
        UpdateKeepsKeysByTime(m, e);
      } else {
        DeleteKeepsKeysByTime(m, e);
      }
    }
  }

  /** Only a `new` entry adds a key to the aggregate. */
  lemma {:induction false} FoldKeysAreNewIds(events: seq<Entry>)
    requires Fold(events).Success?
    ensures Fold(events).value.vals.Keys <= NewIds(events)
  {
    if events != [] {
      var init := events[..|events| - 1];
      var e := events[|events| - 1];
      assert events == init + [e];
      assert Fold(init).Success?;
      FoldKeysAreNewIds(init);
      assert NewIds(init) <= NewIds(events);
      var m := Fold(init).value;
      if e.kind == New {
        StepNew(m, e);
      } else if e.kind == Update {
        StepUpdate(m, e);
      } else {
        StepDelete(m, e);
      }
    }
  }

  /** For an ascending entry list with fresh `new` ids, the key events are
      newest first. */
  lemma KeyEventsNewestFirst(events: seq<Entry>)
    requires Ascending(events) && DistinctNewIds(events) && Fold(events).Success?
    ensures forall i, j :: 0 <= i < j < |KeyEvents(events).value| ==>
      KeyEvents(events).value[i].timestamp >= KeyEvents(events).value[j].timestamp
  {
    if events != [] {
      var m := Fold(events).value;
      var r := KeyEvents(events).value;
      KeyEventsOrder(events);
      FoldKeysByTime(events);
      var vs := m.Values();
      forall i, j | 0 <= i < j < |r| ensures r[i].timestamp >= r[j].timestamp {
        assert Seqs.Precedes(vs, r[j], r[i]);
        var a, b :| 0 <= a < b < |vs| && vs[a] == r[j] && vs[b] == r[i];
        assert m.keys[a] in m.vals && m.keys[b] in m.vals;
      }
    }
  }

  /** `get_all_key_events`. */
  method GetAllKeyEvents(events: seq<Entry>) returns (r: Result<seq<Entry>, QueryError>)
    ensures r == KeyEvents(events)
  {
    if |events| == 0 {
      return Success([]);
    }
    var aggregated := Aggregate(events);
    match aggregated {
      case Failure(err) =>
        r := Failure(err);
      case Success(m) =>
        var keyEvents := Seqs.Filter(IsKeyEvent, m.Values());
        r := Success(Seqs.Reverse(keyEvents));
    }
  }

  /** `found` is the first entry of `s` with id `id`, or None when no entry has it. */
  ghost predicate IsFirstWithId(s: seq<Entry>, id: Id, found: Option<Entry>) {
    match found
    case None => forall e :: e in s ==> e.id != id
    case Some(e) =>
      exists i :: 0 <= i < |s| && s[i] == e && e.id == id && forall j :: 0 <= j < i ==> s[j].id != id
  }

  /** `get_key_event_by_id`: the first key event with the id, or null. */
  method GetKeyEventById(events: seq<Entry>, id: Id) returns (r: Result<Option<Entry>, QueryError>)
    ensures KeyEvents(events).Failure? ==> r == Failure(KeyEvents(events).error)
    ensures KeyEvents(events).Success? ==> r.Success? && IsFirstWithId(KeyEvents(events).value, id, r.value)
  {
    var allKeyEvents := GetAllKeyEvents(events);
    if allKeyEvents.Failure? {
      return Failure(allKeyEvents.error);
    }
    var keyEvents := allKeyEvents.value;
    var i := 0;
    while i < |keyEvents|
      invariant 0 <= i <= |keyEvents|
      invariant forall j :: 0 <= j < i ==> keyEvents[j].id != id
    {
      if keyEvents[i].id == id {
        return Success(Some(keyEvents[i]));
      }
      i := i + 1;
    }
    r := Success(None);
  }

  // ---------------------------------------------------------------------
  // assoc_array_by_id, remove_replaced_entries, get_between_timestamps
  // ---------------------------------------------------------------------

  /** The entries keyed by id, each id at its first position, a later entry
      with the same id overwriting the earlier one. */
  function ById(entries: seq<Entry>): (r: Aggregated)
    ensures r.Valid()
  {
    if entries == [] then Empty()
    else
      var last := entries[|entries| - 1];
      ById(entries[..|entries| - 1]).Set(last.id, last)
  }

  function IdsOf(entries: seq<Entry>): set<Id> {
    set e | e in entries :: e.id
  }

  /** No later entry has the id of `entries[i]`. */
  ghost predicate IsLastWithId(entries: seq<Entry>, i: nat)
    requires i < |entries|
  {
    forall j :: i < j < |entries| ==> entries[j].id != entries[i].id
  }

  lemma IdsOfSnoc(entries: seq<Entry>, x: Entry)
    ensures IdsOf(entries + [x]) == IdsOf(entries) + {x.id}
  {
    assert forall e :: e in entries + [x] <==> e in entries || e == x;
  }

  /** The keys of `assoc_array_by_id` are exactly the input ids. */
  lemma {:induction false} ByIdKeys(entries: seq<Entry>)
    ensures ById(entries).vals.Keys == IdsOf(entries)
  {
    if entries != [] {
      var init := entries[..|entries| - 1];
      var last := entries[|entries| - 1];
      assert entries == init + [last];
      ByIdKeys(init);
      IdsOfSnoc(init, last);
    }
  }

  /** Every value of `assoc_array_by_id` is an input entry. */
  lemma {:induction false} ByIdValues(entries: seq<Entry>)
    ensures forall k :: k in ById(entries).vals ==> ById(entries).vals[k] in entries
  {
    if entries != [] {
      var init := entries[..|entries| - 1];
      assert entries == init + [entries[|entries| - 1]];
      ByIdValues(init);
    }
  }

  /** The value under an id is the LAST input entry with that id. */
  lemma {:induction false} ByIdLastWins(entries: seq<Entry>)
    ensures forall i :: 0 <= i < |entries| && IsLastWithId(entries, i)
              ==> entries[i].id in ById(entries).vals && ById(entries).vals[entries[i].id] == entries[i]
  {
    if entries != [] {
      var init := entries[..|entries| - 1];
      var last := entries[|entries| - 1];
      assert entries == init + [last];
      ByIdLastWins(init);
      ByIdKeys(init);
      var m := ById(entries);
      forall i | 0 <= i < |entries| && IsLastWithId(entries, i)
        ensures m.vals[entries[i].id] == entries[i]
      {
        if i < |entries| - 1 {
          assert init[i] == entries[i];
          assert IsLastWithId(init, i) by {
            forall j | i < j < |init| ensures init[j].id != init[i].id {
              assert init[j] == entries[j];
            }
          }
        }
      }
    }
  }

  /** Every id of the input is a key, every value is an input entry, and the
      value under an id is its LAST entry with that id. */
  lemma ByIdContents(entries: seq<Entry>)
    ensures ById(entries).vals.Keys == IdsOf(entries)
    ensures forall k :: k in ById(entries).vals ==> ById(entries).vals[k] in entries
    ensures forall i :: 0 <= i < |entries| && IsLastWithId(entries, i)
              ==> ById(entries).vals[entries[i].id] == entries[i]
  {
    ByIdKeys(entries);
    ByIdValues(entries);
    ByIdLastWins(entries);
  }

  /** `assoc_array_by_id`. */
  method AssocArrayById(entries: seq<Entry>) returns (r: Aggregated)
    ensures r == ById(entries)
  {
    r := Empty();
    var i := 0;
    while i < |entries|
      invariant 0 <= i <= |entries|
      invariant r == ById(entries[..i])
    {
      assert entries[..i + 1][..i] == entries[..i];
      r := r.Set(entries[i].id, entries[i]);
      i := i + 1;
    }
    assert entries[..i] == entries;
  }

  /** The foreach of `remove_replaced_entries` over the snapshot keys `ks`:
      the visited entry is dropped from the LIVE map when its `replaces` id is
      non-empty and still set in the live map. */
  function DropReplaced(snapshot: Aggregated, ks: seq<Id>): (r: Aggregated)
    requires snapshot.Valid()
    ensures r.Valid()
  {
    if ks == [] then snapshot
    else
      var live := DropReplaced(snapshot, ks[..|ks| - 1]);
      var id := ks[|ks| - 1];
      if id in snapshot.vals && snapshot.vals[id].replacesId != NoRef
         && snapshot.vals[id].replacesId in live.vals
      then live.Unset(id)
      else live
  }

  /** What `remove_replaced_entries` returns. */
  function RemoveReplaced(entries: seq<Entry>): (r: Aggregated)
    ensures r.Valid()
  {
    if entries == [] then Empty()
    else
      var byId := ById(entries);
      DropReplaced(byId, byId.keys)
  }

  /** Properties of the removal loop: it only removes (values unchanged),
      never removes an unvisited entry, an entry with an empty `replaces`, or
      an entry whose target is not in the snapshot; and it removes a visited
      entry whose target is in the snapshot and itself replaces nothing. */
  lemma {:induction false} DropReplacedFacts(snapshot: Aggregated, ks: seq<Id>)
    requires snapshot.Valid()
    ensures var r := DropReplaced(snapshot, ks);
      && (forall k :: k in r.vals ==> k in snapshot.vals && r.vals[k] == snapshot.vals[k])
      && (forall k :: k in snapshot.vals && k !in ks ==> k in r.vals)
      && (forall k :: k in snapshot.vals && snapshot.vals[k].replacesId == NoRef ==> k in r.vals)
      && (forall k :: k in snapshot.vals && snapshot.vals[k].replacesId !in snapshot.vals ==> k in r.vals)
      && (forall k :: k in ks && k in snapshot.vals && ReplacesPlainEntry(snapshot, k) ==> k !in r.vals)
  {
    if ks != [] {
      var init := ks[..|ks| - 1];
      var id := ks[|ks| - 1];
      assert ks == init + [id];
      DropReplacedFacts(snapshot, init);
    }
  }

  /** The entries that survive `remove_replaced_entries`: their ids are input
      ids and each is the last input entry with its id; the last entry with an
      id is kept when it replaces nothing or when its target is not among the
      input ids; an entry is dropped when its target is stored and that target
      itself replaces nothing. */
  lemma RemoveReplacedFacts(entries: seq<Entry>)
    ensures var r := RemoveReplaced(entries);
      && r.vals.Keys <= IdsOf(entries)
      && (forall k :: k in r.vals ==> r.vals[k] in entries && r.vals[k].id == k)
      && (forall i :: 0 <= i < |entries| && IsLastWithId(entries, i) && entries[i].replacesId == NoRef
            ==> entries[i].id in r.vals)
      && (forall i :: 0 <= i < |entries| && IsLastWithId(entries, i) && entries[i].replacesId !in IdsOf(entries)
            ==> entries[i].id in r.vals)
      && (forall k :: k in ById(entries).vals && ReplacesPlainEntry(ById(entries), k) ==> k !in r.vals)
  {
    if entries != [] {
      var byId := ById(entries);
      var r := DropReplaced(byId, byId.keys);
      ByIdContents(entries);
      DropReplacedFacts(byId, byId.keys);
      forall k | k in r.vals ensures r.vals[k] in entries && r.vals[k].id == k {
        ByIdKeyIsId(entries, k);
      }
      forall i | 0 <= i < |entries| && IsLastWithId(entries, i)
        ensures byId.vals[entries[i].id] == entries[i]
      {
      }
      forall k | k in byId.vals && ReplacesPlainEntry(byId, k) ensures k !in r.vals {
        assert k in byId.keys;
      }
    }
  }

  /** The entry stored under `k` names a stored target that itself replaces nothing. */
  ghost predicate ReplacesPlainEntry(m: Aggregated, k: Id)
    requires k in m.vals
  {
    var t := m.vals[k].replacesId;
    t != NoRef && t in m.vals && m.vals[t].replacesId == NoRef
  }

  /** The value stored under an id carries that id. */
  lemma {:induction false} ByIdKeyIsId(entries: seq<Entry>, k: Id)
    requires k in ById(entries).vals
    ensures ById(entries).vals[k].id == k
  {
    var init := entries[..|entries| - 1];
    var last := entries[|entries| - 1];
    if k != last.id {
      ByIdKeyIsId(init, k);
    }
  }

  /** One more entry at the end of the input of `assoc_array_by_id`. */
  lemma ByIdSnoc(entries: seq<Entry>, x: Entry)
    ensures ById(entries + [x]) == ById(entries).Set(x.id, x)
  {
    assert (entries + [x])[..|entries|] == entries;
  }

  /** One more visited key in the removal loop. */
  lemma DropReplacedSnoc(snapshot: Aggregated, ks: seq<Id>, id: Id)
    requires snapshot.Valid()
    ensures DropReplaced(snapshot, ks + [id])
         == var live := DropReplaced(snapshot, ks);
            if id in snapshot.vals && snapshot.vals[id].replacesId != NoRef
               && snapshot.vals[id].replacesId in live.vals
            then live.Unset(id)
            else live
  {
    assert (ks + [id])[..|ks|] == ks;
  }

  /** One more snapshot key visited, as the removal loop visits them. */
  lemma DropReplacedPrefix(snapshot: Aggregated, ks: seq<Id>, i: nat)
    requires snapshot.Valid() && i < |ks| && ks[i] in snapshot.vals
    ensures DropReplaced(snapshot, ks[..i + 1])
         == var live := DropReplaced(snapshot, ks[..i]);
            if snapshot.vals[ks[i]].replacesId != NoRef && snapshot.vals[ks[i]].replacesId in live.vals
            then live.Unset(ks[i])
            else live
  {
    assert ks[..i + 1] == ks[..i] + [ks[i]];
    DropReplacedSnoc(snapshot, ks[..i], ks[i]);
  }

  /** `assoc_array_by_id` of two entries with ids 1 and 2. */
  lemma ByIdOfTwo(a: Entry, b: Entry)
    requires a.id == 1 && b.id == 2
    ensures ById([a, b]) == OrderedMap([1, 2], map[1 := a, 2 := b])
  {
    assert ById([]) == Empty<Id, Entry>();
    ByIdSnoc([], a);
    assert [] + [a] == [a];
    var m1 := Empty<Id, Entry>().Set(1, a);
    assert m1 == OrderedMap([1], map[1 := a]);
    ByIdSnoc([a], b);
    assert [a] + [b] == [a, b];
    assert m1.Set(2, b) == OrderedMap([1, 2], map[1 := a, 2 := b]);
  }

  /** `assoc_array_by_id` of three entries with ids 1, 2 and 3. */
  lemma ByIdOfThree(a: Entry, b: Entry, c: Entry)
    requires a.id == 1 && b.id == 2 && c.id == 3
    ensures ById([a, b, c]) == OrderedMap([1, 2, 3], map[1 := a, 2 := b, 3 := c])
  {
    ByIdOfTwo(a, b);
    ByIdSnoc([a, b], c);
    assert [a, b] + [c] == [a, b, c];
  }

  /** `[A(id 1), B(id 2, replaces 1)]` keeps only id 1. */
  lemma RemoveReplacedPair(a: Entry, b: Entry)
    requires a.id == 1 && a.replacesId == NoRef
    requires b.id == 2 && b.replacesId == 1
    ensures RemoveReplaced([a, b]).vals.Keys == {1}
  {
    ByIdOfTwo(a, b);
    var byId := ById([a, b]);
    var live1 := DropReplacedVisitFirst(byId, [1, 2]);
    DropReplacedPrefix(byId, [1, 2], 1);
    assert [1, 2][..2] == [1, 2];
  }

  /** The removal loop after visiting the first key, when that entry
      replaces nothing. */
  lemma DropReplacedVisitFirst(snapshot: Aggregated, ks: seq<Id>) returns (live: Aggregated)
    requires snapshot.Valid() && |ks| > 0 && ks[0] in snapshot.vals
    requires snapshot.vals[ks[0]].replacesId == NoRef
    ensures live == DropReplaced(snapshot, ks[..1]) == snapshot
  {
    assert ks[..0] == [];
    DropReplacedPrefix(snapshot, ks, 0);
    live := snapshot;
  }

  /** A snapshot holding the chain 1, 2 (replaces 1), 3 (replaces 2). */
  ghost predicate IsChain(m: Aggregated) {
    m.Valid() && m.keys == [1, 2, 3]
    && m.vals[1].replacesId == NoRef && m.vals[2].replacesId == 1 && m.vals[3].replacesId == 2
  }

  /** Visiting 1 keeps it, visiting 2 removes it (1 is live). */
  lemma ChainFirstTwo(m: Aggregated)
    requires IsChain(m)
    ensures DropReplaced(m, m.keys[..2]).vals.Keys == {1, 3}
  {
    var live1 := DropReplacedVisitFirst(m, m.keys);
    DropReplacedPrefix(m, m.keys, 1);
  }

  /** Visiting 3 keeps it: its target 2 is no longer live. */
  lemma ChainAll(m: Aggregated)
    requires IsChain(m)
    ensures DropReplaced(m, m.keys).vals.Keys == {1, 3}
  {
    ChainFirstTwo(m);
    DropReplacedPrefix(m, m.keys, 2);
    assert m.keys[..3] == m.keys;
  }

  /** The check runs against the live map: in a chain A(1), B(2 replaces 1),
      C(3 replaces 2) the removal of B makes C survive, so ids 1 and 3 remain. */
  lemma RemoveReplacedChain(a: Entry, b: Entry, c: Entry)
    requires a.id == 1 && a.replacesId == NoRef
    requires b.id == 2 && b.replacesId == 1
    requires c.id == 3 && c.replacesId == 2
    ensures RemoveReplaced([a, b, c]).vals.Keys == {1, 3}
  {
    ByIdOfThree(a, b, c);
    ChainAll(ById([a, b, c]));
  }

  /** `remove_replaced_entries`. */
  method RemoveReplacedEntries(entries: seq<Entry>) returns (r: Aggregated)
    ensures r == RemoveReplaced(entries)
  {
    if |entries| == 0 {
      return Empty();
    }
    var entriesById := AssocArrayById(entries);
    var keys := entriesById.keys;
    r := entriesById;
    var i := 0;
    while i < |keys|
      invariant 0 <= i <= |keys|
      invariant r == DropReplaced(entriesById, keys[..i])
    {
      var id := keys[i];
      var entry := entriesById.vals[id];
      DropReplacedPrefix(entriesById, keys, i);
      if entry.replacesId != NoRef && entry.replacesId in r.vals {
        r := r.Unset(id);
      }
      i := i + 1;
    }
    assert keys[..i] == keys;
  }

  function InRange(start: int, end: int): Entry -> bool {
    (e: Entry) => start <= e.timestamp <= end
  }

  /** `get_between_timestamps` over the ascending entry list. */
  method GetBetweenTimestamps(allEntriesAsc: seq<Entry>, start: int, end: int) returns (r: Aggregated)
    ensures r == RemoveReplaced(Seqs.Filter(InRange(start, end), allEntriesAsc))
  {
    var entriesBetween := [];
    var i := 0;
    while i < |allEntriesAsc|
      invariant 0 <= i <= |allEntriesAsc|
      invariant entriesBetween == Seqs.Filter(InRange(start, end), allEntriesAsc[..i])
    {
      var entry := allEntriesAsc[i];
      Seqs.FilterSnoc(InRange(start, end), allEntriesAsc[..i], entry);
      assert allEntriesAsc[..i + 1] == allEntriesAsc[..i] + [entry];
      if entry.timestamp >= start && entry.timestamp <= end {
        entriesBetween := entriesBetween + [entry];
      }
      i := i + 1;
    }
    assert allEntriesAsc[..i] == allEntriesAsc;
    r := RemoveReplacedEntries(entriesBetween);
  }

  /** Every entry `get_between_timestamps` returns is a stored entry whose
      timestamp lies in the inclusive range. */
  lemma BetweenInRange(allEntriesAsc: seq<Entry>, start: int, end: int)
    ensures var r := RemoveReplaced(Seqs.Filter(InRange(start, end), allEntriesAsc));
      forall k :: k in r.vals ==>
        r.vals[k] in allEntriesAsc && start <= r.vals[k].timestamp <= end
  {
    RemoveReplacedFacts(Seqs.Filter(InRange(start, end), allEntriesAsc));
    Seqs.FilterMembers(InRange(start, end), allEntriesAsc);
  }

  // ---------------------------------------------------------------------
  // get_for_lazyloading
  // ---------------------------------------------------------------------

  /** The keep-condition of `get_for_lazyloading`'s loop, as written: a zero
      bound is not applied. */
  function InLazyWindow(maxTimestamp: int, minTimestamp: int): Entry -> bool {
    (e: Entry) => !((maxTimestamp != 0 && e.timestamp >= maxTimestamp)
           || (minTimestamp != 0 && e.timestamp <= minTimestamp))
  }

  /** `get_for_lazyloading` over the stored entries (newest first). The loop
      only runs when the maximum is non-zero, so the minimum alone filters
      nothing. */
  method GetForLazyloading(entries: seq<Entry>, maxTimestamp: int, minTimestamp: int)
    returns (r: seq<Entry>)
    ensures maxTimestamp == 0 ==> r == entries
    ensures maxTimestamp != 0 ==> r == Seqs.Filter(InLazyWindow(maxTimestamp, minTimestamp), entries)
  {
    if |entries| == 0 {
      return [];
    }
    if maxTimestamp == 0 {
      return entries;
    }
    var slots := Seqs.Filled(entries);
    var i := 0;
    while i < |slots|
      invariant 0 <= i <= |slots| == |entries|
      invariant forall k :: i <= k < |slots| ==> slots[k] == Some(entries[k])
      invariant Seqs.Compact(slots[..i]) == Seqs.Filter(InLazyWindow(maxTimestamp, minTimestamp), entries[..i])
    {
      var entry := slots[i].value;
      var timestamp := entry.timestamp;
      ghost var before := slots;
      if (maxTimestamp != 0 && timestamp >= maxTimestamp)
         || (minTimestamp != 0 && timestamp <= minTimestamp) {
        slots := slots[i := None];
      }
      assert slots[..i] == before[..i];
      Seqs.CompactFilterStep(InLazyWindow(maxTimestamp, minTimestamp), entries, before, slots, i);
      i := i + 1;
    }
    assert slots[..i] == slots;
    assert entries[..i] == entries;
    r := Seqs.Compact(slots);
  }

  /** With a non-zero maximum, an entry is returned iff its timestamp is below
      the maximum and, when the minimum is non-zero, above the minimum. */
  lemma LazyWindowBounds(entries: seq<Entry>, maxTimestamp: int, minTimestamp: int)
    requires maxTimestamp != 0
    ensures forall e :: e in Seqs.Filter(InLazyWindow(maxTimestamp, minTimestamp), entries) <==>
      e in entries && e.timestamp < maxTimestamp && (minTimestamp == 0 || e.timestamp > minTimestamp)
  {
    Seqs.FilterMembers(InLazyWindow(maxTimestamp, minTimestamp), entries);
  }

  /** Window (max 100, min 50) over timestamps 30, 60, 90, 120 keeps 60 and 90. */
  lemma LazyWindowScenario(a: Entry, b: Entry, c: Entry, d: Entry)
    requires a.timestamp == 30 && b.timestamp == 60 && c.timestamp == 90 && d.timestamp == 120
    ensures Seqs.Filter(InLazyWindow(100, 50), [a, b, c, d]) == [b, c]
  {
    var p := InLazyWindow(100, 50);
    Seqs.FilterSnoc(p, [], a);
    Seqs.FilterSnoc(p, [a], b);
    Seqs.FilterSnoc(p, [a, b], c);
    Seqs.FilterSnoc(p, [a, b, c], d);
    assert [a] == [] + [a];
    assert [a, b] == [a] + [b];
    assert [a, b, c] == [a, b] + [c];
    assert [a, b, c, d] == [a, b, c] + [d];
  }
}
