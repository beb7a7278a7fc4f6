/**
 * The `events` state of the calendar component and the new maps its handlers
 * build with `{ ...prev, [dateStr]: ... }`: add, delete, edit, the draft
 * prefill of the edit button, and the search filter. A store maps a date key
 * to that day's events in insertion order.
 */
module EventStore {
  import opened Wrappers
  import opened JsText
  import opened JsArray
  import opened Events
  import opened TimeConflict

  type Store = map<string, seq<Event>>

  /** Why a handler leaves the store as it was. */
  datatype Failure =
    | Conflict      // `alert("Time conflict with existing event!")` and return
    | MissingValue  // a property read on `undefined` throws a TypeError

  /** `events[dateStr] || []`. */
  function DayEvents(store: Store, key: string): seq<Event> {
    if key in store then store[key] else []
  }

  /** Every event is filed under its own `date`. */
  ghost predicate DatesAgree(store: Store) {
    forall key, i :: key in store && 0 <= i < |store[key]| ==> store[key][i].date == key
  }

  /**
   * Every event of the day passes the add-time test against every event
   * before it: the later one, as the new range, does not overlap the earlier one.
   */
  ghost predicate Accepted(day: seq<Event>) {
    forall i, j :: 0 <= i < j < |day| ==>
      !ConflictsWith(DateValue, day[j].startTime, day[j].endTime, day[i], None)
  }

  ghost predicate AllAccepted(store: Store) {
    forall key :: key in store ==> Accepted(store[key])
  }

  // ---------------------------------------------------------------- add

  /** `{ id: Date.now(), ...newEvent, date: dateStr }`: an `id` in the draft wins over the clock. */
  function NewEvent(draft: Draft, now: int, key: string): Event {
    var id := match draft.id case Some(i) => i case None => Num(now);
    Event(id, draft.title, draft.startTime, draft.endTime, draft.description, key)
  }

  /** `handleAddEvent` once a date is selected: refuse on a conflict, else append to the day's list. */
  function AddEvent(store: Store, key: string, draft: Draft, now: int): (r: Result<Store, Failure>)
    ensures r.Failure? <==> HasTimeConflict(DateValue, draft.startTime, draft.endTime, DayEvents(store, key), None)
    ensures r.Failure? ==> r.error == Conflict
    ensures r.Success? ==>
      && r.value.Keys == store.Keys + {key}
      && r.value[key] == DayEvents(store, key) + [NewEvent(draft, now, key)]
      && forall k :: k in store && k != key ==> r.value[k] == store[k]
  {
    var day := DayEvents(store, key);
    if HasTimeConflict(DateValue, draft.startTime, draft.endTime, day, None) then Failure(Conflict)
    else Success(store[key := day + [NewEvent(draft, now, key)]])
  }

  /** The first add after start-up keeps the initial draft's `id: ""` instead of a clock value. */
  lemma FirstAddKeepsEmptyId(key: string, now: int)
    ensures AddEvent(map[], key, InitialDraft, now)
         == Success(map[key := [Event(Str(""), "", "", "", "", key)]])
  {
    assert DayEvents(map[], key) == [];
    assert !HasTimeConflict(DateValue, "", "", [], None);
    assert NewEvent(InitialDraft, now, key) == Event(Str(""), "", "", "", "", key);
    var r := AddEvent(map[], key, InitialDraft, now);
    assert r.Success?;
    assert r.value.Keys == {key} && r.value[key] == [Event(Str(""), "", "", "", "", key)];
  }

  /** A draft without an `id` key gets the clock reading as its id. */
  lemma AddAfterResetUsesClock(store: Store, key: string, draft: Draft, now: int)
    requires draft.id.None?
    requires AddEvent(store, key, draft, now).Success?
    ensures Last(AddEvent(store, key, draft, now).value[key]).id == Num(now)
  {
  }

  function Last(day: seq<Event>): Event
    requires day != []
  {
    day[|day| - 1]
  }

  lemma AddKeepsDatesAgree(store: Store, key: string, draft: Draft, now: int)
    requires DatesAgree(store)
    requires AddEvent(store, key, draft, now).Success?
    ensures DatesAgree(AddEvent(store, key, draft, now).value)
  {
  }

  /** An accepted add keeps every day's list free of overlaps in the add-time sense. */
  lemma AddKeepsAccepted(store: Store, key: string, draft: Draft, now: int)
    requires AllAccepted(store)
    requires AddEvent(store, key, draft, now).Success?
    ensures AllAccepted(AddEvent(store, key, draft, now).value)
  {
    var after: Store := AddEvent(store, key, draft, now).value;
    var day := DayEvents(store, key);
    var e := NewEvent(draft, now, key);
    assert Accepted(day);
    forall i, j | 0 <= i < j < |after[key]|
      ensures !ConflictsWith(DateValue, after[key][j].startTime, after[key][j].endTime, after[key][i], None)
    {
      if j == |day| {
        assert after[key][j] == e && after[key][i] == day[i];
      }
    }
  }

  // ---------------------------------------------------------------- delete

  /** `e => e.id !== eventId`. */
  function OtherThan(eventId: Id): Event -> bool {
    (e: Event) => e.id != eventId
  }

  /** `handleDeleteEvent`: keep the events whose id is not `eventId` (`!==`). */
  function DeleteEvent(store: Store, key: string, eventId: Id): (r: Result<Store, Failure>)
    ensures r.Failure? <==> key !in store
    ensures r.Failure? ==> r.error == MissingValue
    ensures r.Success? ==>
      && r.value.Keys == store.Keys
      && (forall k :: k in store && k != key ==> r.value[k] == store[k])
      && IsSubsequence(r.value[key], store[key])
      && (forall i :: 0 <= i < |r.value[key]| ==> r.value[key][i].id != eventId)
      && (forall i :: 0 <= i < |store[key]| && store[key][i].id != eventId ==> store[key][i] in r.value[key])
      && (forall e :: multiset(r.value[key])[e] == if e.id != eventId then multiset(store[key])[e] else 0)
  {
    if key !in store then Failure(MissingValue)
    else Success(store[key := Filter(store[key], OtherThan(eventId))])
  }

  /** Deleting twice is deleting once. */
  lemma DeleteIdempotent(store: Store, key: string, eventId: Id)
    requires key in store
    ensures DeleteEvent(DeleteEvent(store, key, eventId).value, key, eventId) == DeleteEvent(store, key, eventId)
  {
    FilterIdempotent(store[key], OtherThan(eventId));
    var once := DeleteEvent(store, key, eventId).value;
    assert once[key] == Filter(store[key], OtherThan(eventId));
    var twice := DeleteEvent(once, key, eventId).value;
    assert twice[key] == once[key];
    assert twice == once;
  }

  /**
   * Adding and then deleting the new event's id gives back the day as it was,
   * when no event of that day already had the id; a day that had no list is
   * left with an empty one.
   */
  lemma AddThenDelete(store: Store, key: string, draft: Draft, now: int)
    requires AddEvent(store, key, draft, now).Success?
    requires forall i :: 0 <= i < |DayEvents(store, key)| ==> DayEvents(store, key)[i].id != NewEvent(draft, now, key).id
    ensures var added := AddEvent(store, key, draft, now).value;
      DeleteEvent(added, key, NewEvent(draft, now, key).id)
        == Success(store[key := DayEvents(store, key)])
  {
    var id := NewEvent(draft, now, key).id;
    var keep := OtherThan(id);
    var day := DayEvents(store, key);
    FilterKeepsAll(day, keep);
    assert Filter(day + [NewEvent(draft, now, key)], keep) == Filter(day, keep) by {
      FilterDropsRejectedLast(day, NewEvent(draft, now, key), keep);
    }
    var added := AddEvent(store, key, draft, now).value;
    var removed := DeleteEvent(added, key, id).value;
    assert removed[key] == day;
    assert removed == store[key := day];
  }

  lemma {:induction false} FilterDropsRejectedLast<T(!new)>(xs: seq<T>, x: T, keep: T -> bool)
    requires !keep(x)
    ensures Filter(xs + [x], keep) == Filter(xs, keep)
  {
    if xs == [] {
      assert [x][1..] == [];
    } else {
      assert (xs + [x])[1..] == xs[1..] + [x];
      FilterDropsRejectedLast(xs[1..], x, keep);
    }
  }

  lemma DeleteKeepsDatesAgree(store: Store, key: string, eventId: Id)
    requires DatesAgree(store) && key in store
    ensures DatesAgree(DeleteEvent(store, key, eventId).value)
  {
  }

  lemma DeleteKeepsAccepted(store: Store, key: string, eventId: Id)
    requires AllAccepted(store) && key in store
    ensures AllAccepted(DeleteEvent(store, key, eventId).value)
  {
    var after := DeleteEvent(store, key, eventId).value;
    var ok := (a: Event, b: Event) => !ConflictsWith(DateValue, b.startTime, b.endTime, a, None);
    assert forall i, j :: 0 <= i < j < |store[key]| ==> ok(store[key][i], store[key][j]) by {
      assert Accepted(store[key]);
    }
    SubsequenceKeepsPairs(after[key], store[key], ok);
  }

  // ---------------------------------------------------------------- edit

  /** `list.filter(e => e.id === id)[0]`, as an index: the first event whose id is `id`. */
  function FirstWithId(day: seq<Event>, id: Option<Id>): (r: Option<nat>)
    ensures r.Some? ==> r.value < |day| && Some(day[r.value].id) == id
    ensures r.Some? ==> forall i :: 0 <= i < r.value ==> Some(day[i].id) != id
    ensures r.None? ==> forall i :: 0 <= i < |day| ==> Some(day[i].id) != id
  {
    if day == [] then None
    else if Some(day[0].id) == id then Some(0)
    else match FirstWithId(day[1..], id)
      case None => None
      case Some(j) => Some(j + 1)
  }

  /** `filter(...)[0]` is the element `FirstWithId` points at. */
  lemma {:induction false} FirstOfFilter(day: seq<Event>, id: Option<Id>)
    requires FirstWithId(day, id).Some?
    ensures var matches := Filter(day, (e: Event) => Some(e.id) == id);
      matches != [] && matches[0] == day[FirstWithId(day, id).value]
  {
    if Some(day[0].id) != id {
      FirstOfFilter(day[1..], id);
    }
  }

  /** `prev[dateStr].map(e => e.id == edited.id ? edited : e)` (loose `==`). */
  function ReplaceMatching(day: seq<Event>, edited: Event): (r: seq<Event>)
    ensures |r| == |day|
    ensures forall i :: 0 <= i < |day| ==> r[i] == (if LooseEquals(day[i].id, edited.id) then edited else day[i])
  {
    seq(|day|, i requires 0 <= i < |day| => if LooseEquals(day[i].id, edited.id) then edited else day[i])
  }

  /** `{ ...newEvent, date: dateStr }`. */
  function EditedEvent(draft: Draft, key: string): Event
    requires draft.id.Some?
  {
    Event(draft.id.value, draft.title, draft.startTime, draft.endTime, draft.description, key)
  }

  /**
   * `SubmitEditEvent` once a date is selected. The conflict test runs only when
   * BOTH the start and the end differ from the stored event's, and it does not
   * exclude the event being edited.
   */
  function EditEvent(store: Store, key: string, draft: Draft): (r: Result<Store, Failure>)
    ensures r == Failure(MissingValue) <==> key !in store || FirstWithId(store[key], draft.id).None?
    ensures r == Failure(Conflict) <==>
      && key in store && FirstWithId(store[key], draft.id).Some?
      && var stored := store[key][FirstWithId(store[key], draft.id).value];
      && stored.startTime != draft.startTime && stored.endTime != draft.endTime
      && HasTimeConflict(DateValue, draft.startTime, draft.endTime, store[key], None)
    ensures r.Success? ==>
      && key in store && draft.id.Some?
      && r.value.Keys == store.Keys
      && (forall k :: k in store && k != key ==> r.value[k] == store[k])
      && |r.value[key]| == |store[key]|
      && forall i :: 0 <= i < |store[key]| ==>
           r.value[key][i] == if LooseEquals(store[key][i].id, draft.id.value) then EditedEvent(draft, key) else store[key][i]
  {
    if key !in store then Failure(MissingValue)
    else
      var day := store[key];
      match FirstWithId(day, draft.id)
      case None => Failure(MissingValue)
      case Some(i) =>
        var stored := day[i];
        if stored.startTime != draft.startTime && stored.endTime != draft.endTime
           && HasTimeConflict(DateValue, draft.startTime, draft.endTime, day, None)
        then Failure(Conflict)
        else Success(store[key := ReplaceMatching(day, EditedEvent(draft, key))])
  }

  /** With one id per event, an edit replaces exactly the edited event, in place. */
  lemma EditReplacesInPlace(store: Store, key: string, draft: Draft)
    requires EditEvent(store, key, draft).Success?
    requires forall i :: 0 <= i < |store[key]| && LooseEquals(store[key][i].id, draft.id.value) ==> Some(store[key][i].id) == draft.id
    requires forall i, j :: 0 <= i < j < |store[key]| ==> store[key][i].id != store[key][j].id
    ensures var i := FirstWithId(store[key], draft.id).value;
      EditEvent(store, key, draft).value == store[key := store[key][i := EditedEvent(draft, key)]]
  {
    var i := FirstWithId(store[key], draft.id).value;
    var after := EditEvent(store, key, draft).value;
    assert after[key] == store[key][i := EditedEvent(draft, key)];
  }

  lemma EditKeepsDatesAgree(store: Store, key: string, draft: Draft)
    requires DatesAgree(store)
    requires EditEvent(store, key, draft).Success?
    ensures DatesAgree(EditEvent(store, key, draft).value)
  {
  }

  /** Submitting a draft whose start or end is unchanged never reports a conflict. */
  lemma UnchangedTimeNeverConflicts(store: Store, key: string, draft: Draft)
    requires key in store && FirstWithId(store[key], draft.id).Some?
    requires var stored := store[key][FirstWithId(store[key], draft.id).value];
      stored.startTime == draft.startTime || stored.endTime == draft.endTime
    ensures EditEvent(store, key, draft).Success?
  {
  }

  /**
   * The edited event is not excluded from its own conflict test: moving the
   * only event of a day from 09:00-10:00 to 09:30-10:30 is refused.
   */
  lemma EditConflictsWithItself(key: string)
    ensures var day := [Event(Num(1), "standup", "09:00", "10:00", "", key)];
      EditEvent(map[key := day], key, Draft(Some(Num(1)), "standup", "09:30", "10:30", ""))
        == Failure(Conflict)
  {
    var day := [Event(Num(1), "standup", "09:00", "10:00", "", key)];
    assert DateOn2000("09:30") == Some(570) && DateOn2000("10:00") == Some(600);
    assert ConflictsWith(DateValue, "09:30", "10:30", day[0], None);
  }

  /**
   * Changing only the start skips the test, so an edit can make two events of
   * a day overlap: 09:00-10:00 stays, 10:00-11:00 becomes 09:30-11:00.
   */
  lemma EditCanBreakAccepted(key: string)
    ensures var day := [Event(Num(1), "a", "09:00", "10:00", "", key), Event(Num(2), "b", "10:00", "11:00", "", key)];
      && Accepted(day)
      && EditEvent(map[key := day], key, Draft(Some(Num(2)), "b", "09:30", "11:00", "")).Success?
      && !AllAccepted(EditEvent(map[key := day], key, Draft(Some(Num(2)), "b", "09:30", "11:00", "")).value)
  {
    var day := [Event(Num(1), "a", "09:00", "10:00", "", key), Event(Num(2), "b", "10:00", "11:00", "", key)];
    assert DateOn2000("09:00") == Some(540) && DateOn2000("10:00") == Some(600);
    assert DateOn2000("11:00") == Some(660) && DateOn2000("09:30") == Some(570);
    assert !ConflictsWith(DateValue, day[1].startTime, day[1].endTime, day[0], None);
    var after := EditEvent(map[key := day], key, Draft(Some(Num(2)), "b", "09:30", "11:00", "")).value;
    assert after[key][1] == Event(Num(2), "b", "09:30", "11:00", "", key);
    assert ConflictsWith(DateValue, after[key][1].startTime, after[key][1].endTime, after[key][0], None);
  }

  // ---------------------------------------------------------------- edit button

  /** `handleEditEvent`: copy the event with id `eventId` (`===`) into a draft, dropping `date`. */
  function PrefillDraft(store: Store, key: string, eventId: Id): (r: Result<Draft, Failure>)
    ensures r.Failure? <==> key !in store || FirstWithId(store[key], Some(eventId)).None?
    ensures r.Success? ==> r.value.id == Some(eventId)
    ensures r.Success? ==>
      var i := FirstWithId(store[key], Some(eventId)).value;
      r.value == Draft(Some(eventId), store[key][i].title, store[key][i].startTime,
                       store[key][i].endTime, store[key][i].description)
  {
    if key !in store then Failure(MissingValue)
    else match FirstWithId(store[key], Some(eventId))
      case None => Failure(MissingValue)
      case Some(i) =>
        var e := store[key][i];
        Success(Draft(Some(e.id), e.title, e.startTime, e.endTime, e.description))
  }

  /**
   * Opening an event for editing and submitting it untouched leaves the store
   * as it was, when events carry their own date and no other event's id is
   * loosely equal to it.
   */
  lemma PrefillThenSubmitIsIdentity(store: Store, key: string, eventId: Id)
    requires DatesAgree(store)
    requires PrefillDraft(store, key, eventId).Success?
    requires forall i :: 0 <= i < |store[key]| && LooseEquals(store[key][i].id, eventId) ==> store[key][i].id == eventId
    requires forall i, j :: 0 <= i < j < |store[key]| ==> store[key][i].id != store[key][j].id
    ensures EditEvent(store, key, PrefillDraft(store, key, eventId).value) == Success(store)
  {
    var draft := PrefillDraft(store, key, eventId).value;
    var i := FirstWithId(store[key], Some(eventId)).value;
    assert store[key][i].date == key;
    var after := EditEvent(store, key, draft).value;
    assert after[key] == store[key];
    assert after == store;
  }

  // ---------------------------------------------------------------- search

  /** Lower-cased title or description contains the lower-cased term. */
  predicate MatchesTerm(event: Event, term: string) {
    Includes(ToLower(event.title), ToLower(term)) || Includes(ToLower(event.description), ToLower(term))
  }

  /** `getFilteredEvents`: the whole day for an empty term, else the matching events in order. */
  function SearchEvents(store: Store, key: string, term: string): (r: seq<Event>)
    ensures term == "" ==> r == DayEvents(store, key)
    ensures key !in store ==> r == []
    ensures IsSubsequence(r, DayEvents(store, key))
    ensures forall i :: 0 <= i < |r| ==> term == "" || MatchesTerm(r[i], term)
    ensures forall i :: 0 <= i < |DayEvents(store, key)| && MatchesTerm(DayEvents(store, key)[i], term)
              ==> DayEvents(store, key)[i] in r
    ensures forall e :: multiset(r)[e] == if term == "" || MatchesTerm(e, term) then multiset(DayEvents(store, key))[e] else 0
  {
    var day := DayEvents(store, key);
    if term == "" then
      FilterKeepsAll(day, (e: Event) => true);
      IsSubsequenceOfFilter(day, (e: Event) => true);
      day
    else Filter(day, (e: Event) => MatchesTerm(e, term))
  }

  lemma IsSubsequenceOfFilter<T(!new)>(xs: seq<T>, keep: T -> bool)
    ensures IsSubsequence(Filter(xs, keep), xs)
  {
  }

  /** The search ignores case: searching for the lower-cased term finds the same events. */
  lemma SearchIgnoresCase(store: Store, key: string, term: string)
    ensures SearchEvents(store, key, ToLower(term)) == SearchEvents(store, key, term)
  {
    ToLowerIdempotent(term);
    assert forall e: Event :: MatchesTerm(e, ToLower(term)) == MatchesTerm(e, term);
    assert (ToLower(term) == "") == (term == "");
    var day := DayEvents(store, key);
    FilterAgrees(day, (e: Event) => MatchesTerm(e, ToLower(term)), (e: Event) => MatchesTerm(e, term));
  }

  /** An event whose title contains the term as typed is found. */
  lemma TitleContainingTermIsFound(store: Store, key: string, term: string, i: nat)
    requires i < |DayEvents(store, key)| && Includes(DayEvents(store, key)[i].title, term)
    ensures DayEvents(store, key)[i] in SearchEvents(store, key, term)
  {
    IncludesIgnoresCase(DayEvents(store, key)[i].title, term);
  }

  lemma IncludesIgnoresCase(s: string, t: string)
    requires Includes(s, t)
    ensures Includes(ToLower(s), ToLower(t))
  {
    var i :| OccursAt(s, t, i);
    assert ToLower(s)[i..i + |t|] == ToLower(t);
    assert OccursAt(ToLower(s), ToLower(t), i);
  }
}
