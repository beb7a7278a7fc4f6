/**
 * The `Calendar` component as an object: its state variables are fields, and
 * each handler is a method that updates them the way the `set...` calls do.
 * The new `events` maps are the ones `EventStore` builds; the grid is the one
 * `MonthGrid` builds.
 */
module CalendarApp {
  import opened Wrappers
  import opened CivilDate
  import MonthGrid
  import opened Events
  import opened EventStore

  /** How a handler ended. */
  datatype Outcome =
    | Done      // the state was updated
    | Ignored   // `if (!selectedDate) return;`
    | Alerted   // `alert("Time conflict with existing event!")`, nothing updated
    | Thrown    // a TypeError escaped the handler, nothing updated

  /** The four inputs of the event dialog. */
  datatype DraftField = Title | StartTime | EndTime | Description

  class Calendar {
    var currentDate: Date
    var selectedDate: Option<Date>
    var events: Store
    var showEventModal: bool
    var newEvent: Draft
    var searchTerm: string
    var edit: bool

    /** The dates are real calendar days and every event sits under its own date key. */
    ghost predicate Valid()
      reads this
    {
      && currentDate.Valid()
      && (selectedDate.Some? ==> selectedDate.value.Valid())
      && DatesAgree(events)
    }

    /** The initial `useState` values; `today` is the `new Date()` read at mount. */
    constructor(today: Date)
      requires today.Valid()
      ensures Valid()
      ensures currentDate == today && selectedDate == None && events == map[]
      ensures !showEventModal && newEvent == InitialDraft && searchTerm == "" && !edit
    {
      currentDate := today;
      selectedDate := None;
      events := map[];
      showEventModal := false;
      newEvent := InitialDraft;
      searchTerm := "";
      edit := false;
    }

    /** The grid rendered for `currentDate`: 42 days from a Sunday, the displayed month in the middle. */
    method GetDaysInMonth() returns (days: seq<Date>)
      requires Valid()
      ensures |days| == MonthGrid.GridSize
      ensures forall k :: 0 <= k < |days| ==> days[k] == MonthGrid.GridCell(currentDate.year, currentDate.month, k)
      ensures forall k :: 0 <= k < |days| ==> days[k].Valid() && Weekday(days[k]) == k % 7
    {
      days := MonthGrid.GetDaysInMonth(currentDate);
      forall k | 0 <= k < |days| ensures days[k].Valid() && Weekday(days[k]) == k % 7 {
        MonthGrid.GridCellWeekday(currentDate.year, currentDate.month, k);
      }
    }

    method HandlePreviousMonth()
      requires Valid()
      modifies this`currentDate
      ensures Valid()
      ensures currentDate == StartOfPreviousMonth(old(currentDate))
    {
      currentDate := StartOfPreviousMonth(currentDate);
    }

    method HandleNextMonth()
      requires Valid()
      modifies this`currentDate
      ensures Valid()
      ensures currentDate == StartOfNextMonth(old(currentDate))
    {
      currentDate := StartOfNextMonth(currentDate);
    }

    /** A click on a grid cell. */
    method SelectDate(date: Date)
      requires Valid() && date.Valid()
      modifies this`selectedDate
      ensures Valid() && selectedDate == Some(date)
    {
      selectedDate := Some(date);
    }

    /** The search box's `onChange`. */
    method SetSearchTerm(term: string)
      requires Valid()
      modifies this`searchTerm
      ensures Valid() && searchTerm == term
    {
      searchTerm := term;
    }

    /** The "+ Add Event" button: `selectedDate && setShowEventModal(true)`. */
    method OpenAddDialog()
      requires Valid()
      modifies this`showEventModal
      ensures Valid()
      ensures showEventModal == (selectedDate.Some? || old(showEventModal))
    {
      if selectedDate.Some? {
        showEventModal := true;
      }
    }

    /** One input of the dialog: `setNewEvent(prev => ({ ...prev, field: value }))`. */
    method ChangeDraft(field: DraftField, value: string)
      requires Valid()
      modifies this`newEvent
      ensures Valid()
      ensures newEvent.id == old(newEvent).id
      ensures newEvent.title == if field == Title then value else old(newEvent).title
      ensures newEvent.startTime == if field == StartTime then value else old(newEvent).startTime
      ensures newEvent.endTime == if field == EndTime then value else old(newEvent).endTime
      ensures newEvent.description == if field == Description then value else old(newEvent).description
    {
      match field
      case Title => newEvent := newEvent.(title := value);
      case StartTime => newEvent := newEvent.(startTime := value);
      case EndTime => newEvent := newEvent.(endTime := value);
      case Description => newEvent := newEvent.(description := value);
    }

    /**
     * `handleAddEvent`, with `now` standing for `Date.now()`. Only an accepted
     * add changes anything; it also resets the draft and closes the dialog, and
     * it keeps every day's list free of add-time conflicts.
     */
    method HandleAddEvent(now: int) returns (outcome: Outcome)
      requires Valid()
      modifies this`events, this`newEvent, this`showEventModal
      ensures Valid()
      ensures selectedDate.None? ==> outcome == Ignored
      ensures selectedDate.Some? ==>
        var r := AddEvent(old(events), FormatDate(selectedDate.value), old(newEvent), now);
        && (outcome == Alerted <==> r.Failure?)
        && (outcome == Done <==> r.Success?)
        && (r.Success? ==> events == r.value)
      ensures outcome == Done ==> newEvent == ResetDraft && !showEventModal
      ensures outcome != Done ==> events == old(events) && newEvent == old(newEvent) && showEventModal == old(showEventModal)
      ensures AllAccepted(old(events)) ==> AllAccepted(events)
    {
      if selectedDate.None? {
        return Ignored;
      }
      var dateStr := FormatDate(selectedDate.value);
      var day := DayEvents(events, dateStr);
      if TimeConflict.HasTimeConflict(TimeConflict.DateValue, newEvent.startTime, newEvent.endTime, day, None) {
        return Alerted;
      }
      AddKeepsDatesAgree(events, dateStr, newEvent, now);
      if AllAccepted(events) {
        AddKeepsAccepted(events, dateStr, newEvent, now);
      }
      events := events[dateStr := day + [NewEvent(newEvent, now, dateStr)]];
      newEvent := ResetDraft;
      showEventModal := false;
      outcome := Done;
    }

    /** `handleDeleteEvent`; a key with no list throws. */
    method HandleDeleteEvent(dateStr: string, eventId: Id) returns (outcome: Outcome)
      requires Valid()
      modifies this`events
      ensures Valid()
      ensures outcome == Thrown <==> dateStr !in old(events)
      ensures outcome != Thrown ==> outcome == Done && events == DeleteEvent(old(events), dateStr, eventId).value
      ensures outcome == Thrown ==> events == old(events)
      ensures AllAccepted(old(events)) ==> AllAccepted(events)
    {
      if dateStr !in events {
        return Thrown;
      }
      DeleteKeepsDatesAgree(events, dateStr, eventId);
      if AllAccepted(events) {
        DeleteKeepsAccepted(events, dateStr, eventId);
      }
      events := DeleteEvent(events, dateStr, eventId).value;
      outcome := Done;
    }

    /**
     * `SubmitEditEvent`: a missing list or a draft id that matches no event
     * throws; the conflict test is the store's; on success the draft is reset,
     * the dialog closed and edit mode left.
     */
    method SubmitEditEvent() returns (outcome: Outcome)
      requires Valid()
      modifies this`events, this`newEvent, this`showEventModal, this`edit
      ensures Valid()
      ensures selectedDate.None? ==> outcome == Ignored
      ensures selectedDate.Some? ==>
        var r := EditEvent(old(events), FormatDate(selectedDate.value), old(newEvent));
        && (outcome == Thrown <==> r == Failure(MissingValue))
        && (outcome == Alerted <==> r == Failure(Conflict))
        && (outcome == Done <==> r.Success?)
        && (r.Success? ==> events == r.value)
      ensures outcome == Done ==> newEvent == ResetDraft && !showEventModal && !edit
      ensures outcome != Done ==>
        events == old(events) && newEvent == old(newEvent) && showEventModal == old(showEventModal) && edit == old(edit)
    {
      if selectedDate.None? {
        return Ignored;
      }
      var dateStr := FormatDate(selectedDate.value);
      var r := EditEvent(events, dateStr, newEvent);
      match r
      case Failure(MissingValue) => outcome := Thrown;
      case Failure(Conflict) => outcome := Alerted;
      case Success(updated) =>
        EditKeepsDatesAgree(events, dateStr, newEvent);
        events := updated;
        newEvent := ResetDraft;
        showEventModal := false;
        edit := false;
        outcome := Done;
    }

    /** `handleEditEvent`: load the event into the draft and open the dialog in edit mode. */
    method HandleEditEvent(dateStr: string, eventId: Id) returns (outcome: Outcome)
      requires Valid()
      modifies this`newEvent, this`edit, this`showEventModal
      ensures Valid()
      ensures var r := PrefillDraft(events, dateStr, eventId);
        && (outcome == Thrown <==> r.Failure?)
        && (r.Success? ==> outcome == Done && newEvent == r.value && edit && showEventModal)
        && (r.Failure? ==> newEvent == old(newEvent) && edit == old(edit) && showEventModal == old(showEventModal))
    {
      var r := PrefillDraft(events, dateStr, eventId);
      if r.Failure? {
        return Thrown;
      }
      newEvent := r.value;
      edit := true;
      showEventModal := true;
      outcome := Done;
    }

    /** The dialog's submit button: `edit ? SubmitEditEvent : handleAddEvent`. */
    method SubmitDialog(now: int) returns (outcome: Outcome)
      requires Valid()
      modifies this`events, this`newEvent, this`showEventModal, this`edit
      ensures Valid()
      ensures selectedDate.None? ==> outcome == Ignored
      ensures !old(edit) && selectedDate.Some? ==>
        var r := AddEvent(old(events), FormatDate(selectedDate.value), old(newEvent), now);
        && (outcome == Alerted <==> r.Failure?)
        && (outcome == Done <==> r.Success?)
        && (r.Success? ==> events == r.value)
      ensures old(edit) && selectedDate.Some? ==>
        var r := EditEvent(old(events), FormatDate(selectedDate.value), old(newEvent));
        && (outcome == Thrown <==> r == Failure(MissingValue))
        && (outcome == Alerted <==> r == Failure(Conflict))
        && (outcome == Done <==> r.Success?)
        && (r.Success? ==> events == r.value)
      ensures outcome == Done ==> newEvent == ResetDraft && !showEventModal && !edit
      ensures outcome != Done ==>
        events == old(events) && newEvent == old(newEvent) && showEventModal == old(showEventModal) && edit == old(edit)
    {
      if edit {
        outcome := SubmitEditEvent();
      } else {
        outcome := HandleAddEvent(now);
      }
    }

    /** `getFilteredEvents(dateStr)` under the current search term. */
    method GetFilteredEvents(dateStr: string) returns (shown: seq<Event>)
      requires Valid()
      ensures shown == SearchEvents(events, dateStr, searchTerm)
      ensures forall i :: 0 <= i < |shown| ==> shown[i].date == dateStr
    {
      shown := SearchEvents(events, dateStr, searchTerm);
      forall i | 0 <= i < |shown| ensures shown[i].date == dateStr {
        JsArray.SubsequenceMembers(shown, DayEvents(events, dateStr), shown[i]);
      }
    }
  }

  /**
   * Editing an event and saving it without changes leaves the events as they
   * were, resets the draft and leaves edit mode, when no other event of that
   * day has a loosely equal id.
   */
  method EditWithoutChanges(c: Calendar, eventId: Id) returns (outcome: Outcome)
    requires c.Valid() && c.selectedDate.Some?
    requires var key := FormatDate(c.selectedDate.value);
      && key in c.events && FirstWithId(c.events[key], Some(eventId)).Some?
      && (forall i :: 0 <= i < |c.events[key]| && LooseEquals(c.events[key][i].id, eventId) ==> c.events[key][i].id == eventId)
      && (forall i, j :: 0 <= i < j < |c.events[key]| ==> c.events[key][i].id != c.events[key][j].id)
    modifies c
    ensures c.Valid()
    ensures outcome == Done && c.events == old(c.events) && c.newEvent == ResetDraft && !c.edit
  {
    var key := FormatDate(c.selectedDate.value);
    var prefilled := c.HandleEditEvent(key, eventId);
    PrefillThenSubmitIsIdentity(c.events, key, eventId);
    outcome := c.SubmitEditEvent();
  }
}
