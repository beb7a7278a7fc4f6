/**
 * `hasTimeConflict`: does a new [start, end) time range overlap an event of
 * the day? Both copies use the same three-clause test; they differ in how a
 * time string becomes a number. `src/dateUtils.js` uses `getMinutes`
 * (hours * 60 + minutes); `src/App.jsx` builds `new Date("2000-01-01T" + time)`,
 * whose value on that fixed day orders like minutes since midnight. An
 * unreadable time is `NaN` (an Invalid Date), here `None`: every `<`, `<=`,
 * `>` or `>=` involving it is false.
 */
module TimeConflict {
  import opened Wrappers
  import opened JsText
  import opened JsArray
  import opened Events

  /** `getMinutes`: `timeStr.split(':').map(Number)`, then `hours * 60 + minutes`. */
  function GetMinutes(timeStr: string): (r: Option<int>)
    ensures r.Some? ==> r.value >= 0
    ensures ':' !in timeStr ==> r == None
  {
    var parts := Split(timeStr, ':');
    var hours := ToNumber(parts[0]);
    // a missing second field is `undefined`, and `hours * 60 + undefined` is NaN
    var minutes := if |parts| >= 2 then ToNumber(parts[1]) else None;
    if hours.Some? && minutes.Some? then Some(hours.value * 60 + minutes.value) else None
  }

  /** "HH:MM" with two-digit fields, the form an `<input type="time">` produces. */
  predicate IsClockText(s: string) {
    |s| == 5 && IsDigit(s[0]) && IsDigit(s[1]) && s[2] == ':' && IsDigit(s[3]) && IsDigit(s[4])
  }

  function HoursOf(s: string): nat
    requires IsClockText(s)
  {
    10 * DigitValue(s[0]) + DigitValue(s[1])
  }

  function MinutesOf(s: string): nat
    requires IsClockText(s)
  {
    10 * DigitValue(s[3]) + DigitValue(s[4])
  }

  /** A time of day: "HH:MM" with HH < 24 and MM < 60. */
  predicate IsWellFormedTime(s: string) {
    IsClockText(s) && HoursOf(s) < 24 && MinutesOf(s) < 60
  }

  /** `new Date("2000-01-01T" + s)` in minutes after midnight; "24:00" is the next midnight. */
  function DateOn2000(s: string): (r: Option<int>)
    ensures r.Some? ==> 0 <= r.value <= 1440
    ensures IsWellFormedTime(s) ==> r.Some?
  {
    if IsClockText(s) && ((HoursOf(s) < 24 && MinutesOf(s) < 60) || (HoursOf(s) == 24 && MinutesOf(s) == 0))
    then Some(60 * HoursOf(s) + MinutesOf(s))
    else None
  }

  /** How a copy of `hasTimeConflict` turns a time string into a number. */
  datatype TimeReading =
    | Minutes     // src/dateUtils.js: getMinutes
    | DateValue   // src/App.jsx: new Date(`2000-01-01T${time}`)

  function ReadTime(reading: TimeReading, s: string): Option<int> {
    match reading
    case Minutes => GetMinutes(s)
    case DateValue => DateOn2000(s)
  }

  /**
   * `getMinutes` on any "HH:MM" text is HH * 60 + MM, whatever the range of the
   * fields: "24:00" gives 1440 and "25:70" gives 1570.
   */
  lemma GetMinutesClockText(s: string)
    requires IsClockText(s)
    ensures GetMinutes(s) == Some(60 * HoursOf(s) + MinutesOf(s))
  {
    assert IndexOf(s, ':') == 2;
    assert ':' !in s[3..];
    assert Split(s, ':') == [s[..2], s[3..]];
    TwoDigitsValue(s[..2]);
    TwoDigitsValue(s[3..]);
  }

  /** On a well-formed time the value is a minute of the day. */
  lemma GetMinutesWellFormed(s: string)
    requires IsWellFormedTime(s)
    ensures GetMinutes(s) == Some(60 * HoursOf(s) + MinutesOf(s))
    ensures 0 <= GetMinutes(s).value < 1440
  {
    GetMinutesClockText(s);
  }

  lemma TwoDigitsValue(t: string)
    requires |t| == 2 && IsDigit(t[0]) && IsDigit(t[1])
    ensures AllDigits(t) && DigitsValue(t) == 10 * DigitValue(t[0]) + DigitValue(t[1])
  {
    assert AllDigits(t);
    assert t[..1] == [t[0]] && t[..1][..0] == [];
    assert DigitsValue(t[..1]) == DigitValue(t[0]);
  }

  /** On well-formed times both copies read the same number, so they decide alike. */
  lemma ReadingsAgree(s: string)
    requires IsWellFormedTime(s)
    ensures ReadTime(Minutes, s) == ReadTime(DateValue, s)
  {
    GetMinutesWellFormed(s);
  }

  /**
   * Where the copies part: both read "24:00" as the next midnight, but only
   * `getMinutes` reads an out-of-range "25:70" (as 1570); the `Date` is invalid.
   */
  lemma ReadingsAtTheEdges()
    ensures ReadTime(Minutes, "24:00") == ReadTime(DateValue, "24:00") == Some(1440)
    ensures ReadTime(Minutes, "25:70") == Some(1570) && ReadTime(DateValue, "25:70") == None
  {
    GetMinutesClockText("24:00");
    GetMinutesClockText("25:70");
  }

  /** The empty time (an untouched time field) is `NaN` to both copies. */
  lemma EmptyTimeIsNaN()
    ensures ReadTime(Minutes, "") == None && ReadTime(DateValue, "") == None
  {
  }

  /** `a < b`; false when either side is `NaN`. */
  predicate Less(a: Option<int>, b: Option<int>) {
    a.Some? && b.Some? && a.value < b.value
  }

  /** `a <= b`; false when either side is `NaN`. */
  predicate AtMost(a: Option<int>, b: Option<int>) {
    a.Some? && b.Some? && a.value <= b.value
  }

  /** The three clauses: the new start lies in the event, the new end lies in it, or the new range covers it. */
  predicate Overlaps(newStart: Option<int>, newEnd: Option<int>, eventStart: Option<int>, eventEnd: Option<int>) {
    || (AtMost(eventStart, newStart) && Less(newStart, eventEnd))
    || (Less(eventStart, newEnd) && AtMost(newEnd, eventEnd))
    || (AtMost(newStart, eventStart) && AtMost(eventEnd, newEnd))
  }

  /** `excludeEventId && event.id === excludeEventId`. */
  predicate Skipped(event: Event, excludeEventId: Option<Id>) {
    Truthy(excludeEventId) && event.id == excludeEventId.value
  }

  /** The test run by `some` on one event. */
  predicate ConflictsWith(reading: TimeReading, newStart: string, newEnd: string, event: Event, excludeEventId: Option<Id>) {
    && !Skipped(event, excludeEventId)
    && Overlaps(ReadTime(reading, newStart), ReadTime(reading, newEnd),
                ReadTime(reading, event.startTime), ReadTime(reading, event.endTime))
  }

  /** `existingEvents.some(...)`: some event of the list, not skipped, overlaps the new range. */
  function HasTimeConflict(reading: TimeReading, newStart: string, newEnd: string,
                           existingEvents: seq<Event>, excludeEventId: Option<Id>): (r: bool)
    ensures r <==> exists i :: 0 <= i < |existingEvents|
                              && ConflictsWith(reading, newStart, newEnd, existingEvents[i], excludeEventId)
  {
    if existingEvents == [] then false
    else
      var rest := HasTimeConflict(reading, newStart, newEnd, existingEvents[1..], excludeEventId);
      assert forall i :: 1 <= i < |existingEvents| ==> existingEvents[i] == existingEvents[1..][i - 1];
      ConflictsWith(reading, newStart, newEnd, existingEvents[0], excludeEventId) || rest
  }

  /**
   * For proper ranges (start < end) the three clauses say exactly that the
   * ranges share a minute: each starts before the other ends.
   */
  lemma OverlapsIsIntersection(newStart: int, newEnd: int, eventStart: int, eventEnd: int)
    requires newStart < newEnd && eventStart < eventEnd
    ensures Overlaps(Some(newStart), Some(newEnd), Some(eventStart), Some(eventEnd))
        <==> newStart < eventEnd && eventStart < newEnd
  {
  }

  /** For proper ranges, which one is "new" and which "existing" does not matter. */
  lemma OverlapsSymmetric(aStart: int, aEnd: int, bStart: int, bEnd: int)
    requires aStart < aEnd && bStart < bEnd
    ensures Overlaps(Some(aStart), Some(aEnd), Some(bStart), Some(bEnd))
        == Overlaps(Some(bStart), Some(bEnd), Some(aStart), Some(aEnd))
  {
    OverlapsIsIntersection(aStart, aEnd, bStart, bEnd);
    OverlapsIsIntersection(bStart, bEnd, aStart, aEnd);
  }

  /** Ranges that only touch (one ends when the other starts) do not overlap. */
  lemma BackToBackDoNotOverlap(newStart: int, newEnd: int, eventStart: int, eventEnd: int)
    requires newStart < newEnd && eventStart < eventEnd
    requires newEnd == eventStart || eventEnd == newStart
    ensures !Overlaps(Some(newStart), Some(newEnd), Some(eventStart), Some(eventEnd))
  {
  }

  /** A range overlaps any range it contains and any range that contains it. */
  lemma ContainmentOverlaps(newStart: int, newEnd: int, eventStart: int, eventEnd: int)
    requires newStart < newEnd && eventStart < eventEnd
    requires (newStart <= eventStart && eventEnd <= newEnd) || (eventStart <= newStart && newEnd <= eventEnd)
    ensures Overlaps(Some(newStart), Some(newEnd), Some(eventStart), Some(eventEnd))
  {
  }

  /**
   * A `NaN` time never satisfies a clause by itself: an event with an unreadable
   * start or end never overlaps, and neither does a new range with both ends unreadable.
   */
  lemma NaNNeverOverlaps(newStart: Option<int>, newEnd: Option<int>, eventStart: Option<int>, eventEnd: Option<int>)
    requires eventStart.None? || eventEnd.None? || (newStart.None? && newEnd.None?)
    ensures !Overlaps(newStart, newEnd, eventStart, eventEnd)
  {
  }

  /** A truthy `excludeEventId` acts as if the events with that id were not in the list. */
  lemma {:induction false} ExcludedEventsNeverConflict(reading: TimeReading, newStart: string, newEnd: string,
                                                       existingEvents: seq<Event>, excludeEventId: Option<Id>)
    requires Truthy(excludeEventId)
    ensures HasTimeConflict(reading, newStart, newEnd, existingEvents, excludeEventId)
         == HasTimeConflict(reading, newStart, newEnd,
                            Filter(existingEvents, (e: Event) => e.id != excludeEventId.value), None)
  {
    var keep := (e: Event) => e.id != excludeEventId.value;
    var kept := Filter(existingEvents, keep);
    if HasTimeConflict(reading, newStart, newEnd, existingEvents, excludeEventId) {
      var i :| 0 <= i < |existingEvents| && ConflictsWith(reading, newStart, newEnd, existingEvents[i], excludeEventId);
      var e := existingEvents[i];
      assert keep(e);
      assert e in kept;
      var j :| 0 <= j < |kept| && kept[j] == e;
      assert ConflictsWith(reading, newStart, newEnd, kept[j], None);
    }
    if HasTimeConflict(reading, newStart, newEnd, kept, None) {
      var j :| 0 <= j < |kept| && ConflictsWith(reading, newStart, newEnd, kept[j], None);
      var e := kept[j];
      assert e in existingEvents && keep(e);
      var i :| 0 <= i < |existingEvents| && existingEvents[i] == e;
      assert !Skipped(e, excludeEventId);
      assert ConflictsWith(reading, newStart, newEnd, existingEvents[i], excludeEventId);
    }
  }

  /** A falsy `excludeEventId` ("" or 0) excludes nothing. */
  lemma FalsyExcludeIsIgnored(reading: TimeReading, newStart: string, newEnd: string,
                              existingEvents: seq<Event>, excludeEventId: Option<Id>)
    requires !Truthy(excludeEventId)
    ensures HasTimeConflict(reading, newStart, newEnd, existingEvents, excludeEventId)
         == HasTimeConflict(reading, newStart, newEnd, existingEvents, None)
  {
  }

  /** Empty start and end times (an untouched dialog) never conflict with anything. */
  lemma EmptyTimesNeverConflict(reading: TimeReading, existingEvents: seq<Event>, excludeEventId: Option<Id>)
    ensures !HasTimeConflict(reading, "", "", existingEvents, excludeEventId)
  {
    EmptyTimeIsNaN();
    forall e: Event ensures !ConflictsWith(reading, "", "", e, excludeEventId) {
      NaNNeverOverlaps(ReadTime(reading, ""), ReadTime(reading, ""),
                       ReadTime(reading, e.startTime), ReadTime(reading, e.endTime));
    }
  }

  /** Both copies of `hasTimeConflict` give the same answer when every time involved is well formed. */
  lemma {:induction false} CopiesAgree(newStart: string, newEnd: string,
                                       existingEvents: seq<Event>, excludeEventId: Option<Id>)
    requires IsWellFormedTime(newStart) && IsWellFormedTime(newEnd)
    requires forall i :: 0 <= i < |existingEvents| ==>
      IsWellFormedTime(existingEvents[i].startTime) && IsWellFormedTime(existingEvents[i].endTime)
    ensures HasTimeConflict(Minutes, newStart, newEnd, existingEvents, excludeEventId)
         == HasTimeConflict(DateValue, newStart, newEnd, existingEvents, excludeEventId)
  {
    ReadingsAgree(newStart);
    ReadingsAgree(newEnd);
    forall i | 0 <= i < |existingEvents|
      ensures ConflictsWith(Minutes, newStart, newEnd, existingEvents[i], excludeEventId)
          == ConflictsWith(DateValue, newStart, newEnd, existingEvents[i], excludeEventId)
    {
      ReadingsAgree(existingEvents[i].startTime);
      ReadingsAgree(existingEvents[i].endTime);
    }
  }

  /**
   * On concrete times, as `src/App.jsx` reads them: a range inside an event
   * and a range around an event conflict; a range starting where the event
   * ends does not.
   */
  lemma ConflictExamples(id: Id)
    ensures HasTimeConflict(DateValue, "10:00", "11:00", [Event(id, "", "09:00", "12:00", "", "")], None)
    ensures HasTimeConflict(DateValue, "09:00", "12:00", [Event(id, "", "10:00", "11:00", "", "")], None)
    ensures !HasTimeConflict(DateValue, "10:00", "11:00", [Event(id, "", "09:00", "10:00", "", "")], None)
  {
    assert DateOn2000("09:00") == Some(540) && DateOn2000("10:00") == Some(600);
    assert DateOn2000("11:00") == Some(660) && DateOn2000("12:00") == Some(720);
    assert ConflictsWith(DateValue, "10:00", "11:00", Event(id, "", "09:00", "12:00", "", ""), None);
    assert ConflictsWith(DateValue, "09:00", "12:00", Event(id, "", "10:00", "11:00", "", ""), None);
  }
}
