/**
 * The records the widget stores: events and the draft that the event dialog
 * edits, with the parts of JavaScript's value semantics the handlers rely on
 * (truthiness of an id, `===` and `==` between ids).
 */
module Events {
  import opened Wrappers
  import opened JsText

  /**
   * An event id: a number from `Date.now()`, or a string (the initial draft
   * carries `id: ""`, which the spread in `handleAddEvent` copies into the event).
   */
  datatype Id = Num(n: int) | Str(s: string)

  /** `!!id`, with `None` for `null`/`undefined`: 0 and "" are falsy. */
  predicate Truthy(id: Option<Id>) {
    match id
    case None => false
    case Some(Num(n)) => n != 0
    case Some(Str(s)) => s != ""
  }

  /** `a == b` on ids: a number and a string are compared after `Number(string)`. */
  predicate LooseEquals(a: Id, b: Id) {
    match (a, b)
    case (Num(x), Num(y)) => x == y
    case (Str(x), Str(y)) => x == y
    case (Num(x), Str(y)) => ToNumber(y) == Some(x)
    case (Str(x), Num(y)) => ToNumber(x) == Some(y)
  }

  /** `==` is symmetric, and it agrees with `===` on ids of the same kind. */
  lemma LooseEqualsProperties(a: Id, b: Id)
    ensures LooseEquals(a, b) == LooseEquals(b, a)
    ensures a == b ==> LooseEquals(a, b)
    ensures a.Num? == b.Num? ==> (LooseEquals(a, b) <==> a == b)
    ensures LooseEquals(Num(0), Str(""))
  {
  }

  /** A stored event; `date` is the key of the list it is filed under. */
  datatype Event = Event(
    id: Id,
    title: string,
    startTime: string,
    endTime: string,
    description: string,
    date: string)

  /**
   * The dialog's `newEvent` object. `id` is `None` when the object has no `id`
   * key at all (after a reset), which matters for `{ id: Date.now(), ...newEvent }`.
   */
  datatype Draft = Draft(
    id: Option<Id>,
    title: string,
    startTime: string,
    endTime: string,
    description: string)

  /** The draft the component starts with (it has `id: ""`). */
  const InitialDraft: Draft := Draft(Some(Str("")), "", "", "", "")

  /** The draft set after a successful add or edit (it has no `id` key). */
  const ResetDraft: Draft := Draft(None, "", "", "", "")
}
