/** Values shared by every part of the bot: the user who sent an update,
    the kinds of incoming update the dialogs filter on, and the failures a
    handler can raise. */
module Common {

  datatype Option<+T> = None | Some(value: T)

  /** The exceptions a handler can raise before it returns its next state. */
  datatype Error =
    | ClosedDatabase    // sqlite3 refuses every statement once the connection is closed
    | NoSuchColumn      // an UPDATE naming a column its table does not have
    | MissingLastName   // `first_name + last_name` with no last name (a TypeError in the source)

  datatype Result<+T> = Success(value: T) | Failure(error: Error)

  /** A shared geolocation, kept as an abstract pair of coordinates. */
  datatype GeoPoint = GeoPoint(latitude: real, longitude: real)

  /** The sender of an update: every chat user has a first name, the last
      name is optional. */
  datatype User = User(firstName: string, lastName: Option<string>)

  /** An incoming message, tagged by what the dialog filters look at.
      `Command` is a message that starts with a bot command; `name` is the
      command word without the slash. `Text` is any other text message. */
  datatype Event =
    | Text(text: string)
    | Command(name: string)
    | PhotoMessage
    | LocationMessage(point: GeoPoint)

  const CancelCommand: Event := Command("cancel")
  const SkipCommand: Event := Command("skip")

  /** The fallbacks both dialogs register: `/cancel` selects the dialog's
      cancel callback, nothing else is handled. */
  function Fallback<H>(e: Event, cancel: H): (r: Option<H>)
    ensures r.Some? <==> e == CancelCommand
    ensures r.Some? ==> r.value == cancel
  {
    if e == CancelCommand then Some(cancel) else None
  }

  /** A callback's outcome: the error its statement raised, or the state it
      returns paired with the tables the statement left. */
  function Then<D, S>(w: Result<D>, next: S): (r: Result<(S, D)>)
    ensures r.Success? <==> w.Success?
    ensures r.Success? ==> r.value == (next, w.value)
    ensures w.Failure? ==> r == Failure(w.error)
  {
    match w
    case Failure(err) => Failure(err)
    case Success(d) => Success((next, d))
  }
}
