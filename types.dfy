// The booking state of the cinema client: screening sessions, each with the
// reservations listed in its card, and the outcomes of the operations on them.

module Types {

  datatype Option<T> = None | Some(value: T)

  /** One booking: the reservation's id, the holder's full name and the number
      of tickets. Ids stand for the UUIDs the client draws for new bookings. */
  datatype Reservation = Reservation(id: nat, name: string, count: int)

  /** A screening session. `start` is the start in minutes on one time line,
      `length` the duration in minutes, `capacity` the seating capacity copied
      from the session's hall, `occupied` the session's occupancy counter (the
      `now-capacity` attribute of its card), and `reservations` the bookings
      in the order of the card's reservation list. */
  datatype Session = Session(
    id: nat,
    film: string,
    start: int,
    length: int,
    hall: nat,
    capacity: int,
    occupied: int,
    reservations: seq<Reservation>)

  /** The form fields whose emptiness is reported by an alert of its own. */
  datatype Field = FilmName | DateTime | Duration | Hall | FullName | TicketCount

  /** Why an operation was refused; each stands for one alert of the client. */
  datatype Rejection =
    | MissingField(field: Field)
    | TicketCountOutOfRange
    | CapacityExceeded
    | PersonTicketLimit
    | HallTooSmall
    | ScheduleConflict
    | FilmMismatch

  /** What an operation did. Every `Rejected` and `Unchanged` outcome leaves the
      state as it was. */
  datatype Outcome =
    | Created(id: nat)
    | Consolidated(into: nat)
    | Updated
    | Unchanged
    | Removed
    | Moved
    | Scheduled
    | Rejected(reason: Rejection)

  /** The result of an operation on the whole session list. */
  datatype Move = Move(outcome: Outcome, sessions: seq<Session>)
}
