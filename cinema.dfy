// The client's state: the list of session cards with their reservation
// lists, updated in place by the handlers of src/index.ts. Each handler is a
// method that checks and updates step by step and is proved to do what the
// corresponding function of Sessions, Reservations or Transfer says.

module Client {
  import opened Types
  import opened Schedule
  import opened Reservations
  import opened Transfer
  import opened Sessions

  class Cinema {
    /** Hall id to seating capacity, as the hall table holds them. */
    const halls: map<nat, nat>
    /** The session cards in page order. */
    var sessions: seq<Session>

    /** Counters agree with tickets, ids are unique, sessions carry their
        hall's capacity. */
    ghost predicate Valid()
      reads this
    {
      WellFormed(sessions, halls)
    }

    /** Valid, and the booking rules and the hall pause hold as well. */
    ghost predicate Consistent()
      reads this
    {
      Sessions.Consistent(sessions, halls)
    }

    constructor (halls: map<nat, nat>)
      ensures this.halls == halls && sessions == []
      ensures Valid() && Consistent()
    {
      this.halls := halls;
      sessions := [];
    }

    /** create_session on a stored session and add_reservations: the card
        starts with both counters at 0, each stored reservation is appended
        and adds its count, then the card takes its hall's capacity and joins
        the list. No booking rule is checked. */
    method LoadSession(id: nat, film: string, start: int, length: int, hall: nat, rows: seq<Reservation>)
      requires Valid() && hall in halls && FreshSession(sessions, id) && UniqueIds(rows)
      requires forall j :: 0 <= j < |sessions| ==> IdSet(rows) !! IdSet(sessions[j].reservations)
      modifies this
      ensures sessions == old(sessions) + [Loaded(halls, id, film, start, length, hall, rows)]
      ensures Valid()
      ensures (old(Consistent()) && Booked(Loaded(halls, id, film, start, length, hall, rows)) &&
               HallFree(old(sessions), hall, Window(start, length), None)) ==> Consistent()
    {
      LoadKeepsConsistent(sessions, halls, id, film, start, length, hall, rows);
      var card := Session(id, film, start, length, hall, 0, 0, []);
      var i := 0;
      while i < |rows|
        invariant 0 <= i <= |rows|
        invariant sessions == old(sessions)
        invariant card == Session(id, film, start, length, hall, 0, Sum(rows[..i]), rows[..i])
      {
        assert rows[..i + 1] == rows[..i] + [rows[i]];
        SumAppend(rows[..i], rows[i]);
        card := card.(occupied := card.occupied + rows[i].count, reservations := card.reservations + [rows[i]]);
        i := i + 1;
      }
      assert rows[..i] == rows;
      sessions := sessions + [card.(capacity := halls[hall])];
    }

    /** create_new_session: required fields, then the schedule check, then an
        empty session with its hall's capacity joins the list. */
    method CreateSession(id: nat, film: string, start: Option<int>, duration: Option<Schedule.Duration>, hall: Option<nat>)
      returns (outcome: Outcome)
      requires Valid() && FreshSession(sessions, id) && (hall.Some? ==> hall.value in halls)
      modifies this
      ensures var m := Create(old(sessions), halls, id, film, start, duration, hall);
        outcome == m.outcome && sessions == m.sessions
      ensures Valid()
      ensures old(Consistent()) ==> Consistent()
    {
      if film == "" { return Rejected(MissingField(FilmName)); }
      if start.None? { return Rejected(MissingField(DateTime)); }
      if duration.None? { return Rejected(MissingField(Field.Duration)); }
      if hall.None? { return Rejected(MissingField(Hall)); }
      var free := ApproveDatetime(sessions, start.value, duration.value, hall.value, None);
      if !free { return Rejected(ScheduleConflict); }
      CreateKeepsConsistent(sessions, halls, id, film, start, duration, hall);
      sessions := sessions + [Session(id, film, start.value, duration.value.Minutes(), hall.value, halls[hall.value], 0, [])];
      outcome := Scheduled;
    }

    /** The session approve handler of create_session on the card at `si`. */
    method EditSession(si: nat, edited: bool, film: string, start: Option<int>, duration: Option<Schedule.Duration>,
                       hall: Option<nat>)
      returns (outcome: Outcome)
      requires Valid() && si < |sessions| && (hall.Some? ==> hall.value in halls)
      modifies this
      ensures var m := Reschedule(old(sessions), halls, si, edited, film, start, duration, hall);
        outcome == m.outcome && sessions == m.sessions
      ensures Valid()
      ensures old(Consistent()) ==> Consistent()
    {
      if !edited { return Unchanged; }
      if film == "" { return Rejected(MissingField(FilmName)); }
      if start.None? { return Rejected(MissingField(DateTime)); }
      if duration.None? { return Rejected(MissingField(Field.Duration)); }
      if hall.None? { return Rejected(MissingField(Hall)); }
      var capacity := halls[hall.value];
      var card := sessions[si];
      if card.occupied > capacity { return Rejected(HallTooSmall); }
      var free := ApproveDatetime(sessions, start.value, duration.value, hall.value, Some(card.id));
      if !free { return Rejected(ScheduleConflict); }
      RescheduleKeepsConsistent(sessions, halls, si, edited, film, start, duration, hall);
      sessions := sessions[si := card.(film := film, start := start.value, length := duration.value.Minutes(),
                                       hall := hall.value, capacity := capacity)];
      outcome := Updated;
    }

    /** The session delete button. */
    method DeleteSession(si: nat)
      requires Valid() && si < |sessions|
      modifies this
      ensures sessions == Delete(old(sessions), si)
      ensures Valid()
      ensures old(Consistent()) ==> Consistent()
    {
      DeleteKeepsConsistent(sessions, halls, si);
      sessions := sessions[..si] + sessions[si + 1..];
    }

    /** The reservation approve handler on a new reservation of the card at
        `si`, which receives the fresh id `id` when created. */
    method AddReservation(si: nat, name: string, count: Option<int>, id: nat) returns (outcome: Outcome)
      requires Valid() && si < |sessions| && FreshReservation(sessions, id)
      modifies this
      ensures var st := Add(old(sessions)[si], name, count, id);
        outcome == st.outcome && sessions == old(sessions)[si := st.session]
      ensures Valid()
      ensures old(Consistent()) ==> Consistent()
    {
      AddKeepsConsistent(sessions, halls, si, name, count, id);
      var card := sessions[si];
      if name == "" && count.None? { return Unchanged; }
      if name == "" { return Rejected(MissingField(FullName)); }
      if count.None? { return Rejected(MissingField(TicketCount)); }
      var n := count.value;
      if n < 1 || n > MAX_TICKETS_PER_PERSON { return Rejected(TicketCountOutOfRange); }
      if card.capacity < card.occupied + n { return Rejected(CapacityExceeded); }
      ghost var st := Add(card, name, count, id);
      var m := FindMatch(card.reservations, name, None);
      if m.Some? {
        var held := card.reservations[m.value];
        if held.count + n > MAX_TICKETS_PER_PERSON {
          assert st.outcome == Rejected(PersonTicketLimit);
          return Rejected(PersonTicketLimit);
        }
        var topped := card.(occupied := card.occupied + n,
                            reservations := card.reservations[m.value := held.(count := held.count + n)]);
        assert st == Step(Consolidated(held.id), topped);
        sessions := sessions[si := topped];
        outcome := Consolidated(held.id);
      } else {
        var added := card.(occupied := card.occupied + n, reservations := card.reservations + [Reservation(id, name, n)]);
        assert st == Step(Created(id), added);
        sessions := sessions[si := added];
        outcome := Created(id);
      }
    }

    /** The reservation approve handler on the stored reservation `k` of the
        card at `si`, after its fields were edited. */
    method EditReservation(si: nat, k: nat, name: string, count: Option<int>) returns (outcome: Outcome)
      requires Valid() && si < |sessions| && k < |sessions[si].reservations|
      modifies this
      ensures var st := Edit(old(sessions)[si], k, name, count);
        outcome == st.outcome && sessions == old(sessions)[si := st.session]
      ensures Valid()
      ensures old(Consistent()) ==> Consistent()
    {
      EditKeepsConsistent(sessions, halls, si, k, name, count);
      var card := sessions[si];
      var prev := card.reservations[k];
      if name == prev.name && count == Some(prev.count) { return Unchanged; }
      if name == "" { return Rejected(MissingField(FullName)); }
      if count.None? { return Rejected(MissingField(TicketCount)); }
      var n := count.value;
      if n < 1 || n > MAX_TICKETS_PER_PERSON { return Rejected(TicketCountOutOfRange); }
      if card.capacity < card.occupied + n - prev.count { return Rejected(CapacityExceeded); }
      ghost var st := Edit(card, k, name, count);
      var m := FindMatch(card.reservations, name, Some(prev.id));
      if m.Some? {
        var held := card.reservations[m.value];
        if held.count + n > MAX_TICKETS_PER_PERSON {
          assert st.outcome == Rejected(PersonTicketLimit);
          return Rejected(PersonTicketLimit);
        }
        var topped := card.reservations[m.value := held.(count := held.count + n)];
        var merged := card.(occupied := card.occupied + n - prev.count, reservations := RemoveAt(topped, k));
        assert st == Step(Consolidated(held.id), merged);
        sessions := sessions[si := merged];
        outcome := Consolidated(held.id);
      } else {
        var rewritten := card.(occupied := card.occupied + n - prev.count,
                               reservations := card.reservations[k := Reservation(prev.id, name, n)]);
        assert st == Step(Updated, rewritten);
        sessions := sessions[si := rewritten];
        outcome := Updated;
      }
    }

    /** The reservation delete handler. */
    method RemoveReservation(si: nat, k: nat) returns (outcome: Outcome)
      requires Valid() && si < |sessions| && k < |sessions[si].reservations|
      modifies this
      ensures var st := Remove(old(sessions)[si], k);
        outcome == st.outcome && sessions == old(sessions)[si := st.session]
      ensures Valid()
      ensures old(Consistent()) ==> Consistent()
    {
      RemoveKeepsConsistent(sessions, halls, si, k);
      var card := sessions[si];
      var r := card.reservations[k];
      sessions := sessions[si := card.(occupied := card.occupied - r.count, reservations := RemoveAt(card.reservations, k))];
      outcome := Removed;
    }

    /** The drop handler: reservation `k` of the card at `si` dropped on the
        card at `di`. */
    method TransferReservation(si: nat, k: nat, di: nat) returns (outcome: Outcome)
      requires Valid() && si < |sessions| && di < |sessions| && k < |sessions[si].reservations|
      modifies this
      ensures var m := Drop(old(sessions), si, k, di);
        outcome == m.outcome && sessions == m.sessions
      ensures Valid()
      ensures var r := old(sessions)[si].reservations[k];
        old(Consistent()) &&
        (si == di || forall a :: 0 <= a < |old(sessions)[di].reservations| ==> old(sessions)[di].reservations[a].name != r.name) ==>
        Consistent()
    {
      TransferKeepsConsistent(sessions, halls, si, k, di);
      ghost var m := Drop(sessions, si, k, di);
      var source := sessions[si];
      var target := sessions[di];
      if target.film != source.film { return Rejected(FilmMismatch); }
      var r := source.reservations[k];
      if target.capacity < target.occupied + r.count { return Rejected(CapacityExceeded); }
      sessions := sessions[si := Detach(source, k)];
      target := sessions[di];
      sessions := sessions[di := target.(occupied := target.occupied + r.count, reservations := target.reservations + [r])];
      assert sessions == m.sessions;
      outcome := Moved;
    }
  }
}
