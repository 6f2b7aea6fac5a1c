// The session list as a whole: the checks of creating a session
// (create_new_session) and of editing one (the session approve handler of
// create_session), deleting a session, loading one with its reservations,
// and the invariants the list keeps under every operation (src/index.ts).

module Sessions {
  import opened Types
  import opened Schedule
  import opened Reservations
  import opened Transfer

  /** Every session sits in a known hall and carries that hall's capacity. */
  predicate Placed(ss: seq<Session>, halls: map<nat, nat>) {
    forall i :: 0 <= i < |ss| ==> ss[i].hall in halls && ss[i].capacity == halls[ss[i].hall]
  }

  /** Session ids are distinct. */
  predicate DistinctSessions(ss: seq<Session>) {
    forall i, j :: 0 <= i < |ss| && 0 <= j < |ss| && i != j ==> ss[i].id != ss[j].id
  }

  /** No session is called `id`. */
  predicate FreshSession(ss: seq<Session>, id: nat) {
    forall i :: 0 <= i < |ss| ==> ss[i].id != id
  }

  /** No session holds a reservation called `id`. */
  predicate FreshReservation(ss: seq<Session>, id: nat) {
    forall i :: 0 <= i < |ss| ==> id !in IdSet(ss[i].reservations)
  }

  /** What every operation keeps, loading included: counters agree with the
      tickets, ids are unique, sessions carry their hall's capacity. */
  predicate WellFormed(ss: seq<Session>, halls: map<nat, nat>) {
    Accounted(ss) && Placed(ss, halls) && DistinctSessions(ss)
  }

  /** The booking rules over the whole list: each session within capacity
      with distinct names and counts of 1..5, and the pause kept in every
      hall. */
  predicate Consistent(ss: seq<Session>, halls: map<nat, nat>) {
    WellFormed(ss, halls) && AllBooked(ss) && Separated(ss)
  }

  /** The session create handler: the four required fields in their order,
      then the schedule check; a new session is empty and takes its hall's
      capacity. */
  function Create(ss: seq<Session>, halls: map<nat, nat>, id: nat, film: string,
                  start: Option<int>, duration: Option<Schedule.Duration>, hall: Option<nat>): (m: Move)
    requires hall.Some? ==> hall.value in halls
    ensures m.outcome.Rejected? ==> m.sessions == ss
  {
    if !Filled(film) then Move(Rejected(MissingField(FilmName)), ss)
    else if start.None? then Move(Rejected(MissingField(DateTime)), ss)
    else if duration.None? then Move(Rejected(MissingField(Field.Duration)), ss)
    else if hall.None? then Move(Rejected(MissingField(Hall)), ss)
    else if !HallFree(ss, hall.value, Window(start.value, duration.value.Minutes()), None) then
      Move(Rejected(ScheduleConflict), ss)
    else
      Move(Scheduled, ss + [Session(id, film, start.value, duration.value.Minutes(), hall.value, halls[hall.value], 0, [])])
  }

  /** The session edit handler on the session at `i`: nothing happens unless
      a field was edited; then the required fields, the new hall's capacity
      against the current occupancy, and the schedule check leaving the
      session itself out. */
  function Reschedule(ss: seq<Session>, halls: map<nat, nat>, i: nat, edited: bool, film: string,
                      start: Option<int>, duration: Option<Schedule.Duration>, hall: Option<nat>): (m: Move)
    requires i < |ss| && (hall.Some? ==> hall.value in halls)
    ensures m.outcome.Rejected? || m.outcome.Unchanged? ==> m.sessions == ss
    ensures |m.sessions| == |ss|
  {
    if !edited then Move(Unchanged, ss)
    else if !Filled(film) then Move(Rejected(MissingField(FilmName)), ss)
    else if start.None? then Move(Rejected(MissingField(DateTime)), ss)
    else if duration.None? then Move(Rejected(MissingField(Field.Duration)), ss)
    else if hall.None? then Move(Rejected(MissingField(Hall)), ss)
    else if ss[i].occupied > halls[hall.value] then Move(Rejected(HallTooSmall), ss)
    else if !HallFree(ss, hall.value, Window(start.value, duration.value.Minutes()), Some(ss[i].id)) then
      Move(Rejected(ScheduleConflict), ss)
    else
      Move(Updated, ss[i := ss[i].(film := film, start := start.value, length := duration.value.Minutes(),
                                   hall := hall.value, capacity := halls[hall.value])])
  }

  /** The session delete handler: the session leaves the list with its
      reservations; the others keep their order. */
  function Delete(ss: seq<Session>, i: nat): (tt: seq<Session>)
    requires i < |ss|
    ensures |tt| == |ss| - 1
    ensures forall j :: 0 <= j < |tt| ==> tt[j] == ss[if j < i then j else j + 1]
  {
    ss[..i] + ss[i + 1..]
  }

  /** A session as loaded: its reservations in the stored order, its counter
      summed over them, and its hall's capacity. */
  function Loaded(halls: map<nat, nat>, id: nat, film: string, start: int, length: int, hall: nat,
                  rows: seq<Reservation>): Session
    requires hall in halls
  {
    Session(id, film, start, length, hall, halls[hall], Sum(rows), rows)
  }

  // ---- Lemmas ----

  /** Lists that differ only in occupancy and reservations have the same
      halls, capacities, ids and schedule. */
  lemma SameScreeningsKeep(ss: seq<Session>, tt: seq<Session>, halls: map<nat, nat>)
    requires SameScreenings(ss, tt)
    ensures Placed(ss, halls) ==> Placed(tt, halls)
    ensures DistinctSessions(ss) ==> DistinctSessions(tt)
    ensures Separated(ss) ==> Separated(tt)
  {
    assert forall i :: 0 <= i < |ss| ==> WindowOf(tt[i]) == WindowOf(ss[i]) && tt[i].hall == ss[i].hall;
  }

  /** Rebooking session `i` (new occupancy and reservations, ids taken from
      its own and from `extra`, which no session holds) keeps the list well
      formed, and keeps it consistent when the rebooked session follows the
      booking rules. */
  lemma RebookKeeps(ss: seq<Session>, halls: map<nat, nat>, i: nat, t: Session, extra: set<nat>)
    requires i < |ss| && t == ss[i].(occupied := t.occupied, reservations := t.reservations)
    requires forall j :: 0 <= j < |ss| ==> extra !! IdSet(ss[j].reservations)
    requires IdSet(t.reservations) <= IdSet(ss[i].reservations) + extra
    requires Tallied(t) && UniqueIds(t.reservations)
    ensures WellFormed(ss, halls) ==> WellFormed(ss[i := t], halls)
    ensures Consistent(ss, halls) && Booked(t) ==> Consistent(ss[i := t], halls)
  {
    var tt := ss[i := t];
    assert SameScreenings(ss, tt);
    SameScreeningsKeep(ss, tt, halls);
    if Accounted(ss) {
      forall j | 0 <= j < |ss| && j != i
        ensures IdSet(t.reservations) !! IdSet(ss[j].reservations)
      {
        assert IdSet(ss[i].reservations) !! IdSet(ss[j].reservations);
        assert extra !! IdSet(ss[j].reservations);
      }
      ReplaceKeepsAccounted(ss, i, t);
    }
  }

  /** Approving a new reservation in session `i` keeps the booking rules of
      the whole list, provided its id is fresh. */
  lemma AddKeepsConsistent(ss: seq<Session>, halls: map<nat, nat>, i: nat, name: string, count: Option<int>, id: nat)
    requires i < |ss| && FreshReservation(ss, id)
    ensures WellFormed(ss, halls) ==> WellFormed(ss[i := Add(ss[i], name, count, id).session], halls)
    ensures Consistent(ss, halls) ==> Consistent(ss[i := Add(ss[i], name, count, id).session], halls)
  {
    if WellFormed(ss, halls) {
      var t := Add(ss[i], name, count, id).session;
      AddKeepsBooked(ss[i], name, count, id);
      RebookKeeps(ss, halls, i, t, {id});
    }
  }

  /** Approving an edited reservation keeps the booking rules of the list. */
  lemma EditKeepsConsistent(ss: seq<Session>, halls: map<nat, nat>, i: nat, k: nat, name: string, count: Option<int>)
    requires i < |ss| && k < |ss[i].reservations|
    ensures WellFormed(ss, halls) ==> WellFormed(ss[i := Edit(ss[i], k, name, count).session], halls)
    ensures Consistent(ss, halls) ==> Consistent(ss[i := Edit(ss[i], k, name, count).session], halls)
  {
    if WellFormed(ss, halls) {
      var t := Edit(ss[i], k, name, count).session;
      EditKeepsBooked(ss[i], k, name, count);
      RebookKeeps(ss, halls, i, t, {});
    }
  }

  /** Deleting a reservation keeps the booking rules of the list. */
  lemma RemoveKeepsConsistent(ss: seq<Session>, halls: map<nat, nat>, i: nat, k: nat)
    requires i < |ss| && k < |ss[i].reservations|
    ensures WellFormed(ss, halls) ==> WellFormed(ss[i := Remove(ss[i], k).session], halls)
    ensures Consistent(ss, halls) ==> Consistent(ss[i := Remove(ss[i], k).session], halls)
  {
    if WellFormed(ss, halls) {
      RemoveKeepsBooked(ss[i], k);
      RebookKeeps(ss, halls, i, Remove(ss[i], k).session, {});
    }
  }

  /** A transfer keeps the list well formed; it keeps the booking rules when
      the destination does not already hold the moved name (or the drop is
      on the reservation's own session). */
  lemma TransferKeepsConsistent(ss: seq<Session>, halls: map<nat, nat>, src: nat, k: nat, dst: nat)
    requires src < |ss| && dst < |ss| && k < |ss[src].reservations|
    ensures WellFormed(ss, halls) ==> WellFormed(Drop(ss, src, k, dst).sessions, halls)
    ensures var r := ss[src].reservations[k];
      Consistent(ss, halls) &&
      (src == dst || forall a :: 0 <= a < |ss[dst].reservations| ==> ss[dst].reservations[a].name != r.name) ==>
      Consistent(Drop(ss, src, k, dst).sessions, halls)
  {
    var tt := Drop(ss, src, k, dst).sessions;
    SameScreeningsKeep(ss, tt, halls);
    if WellFormed(ss, halls) {
      TransferKeepsAccounted(ss, src, k, dst);
    }
    if Consistent(ss, halls) {
      TransferKeepsBooked(ss, src, k, dst);
    }
  }

  /** Creating a session keeps the list well formed and consistent, provided
      its id is new. */
  lemma CreateKeepsConsistent(ss: seq<Session>, halls: map<nat, nat>, id: nat, film: string,
                              start: Option<int>, duration: Option<Schedule.Duration>, hall: Option<nat>)
    requires (hall.Some? ==> hall.value in halls) && FreshSession(ss, id)
    ensures WellFormed(ss, halls) ==> WellFormed(Create(ss, halls, id, film, start, duration, hall).sessions, halls)
    ensures Consistent(ss, halls) ==> Consistent(Create(ss, halls, id, film, start, duration, hall).sessions, halls)
  {
    var m := Create(ss, halls, id, film, start, duration, hall);
    if m.outcome == Scheduled && WellFormed(ss, halls) {
      var s := m.sessions[|ss|];
      assert m.sessions == ss + [s];
      assert s.reservations == [] && s.occupied == 0 && s.hall in halls && s.capacity == halls[s.hall];
      assert HallFree(ss, s.hall, WindowOf(s), None);
      var tt := ss + [s];
      forall a, b | 0 <= a < |tt| && 0 <= b < |tt| && a != b
        ensures IdSet(tt[a].reservations) !! IdSet(tt[b].reservations)
      {
        if a < |ss| && b < |ss| {
          assert IdSet(ss[a].reservations) !! IdSet(ss[b].reservations);
        }
      }
      if Consistent(ss, halls) {
        AppendKeepsSeparated(ss, s);
      }
    }
  }

  /** A complete create request is scheduled exactly when the hall is free
      for it, and the new session starts empty with its hall's capacity. */
  lemma CreateAdmission(ss: seq<Session>, halls: map<nat, nat>, id: nat, film: string, start: int,
                        duration: Schedule.Duration, hall: nat)
    requires hall in halls && Filled(film)
    ensures var m := Create(ss, halls, id, film, Some(start), Some(duration), Some(hall));
      && (m.outcome == Scheduled <==> HallFree(ss, hall, Window(start, duration.Minutes()), None))
      && (m.outcome != Scheduled ==> m.outcome == Rejected(ScheduleConflict) && m.sessions == ss)
      && (m.outcome == Scheduled ==>
            && |m.sessions| == |ss| + 1
            && m.sessions[..|ss|] == ss
            && m.sessions[|ss|] == Session(id, film, start, duration.Minutes(), hall, halls[hall], 0, []))
  {
  }

  /** The required fields of a new session, checked in the order film,
      date and time, duration, hall; the first one missing is reported and
      the list stays as it was. */
  lemma CreateGuards(ss: seq<Session>, halls: map<nat, nat>, id: nat, film: string,
                     start: Option<int>, duration: Option<Schedule.Duration>, hall: Option<nat>)
    requires hall.Some? ==> hall.value in halls
    ensures var m := Create(ss, halls, id, film, start, duration, hall);
      && (film == "" ==> m == Move(Rejected(MissingField(FilmName)), ss))
      && (film != "" && start.None? ==> m == Move(Rejected(MissingField(DateTime)), ss))
      && (film != "" && start.Some? && duration.None? ==> m == Move(Rejected(MissingField(Field.Duration)), ss))
      && (film != "" && start.Some? && duration.Some? && hall.None? ==> m == Move(Rejected(MissingField(Hall)), ss))
  {
  }

  /** The guards of a session edit, in their order: an unedited card is
      left alone, then the first missing field among film, date and time,
      duration and hall is reported; the list stays as it was. */
  lemma RescheduleGuards(ss: seq<Session>, halls: map<nat, nat>, i: nat, edited: bool, film: string,
                         start: Option<int>, duration: Option<Schedule.Duration>, hall: Option<nat>)
    requires i < |ss| && (hall.Some? ==> hall.value in halls)
    ensures var m := Reschedule(ss, halls, i, edited, film, start, duration, hall);
      && (m.outcome == Unchanged <==> !edited)
      && (edited && film == "" ==> m == Move(Rejected(MissingField(FilmName)), ss))
      && (edited && film != "" && start.None? ==> m == Move(Rejected(MissingField(DateTime)), ss))
      && (edited && film != "" && start.Some? && duration.None? ==> m == Move(Rejected(MissingField(Field.Duration)), ss))
      && (edited && film != "" && start.Some? && duration.Some? && hall.None? ==>
            m == Move(Rejected(MissingField(Hall)), ss))
  {
  }

  /** Editing a session keeps the list well formed and consistent. */
  lemma RescheduleKeepsConsistent(ss: seq<Session>, halls: map<nat, nat>, i: nat, edited: bool, film: string,
                                  start: Option<int>, duration: Option<Schedule.Duration>, hall: Option<nat>)
    requires i < |ss| && (hall.Some? ==> hall.value in halls)
    ensures WellFormed(ss, halls) ==> WellFormed(Reschedule(ss, halls, i, edited, film, start, duration, hall).sessions, halls)
    ensures Consistent(ss, halls) ==> Consistent(Reschedule(ss, halls, i, edited, film, start, duration, hall).sessions, halls)
  {
    var m := Reschedule(ss, halls, i, edited, film, start, duration, hall);
    if m.outcome == Updated && WellFormed(ss, halls) {
      var s := m.sessions[i];
      assert m.sessions == ss[i := s];
      assert s.reservations == ss[i].reservations && s.occupied == ss[i].occupied && s.id == ss[i].id;
      assert s.occupied <= s.capacity && s.hall in halls && s.capacity == halls[s.hall];
      assert HallFree(ss, s.hall, WindowOf(s), Some(s.id));
      var tt := ss[i := s];
      forall a, b | 0 <= a < |tt| && 0 <= b < |tt| && a != b
        ensures IdSet(tt[a].reservations) !! IdSet(tt[b].reservations)
      {
        assert IdSet(ss[a].reservations) !! IdSet(ss[b].reservations);
      }
      if Consistent(ss, halls) {
        ReplaceKeepsSeparated(ss, i, s);
      }
    }
  }

  /** A complete session edit is refused on the hall exactly when the
      session's occupancy exceeds the new hall's capacity, and otherwise
      admitted exactly when the hall is free of the other sessions and
      refused on the schedule, changing nothing, when it is not; an
      admitted edit rewrites film, time, duration, hall and capacity of that
      session alone and keeps its id, counter and reservations. */
  lemma RescheduleAdmission(ss: seq<Session>, halls: map<nat, nat>, i: nat, film: string, start: int,
                            duration: Schedule.Duration, hall: nat)
    requires i < |ss| && hall in halls && Filled(film)
    ensures var m := Reschedule(ss, halls, i, true, film, Some(start), Some(duration), Some(hall));
      && (m.outcome == Rejected(HallTooSmall) <==> ss[i].occupied > halls[hall])
      && (m.outcome == Updated <==>
            ss[i].occupied <= halls[hall] && HallFree(ss, hall, Window(start, duration.Minutes()), Some(ss[i].id)))
      && (ss[i].occupied <= halls[hall] && !HallFree(ss, hall, Window(start, duration.Minutes()), Some(ss[i].id)) ==>
            m == Move(Rejected(ScheduleConflict), ss))
      && (m.outcome == Updated ==>
            && |m.sessions| == |ss|
            && (forall j :: 0 <= j < |ss| && j != i ==> m.sessions[j] == ss[j])
            && m.sessions[i] == Session(ss[i].id, film, start, duration.Minutes(), hall, halls[hall],
                                        ss[i].occupied, ss[i].reservations))
  {
  }

  /** Re-approving a session's own hall and time is admitted in a separated
      schedule: the session does not clash with itself. */
  lemma OwnPlacementAdmitted(ss: seq<Session>, i: nat)
    requires i < |ss| && Separated(ss) && DistinctSessions(ss)
    ensures HallFree(ss, ss[i].hall, WindowOf(ss[i]), Some(ss[i].id))
  {
    forall j | 0 <= j < |ss| && InScan(ss[j], ss[i].hall, Some(ss[i].id))
      ensures !Conflicts(WindowOf(ss[j]), WindowOf(ss[i]))
    {
      assert j != i;
    }
  }

  /** Deleting a session keeps the list well formed and consistent. */
  lemma DeleteKeepsConsistent(ss: seq<Session>, halls: map<nat, nat>, i: nat)
    requires i < |ss|
    ensures WellFormed(ss, halls) ==> WellFormed(Delete(ss, i), halls)
    ensures Consistent(ss, halls) ==> Consistent(Delete(ss, i), halls)
  {
    var tt := Delete(ss, i);
    forall a, b | 0 <= a < |tt| && 0 <= b < |tt| && a != b
      ensures tt[a] == ss[if a < i then a else a + 1] && tt[b] == ss[if b < i then b else b + 1]
      ensures (if a < i then a else a + 1) != (if b < i then b else b + 1)
    {
    }
  }

  /** Loading a session whose id is new and whose reservation ids are
      distinct and held nowhere else keeps the list well formed; it keeps the
      booking rules when the loaded session follows them and fits the
      schedule. */
  lemma LoadKeepsConsistent(ss: seq<Session>, halls: map<nat, nat>, id: nat, film: string, start: int, length: int,
                            hall: nat, rows: seq<Reservation>)
    requires hall in halls && FreshSession(ss, id) && UniqueIds(rows)
    requires forall j :: 0 <= j < |ss| ==> IdSet(rows) !! IdSet(ss[j].reservations)
    ensures var s := Loaded(halls, id, film, start, length, hall, rows);
      && (WellFormed(ss, halls) ==> WellFormed(ss + [s], halls))
      && (Consistent(ss, halls) && Booked(s) && HallFree(ss, hall, Window(start, length), None) ==>
            Consistent(ss + [s], halls))
  {
    var s := Loaded(halls, id, film, start, length, hall, rows);
    var tt := ss + [s];
    if WellFormed(ss, halls) {
      forall a, b | 0 <= a < |tt| && 0 <= b < |tt| && a != b
        ensures IdSet(tt[a].reservations) !! IdSet(tt[b].reservations)
      {
        if a < |ss| && b < |ss| {
          assert IdSet(ss[a].reservations) !! IdSet(ss[b].reservations);
        }
      }
    }
    if Consistent(ss, halls) && Booked(s) && HallFree(ss, hall, Window(start, length), None) {
      AppendKeepsSeparated(ss, s);
    }
  }
}
