// Moving a reservation between sessions by drag and drop (the drop handler
// of enable_drag_drop_session in src/index.ts).

module Transfer {
  import opened Types
  import opened Reservations

  /** Sessions keep their identity, film, schedule, hall and capacity. */
  predicate SameScreenings(ss: seq<Session>, tt: seq<Session>) {
    |ss| == |tt| &&
    forall i :: 0 <= i < |ss| ==>
      tt[i] == ss[i].(occupied := tt[i].occupied, reservations := tt[i].reservations)
  }

  /** No reservation id appears in two sessions. */
  predicate Disjoint(ss: seq<Session>) {
    forall i, j :: 0 <= i < |ss| && 0 <= j < |ss| && i != j ==>
      IdSet(ss[i].reservations) !! IdSet(ss[j].reservations)
  }

  /** The drop handler: reservation `k` of session `src` is dropped on session
      `dst`. The film must match and `dst` must have room for its tickets;
      then it leaves `src` and is appended to `dst`, without consolidation. */
  function Drop(ss: seq<Session>, src: nat, k: nat, dst: nat): (m: Move)
    requires src < |ss| && dst < |ss| && k < |ss[src].reservations|
    ensures m.outcome.Rejected? ==> m.sessions == ss
    ensures SameScreenings(ss, m.sessions)
  {
    var r := ss[src].reservations[k];
    if ss[dst].film != ss[src].film then Move(Rejected(FilmMismatch), ss)
    else if !Admits(ss[dst], r.count) then Move(Rejected(CapacityExceeded), ss)
    else
      var detached := ss[src := Detach(ss[src], k)];
      Move(Moved, detached[dst := Attach(detached[dst], r)])
  }

  /** The drop is refused for a different film, then for lack of room at the
      destination, and carried out otherwise. */
  lemma DropAdmission(ss: seq<Session>, src: nat, k: nat, dst: nat)
    requires src < |ss| && dst < |ss| && k < |ss[src].reservations|
    ensures var r := ss[src].reservations[k];
      var m := Drop(ss, src, k, dst);
      && (m.outcome == Rejected(FilmMismatch) <==> ss[dst].film != ss[src].film)
      && (m.outcome == Rejected(CapacityExceeded) <==> ss[dst].film == ss[src].film && !Admits(ss[dst], r.count))
      && (m.outcome == Moved <==> ss[dst].film == ss[src].film && Admits(ss[dst], r.count))
  {
  }

  /** Occupancy summed over all sessions. */
  function TotalOccupied(ss: seq<Session>): int {
    if ss == [] then 0 else TotalOccupied(ss[..|ss| - 1]) + ss[|ss| - 1].occupied
  }

  lemma {:induction false} TotalUpdate(ss: seq<Session>, i: nat, s: Session)
    requires i < |ss|
    ensures TotalOccupied(ss[i := s]) == TotalOccupied(ss) - ss[i].occupied + s.occupied
  {
    var last := |ss| - 1;
    if i == last {
      assert ss[i := s][..last] == ss[..last];
    } else {
      TotalUpdate(ss[..last], i, s);
      assert ss[i := s][..last] == ss[..last][i := s];
    }
  }

  /** A transfer neither creates nor loses tickets: the source loses what the
      destination gains. */
  lemma TransferKeepsTotal(ss: seq<Session>, src: nat, k: nat, dst: nat)
    requires src < |ss| && dst < |ss| && k < |ss[src].reservations|
    ensures TotalOccupied(Drop(ss, src, k, dst).sessions) == TotalOccupied(ss)
  {
    var m := Drop(ss, src, k, dst);
    if m.outcome == Moved {
      var r := ss[src].reservations[k];
      var detached := ss[src := Detach(ss[src], k)];
      TotalUpdate(ss, src, Detach(ss[src], k));
      TotalUpdate(detached, dst, Attach(detached[dst], r));
    }
  }

  /** What an admitted transfer does to the two sessions: the reservation,
      unchanged, ends the destination's list; between different sessions the
      source loses it and its tickets and the destination gains them, and a
      drop on its own session moves it to the end of that list. The others
      keep their order. */
  lemma TransferMoves(ss: seq<Session>, src: nat, k: nat, dst: nat)
    requires src < |ss| && dst < |ss| && k < |ss[src].reservations|
    requires UniqueIds(ss[src].reservations)
    requires Drop(ss, src, k, dst).outcome == Moved
    ensures var r := ss[src].reservations[k];
      var tt := Drop(ss, src, k, dst).sessions;
      && ss[dst].film == ss[src].film
      && ss[dst].occupied + r.count <= ss[dst].capacity
      && tt[dst].reservations[|tt[dst].reservations| - 1] == r
      && (src != dst ==>
            && r.id !in IdSet(tt[src].reservations)
            && |tt[src].reservations| == |ss[src].reservations| - 1
            && tt[src].occupied == ss[src].occupied - r.count
            && tt[src].reservations == RemoveAt(ss[src].reservations, k)
            && tt[dst].reservations == ss[dst].reservations + [r]
            && tt[dst].occupied == ss[dst].occupied + r.count)
      && (src == dst ==>
            && tt[src].occupied == ss[src].occupied
            && tt[src].reservations == RemoveAt(ss[src].reservations, k) + [r])
      && (forall i :: 0 <= i < |ss| && i != src && i != dst ==> tt[i] == ss[i])
  {
    IdSetRemoveAt(ss[src].reservations, k);
  }

  /** Every session's counter equals its tickets, and reservation ids are
      unique within and across sessions. */
  predicate Accounted(ss: seq<Session>) {
    && (forall i :: 0 <= i < |ss| ==> Tallied(ss[i]) && UniqueIds(ss[i].reservations))
    && Disjoint(ss)
  }

  /** Replacing one session keeps the accounts when the new session is tallied,
      has distinct ids and shares none with the other sessions. */
  lemma ReplaceKeepsAccounted(ss: seq<Session>, i: nat, s: Session)
    requires i < |ss| && Accounted(ss)
    requires Tallied(s) && UniqueIds(s.reservations)
    requires forall j :: 0 <= j < |ss| && j != i ==> IdSet(s.reservations) !! IdSet(ss[j].reservations)
    ensures Accounted(ss[i := s])
  {
    var tt := ss[i := s];
    forall a, b | 0 <= a < |tt| && 0 <= b < |tt| && a != b
      ensures IdSet(tt[a].reservations) !! IdSet(tt[b].reservations)
    {
      if a != i && b != i {
        assert IdSet(ss[a].reservations) !! IdSet(ss[b].reservations);
      }
    }
  }

  /** After the reservation at `k` leaves session `src`, its id is held by no
      session and the accounts still hold. */
  lemma DetachKeepsAccounted(ss: seq<Session>, src: nat, k: nat)
    requires src < |ss| && k < |ss[src].reservations| && Accounted(ss)
    ensures var detached := ss[src := Detach(ss[src], k)];
      && Accounted(detached)
      && forall i :: 0 <= i < |detached| ==> ss[src].reservations[k].id !in IdSet(detached[i].reservations)
  {
    var r := ss[src].reservations[k];
    var d := Detach(ss[src], k);
    SumRemoveAt(ss[src].reservations, k);
    IdSetRemoveAt(ss[src].reservations, k);
    assert r.id in IdSet(ss[src].reservations) by { assert r in ss[src].reservations; }
    forall j | 0 <= j < |ss| && j != src ensures IdSet(d.reservations) !! IdSet(ss[j].reservations) {
      assert IdSet(ss[src].reservations) !! IdSet(ss[j].reservations);
    }
    ReplaceKeepsAccounted(ss, src, d);
  }

  /** Appending a reservation whose id no session holds keeps the accounts. */
  lemma AttachKeepsAccounted(ss: seq<Session>, dst: nat, r: Reservation)
    requires dst < |ss| && Accounted(ss)
    requires forall i :: 0 <= i < |ss| ==> r.id !in IdSet(ss[i].reservations)
    ensures Accounted(ss[dst := Attach(ss[dst], r)])
  {
    AttachKeeps(ss[dst], r);
    ReplaceKeepsAccounted(ss, dst, Attach(ss[dst], r));
  }

  /** A transfer keeps every session's counter equal to its tickets and keeps
      reservation ids unique within and across sessions. */
  lemma TransferKeepsAccounted(ss: seq<Session>, src: nat, k: nat, dst: nat)
    requires src < |ss| && dst < |ss| && k < |ss[src].reservations|
    requires Accounted(ss)
    ensures Accounted(Drop(ss, src, k, dst).sessions)
  {
    if Drop(ss, src, k, dst).outcome == Moved {
      var r := ss[src].reservations[k];
      var detached := ss[src := Detach(ss[src], k)];
      DetachKeepsAccounted(ss, src, k);
      AttachKeepsAccounted(detached, dst, r);
    }
  }

  /** Every session follows the booking rules. */
  predicate AllBooked(ss: seq<Session>) {
    forall i :: 0 <= i < |ss| ==> Booked(ss[i])
  }

  /** The session a reservation leaves keeps the booking rules, loses its
      tickets, and holds neither its id nor its name any more. */
  lemma DetachKeepsBooked(s: Session, k: nat)
    requires k < |s.reservations| && Booked(s)
    ensures var d := Detach(s, k);
      && Booked(d)
      && d.occupied + s.reservations[k].count == s.occupied
      && s.reservations[k].id !in IdSet(d.reservations)
      && (forall a :: 0 <= a < |d.reservations| ==> d.reservations[a].name != s.reservations[k].name)
  {
    RemoveKeepsBooked(s, k);
    assert Remove(s, k).session == Detach(s, k);
    var d := Detach(s, k);
    forall a | 0 <= a < |d.reservations| ensures d.reservations[a].name != s.reservations[k].name {
      var a' := if a < k then a else a + 1;
      assert d.reservations[a] == s.reservations[a'];
    }
  }

  /** A transfer keeps every session within capacity and every count in range;
      it keeps names distinct too when the destination does not already hold
      the moved reservation's name (or the drop is on its own session). */
  lemma TransferKeepsBooked(ss: seq<Session>, src: nat, k: nat, dst: nat)
    requires src < |ss| && dst < |ss| && k < |ss[src].reservations|
    requires AllBooked(ss) && Disjoint(ss)
    ensures var tt := Drop(ss, src, k, dst).sessions;
      forall i :: 0 <= i < |tt| ==>
        Tallied(tt[i]) && tt[i].occupied <= tt[i].capacity && CountsInRange(tt[i].reservations)
    ensures var r := ss[src].reservations[k];
      (src == dst || forall a :: 0 <= a < |ss[dst].reservations| ==> ss[dst].reservations[a].name != r.name) ==>
      AllBooked(Drop(ss, src, k, dst).sessions)
  {
    var m := Drop(ss, src, k, dst);
    if m.outcome == Moved {
      var r := ss[src].reservations[k];
      DetachKeepsBooked(ss[src], k);
      var detached := ss[src := Detach(ss[src], k)];
      assert AllBooked(detached);
      var target := detached[dst];
      assert r.id !in IdSet(target.reservations) by {
        if src != dst {
          assert r in ss[src].reservations;
          assert IdSet(ss[src].reservations) !! IdSet(ss[dst].reservations);
        }
      }
      assert Admits(target, r.count);
      assert 1 <= r.count <= MAX_TICKETS_PER_PERSON;
      AttachKeeps(target, r);
      AppendKeeps(target.reservations, r);
      assert m.sessions == detached[dst := Attach(target, r)];
    }
  }
}
