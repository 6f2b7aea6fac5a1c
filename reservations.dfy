// The reservation rules of a single session: capacity admission
// (validate_count), the input guards and same-name consolidation of the
// approve handler, and the delete handler (add_reservation in src/index.ts).

module Reservations {
  import opened Types

  /** The most tickets one full name may hold in one session. */
  const MAX_TICKETS_PER_PERSON: int := 5

  /** Total tickets of a reservation list. */
  function Sum(rs: seq<Reservation>): int {
    if rs == [] then 0 else Sum(rs[..|rs| - 1]) + rs[|rs| - 1].count
  }

  /** Tickets held under one full name. */
  function HeldBy(rs: seq<Reservation>, name: string): int {
    if rs == [] then 0
    else HeldBy(rs[..|rs| - 1], name) + (if rs[|rs| - 1].name == name then rs[|rs| - 1].count else 0)
  }

  function IdSet(rs: seq<Reservation>): set<nat> {
    set r | r in rs :: r.id
  }

  predicate UniqueIds(rs: seq<Reservation>) {
    forall a, b :: 0 <= a < |rs| && 0 <= b < |rs| && a != b ==> rs[a].id != rs[b].id
  }

  predicate UniqueNames(rs: seq<Reservation>) {
    forall a, b :: 0 <= a < |rs| && 0 <= b < |rs| && a != b ==> rs[a].name != rs[b].name
  }

  predicate CountsInRange(rs: seq<Reservation>) {
    forall a :: 0 <= a < |rs| ==> 1 <= rs[a].count <= MAX_TICKETS_PER_PERSON
  }

  /** The occupancy counter agrees with the reservations. */
  predicate Tallied(s: Session) {
    s.occupied == Sum(s.reservations)
  }

  /** The booking rules of one session: occupancy is the sum of the counts and
      within capacity, ids and names are distinct, counts lie in 1..5. */
  predicate Booked(s: Session) {
    && Tallied(s)
    && s.occupied <= s.capacity
    && UniqueIds(s.reservations)
    && UniqueNames(s.reservations)
    && CountsInRange(s.reservations)
  }

  function RemoveAt(rs: seq<Reservation>, k: nat): (r: seq<Reservation>)
    requires k < |rs|
    ensures |r| == |rs| - 1
    ensures forall j :: 0 <= j < k ==> r[j] == rs[j]
    ensures forall j :: k <= j < |r| ==> r[j] == rs[j + 1]
  {
    rs[..k] + rs[k + 1..]
  }

  lemma SumAppend(rs: seq<Reservation>, r: Reservation)
    ensures Sum(rs + [r]) == Sum(rs) + r.count
  {
    assert (rs + [r])[..|rs|] == rs;
  }

  lemma {:induction false} SumUpdate(rs: seq<Reservation>, k: nat, r: Reservation)
    requires k < |rs|
    ensures Sum(rs[k := r]) == Sum(rs) - rs[k].count + r.count
  {
    var last := |rs| - 1;
    if k == last {
      assert rs[k := r][..last] == rs[..last];
    } else {
      SumUpdate(rs[..last], k, r);
      assert rs[k := r][..last] == rs[..last][k := r];
    }
  }

  lemma {:induction false} SumRemoveAt(rs: seq<Reservation>, k: nat)
    requires k < |rs|
    ensures Sum(RemoveAt(rs, k)) == Sum(rs) - rs[k].count
  {
    var last := |rs| - 1;
    if k == last {
      assert RemoveAt(rs, k) == rs[..last];
    } else {
      var init := rs[..last];
      SumRemoveAt(init, k);
      assert RemoveAt(rs, k) == RemoveAt(init, k) + [rs[last]];
      SumAppend(RemoveAt(init, k), rs[last]);
    }
  }

  lemma IdSetRemoveAt(rs: seq<Reservation>, k: nat)
    requires k < |rs| && UniqueIds(rs)
    ensures IdSet(RemoveAt(rs, k)) == IdSet(rs) - {rs[k].id}
    ensures UniqueIds(RemoveAt(rs, k))
  {
    var r := RemoveAt(rs, k);
    forall x | x in IdSet(rs) - {rs[k].id}
      ensures x in IdSet(r)
    {
      var j :| 0 <= j < |rs| && rs[j].id == x;
      if j < k { assert r[j] == rs[j]; } else { assert r[j - 1] == rs[j]; }
    }
    forall x | x in IdSet(r)
      ensures x in IdSet(rs) - {rs[k].id}
    {
      var j :| 0 <= j < |r| && r[j].id == x;
      if j < k { assert r[j] == rs[j]; } else { assert r[j] == rs[j + 1]; }
    }
  }

  /** With distinct names and counts of at most 5, nobody holds more than 5
      tickets in the session. */
  lemma {:induction false} PerPersonCeiling(rs: seq<Reservation>, name: string)
    requires UniqueNames(rs) && CountsInRange(rs)
    ensures HeldBy(rs, name) <= MAX_TICKETS_PER_PERSON
  {
    if rs != [] {
      var last := |rs| - 1;
      var init := rs[..last];
      if rs[last].name == name {
        NameAbsentHoldsNothing(init, name);
      } else {
        PerPersonCeiling(init, name);
      }
    }
  }

  lemma {:induction false} NameAbsentHoldsNothing(rs: seq<Reservation>, name: string)
    requires forall a :: 0 <= a < |rs| ==> rs[a].name != name
    ensures HeldBy(rs, name) == 0
  {
    if rs != [] {
      NameAbsentHoldsNothing(rs[..|rs| - 1], name);
    }
  }

  /** validate_count: the session admits `delta` more tickets when its
      capacity covers the occupancy plus the delta. */
  predicate Admits(s: Session, delta: int) {
    s.capacity >= s.occupied + delta
  }

  /** empty_string: true when the text field holds something. */
  predicate Filled(text: string) {
    |text| > 0
  }

  /** A persisted reservation the request would consolidate into: same full
      name, and not the reservation being edited. */
  predicate IsMatch(r: Reservation, name: string, exclude: Option<nat>) {
    r.name == name && exclude != Some(r.id)
  }

  /** The first matching reservation in list order. */
  function FirstMatch(rs: seq<Reservation>, name: string, exclude: Option<nat>): (m: Option<nat>)
    ensures m.Some? ==> m.value < |rs| && IsMatch(rs[m.value], name, exclude)
    ensures m.Some? ==> forall j :: 0 <= j < m.value ==> !IsMatch(rs[j], name, exclude)
    ensures m.None? ==> forall j :: 0 <= j < |rs| ==> !IsMatch(rs[j], name, exclude)
  {
    if rs == [] then None
    else if IsMatch(rs[0], name, exclude) then Some(0)
    else match FirstMatch(rs[1..], name, exclude)
      case None => None
      case Some(j) => Some(j + 1)
  }

  /** The filter over the session's reservation items, taking the first hit. */
  method FindMatch(rs: seq<Reservation>, name: string, exclude: Option<nat>) returns (m: Option<nat>)
    ensures m == FirstMatch(rs, name, exclude)
  {
    var i := 0;
    while i < |rs|
      invariant 0 <= i <= |rs|
      invariant forall j :: 0 <= j < i ==> !IsMatch(rs[j], name, exclude)
    {
      if rs[i].name == name && exclude != Some(rs[i].id) {
        ghost var expected := FirstMatch(rs, name, exclude);
        assert expected.Some? && expected.value == i;
        return Some(i);
      }
      i := i + 1;
    }
    m := None;
  }

  /** The input guards of the approve handler in their order. The range check
      is the correction for zero and out-of-range counts. */
  function CheckInput(name: string, count: Option<int>): Option<Rejection> {
    if !Filled(name) then Some(MissingField(FullName))
    else if count.None? then Some(MissingField(TicketCount))
    else if !(1 <= count.value <= MAX_TICKETS_PER_PERSON) then Some(TicketCountOutOfRange)
    else None
  }

  /** The result of an operation on one session. */
  datatype Step = Step(outcome: Outcome, session: Session)

  /** Approve on a new reservation (a draft, given the fresh id `id`). */
  function Add(s: Session, name: string, count: Option<int>, id: nat): (r: Step)
    ensures r.outcome.Rejected? || r.outcome.Unchanged? ==> r.session == s
    ensures r.session == s.(occupied := r.session.occupied, reservations := r.session.reservations)
  {
    if name == "" && count.None? then Step(Unchanged, s)
    else if CheckInput(name, count).Some? then Step(Rejected(CheckInput(name, count).value), s)
    else
      var n := count.value;
      if !Admits(s, n) then Step(Rejected(CapacityExceeded), s)
      else match FirstMatch(s.reservations, name, None)
        case Some(j) =>
          var held := s.reservations[j];
          if held.count + n > MAX_TICKETS_PER_PERSON then Step(Rejected(PersonTicketLimit), s)
          else Step(Consolidated(held.id), s.(occupied := s.occupied + n,
                                              reservations := s.reservations[j := held.(count := held.count + n)]))
        case None =>
          Step(Created(id), s.(occupied := s.occupied + n,
                               reservations := s.reservations + [Reservation(id, name, n)]))
  }

  /** Approve on the stored reservation at position `k` after its fields were
      edited to `name` and `count`. */
  function Edit(s: Session, k: nat, name: string, count: Option<int>): (r: Step)
    requires k < |s.reservations|
    ensures r.outcome.Rejected? || r.outcome.Unchanged? ==> r.session == s
    ensures r.session == s.(occupied := r.session.occupied, reservations := r.session.reservations)
  {
    var prev := s.reservations[k];
    if name == prev.name && count == Some(prev.count) then Step(Unchanged, s)
    else if CheckInput(name, count).Some? then Step(Rejected(CheckInput(name, count).value), s)
    else
      var n := count.value;
      if !Admits(s, n - prev.count) then Step(Rejected(CapacityExceeded), s)
      else match FirstMatch(s.reservations, name, Some(prev.id))
        case Some(j) =>
          var held := s.reservations[j];
          if held.count + n > MAX_TICKETS_PER_PERSON then Step(Rejected(PersonTicketLimit), s)
          else Step(Consolidated(held.id), s.(occupied := s.occupied + n - prev.count,
                                              reservations := RemoveAt(s.reservations[j := held.(count := held.count + n)], k)))
        case None =>
          Step(Updated, s.(occupied := s.occupied + n - prev.count,
                           reservations := s.reservations[k := Reservation(prev.id, name, n)]))
  }

  /** Take the reservation at `k` out of the session with its tickets. */
  function Detach(s: Session, k: nat): Session
    requires k < |s.reservations|
  {
    s.(occupied := s.occupied - s.reservations[k].count, reservations := RemoveAt(s.reservations, k))
  }

  /** The delete handler. */
  function Remove(s: Session, k: nat): (r: Step)
    requires k < |s.reservations|
    ensures Tallied(s) ==> Tallied(r.session)
    ensures |r.session.reservations| == |s.reservations| - 1
    ensures r.session.occupied == s.occupied - s.reservations[k].count
    ensures r.session.reservations == RemoveAt(s.reservations, k)
    ensures r.session == s.(occupied := r.session.occupied, reservations := r.session.reservations)
  {
    SumRemoveAt(s.reservations, k);
    Step(Removed, Detach(s, k))
  }

  /** Topping up the reservation at `j` by `n` tickets. */
  lemma TopUpKeeps(rs: seq<Reservation>, j: nat, n: int)
    requires j < |rs|
    ensures var t := rs[j := rs[j].(count := rs[j].count + n)];
      && Sum(t) == Sum(rs) + n
      && IdSet(t) == IdSet(rs)
      && (UniqueIds(rs) ==> UniqueIds(t))
      && (UniqueNames(rs) ==> UniqueNames(t))
      && (CountsInRange(rs) && 0 <= n && rs[j].count + n <= MAX_TICKETS_PER_PERSON ==> CountsInRange(t))
  {
    var t := rs[j := rs[j].(count := rs[j].count + n)];
    SumUpdate(rs, j, t[j]);
    forall x | x in IdSet(rs) ensures x in IdSet(t) {
      var a :| 0 <= a < |rs| && rs[a].id == x;
      assert t[a].id == x;
    }
    forall x | x in IdSet(t) ensures x in IdSet(rs) {
      var a :| 0 <= a < |t| && t[a].id == x;
      assert rs[a].id == x;
    }
  }

  /** Replacing the reservation at `k` by one with the same id. */
  lemma RewriteKeeps(rs: seq<Reservation>, k: nat, r: Reservation)
    requires k < |rs| && r.id == rs[k].id
    ensures var t := rs[k := r];
      && Sum(t) == Sum(rs) - rs[k].count + r.count
      && IdSet(t) == IdSet(rs)
      && (UniqueIds(rs) ==> UniqueIds(t))
      && (UniqueNames(rs) && (forall a :: 0 <= a < |rs| && a != k ==> rs[a].name != r.name) ==> UniqueNames(t))
      && (CountsInRange(rs) && 1 <= r.count <= MAX_TICKETS_PER_PERSON ==> CountsInRange(t))
  {
    var t := rs[k := r];
    SumUpdate(rs, k, r);
    forall x | x in IdSet(rs) ensures x in IdSet(t) {
      var a :| 0 <= a < |rs| && rs[a].id == x;
      assert t[a].id == x;
    }
    forall x | x in IdSet(t) ensures x in IdSet(rs) {
      var a :| 0 <= a < |t| && t[a].id == x;
      assert rs[a].id == x;
    }
  }

  /** Dropping the reservation at `k` keeps ids distinct and drops only its id. */
  lemma DropKeepsIds(rs: seq<Reservation>, k: nat)
    requires k < |rs|
    ensures IdSet(RemoveAt(rs, k)) <= IdSet(rs)
    ensures UniqueIds(rs) ==> UniqueIds(RemoveAt(rs, k)) && IdSet(RemoveAt(rs, k)) == IdSet(rs) - {rs[k].id}
  {
    var t := RemoveAt(rs, k);
    forall x | x in IdSet(t) ensures x in IdSet(rs) {
      var a :| 0 <= a < |t| && t[a].id == x;
      if a < k { assert t[a] == rs[a]; } else { assert t[a] == rs[a + 1]; }
    }
    if UniqueIds(rs) {
      IdSetRemoveAt(rs, k);
    }
  }

  /** Dropping the reservation at `k` keeps names distinct and counts in range. */
  lemma DropKeepsRules(rs: seq<Reservation>, k: nat)
    requires k < |rs|
    ensures UniqueNames(rs) ==> UniqueNames(RemoveAt(rs, k))
    ensures CountsInRange(rs) ==> CountsInRange(RemoveAt(rs, k))
  {
    var t := RemoveAt(rs, k);
    if UniqueNames(rs) {
      forall a, b | 0 <= a < |t| && 0 <= b < |t| && a != b
        ensures t[a].name != t[b].name
      {
        var a' := if a < k then a else a + 1;
        var b' := if b < k then b else b + 1;
        assert t[a] == rs[a'] && t[b] == rs[b'];
      }
    }
  }

  /** Appending a reservation with a fresh id. */
  lemma AppendKeeps(rs: seq<Reservation>, r: Reservation)
    requires r.id !in IdSet(rs)
    ensures var t := rs + [r];
      && Sum(t) == Sum(rs) + r.count
      && IdSet(t) == IdSet(rs) + {r.id}
      && (UniqueIds(rs) ==> UniqueIds(t))
      && (UniqueNames(rs) && (forall a :: 0 <= a < |rs| ==> rs[a].name != r.name) ==> UniqueNames(t))
      && (CountsInRange(rs) && 1 <= r.count <= MAX_TICKETS_PER_PERSON ==> CountsInRange(t))
  {
    SumAppend(rs, r);
    forall a | 0 <= a < |rs| ensures rs[a].id != r.id {
      assert rs[a] in rs;
    }
  }

  /** Put reservation `r` at the end of the session's list with its tickets. */
  function Attach(s: Session, r: Reservation): Session {
    s.(occupied := s.occupied + r.count, reservations := s.reservations + [r])
  }

  /** Appending a reservation with a fresh id, room for it, a count in range
      and a name the session does not hold keeps the booking rules. */
  lemma AttachKeeps(s: Session, r: Reservation)
    requires r.id !in IdSet(s.reservations)
    ensures Tallied(s) ==> Tallied(Attach(s, r))
    ensures UniqueIds(s.reservations) ==> UniqueIds(Attach(s, r).reservations)
    ensures IdSet(Attach(s, r).reservations) == IdSet(s.reservations) + {r.id}
    ensures Booked(s) && Admits(s, r.count) && 1 <= r.count <= MAX_TICKETS_PER_PERSON &&
            (forall a :: 0 <= a < |s.reservations| ==> s.reservations[a].name != r.name) ==>
            Booked(Attach(s, r))
  {
    AppendKeeps(s.reservations, r);
  }

  /** Topping up the reservation at `j` by `n` tickets that fit, within the
      ceiling, keeps the booking rules and the ids. */
  lemma TopUpSessionKeeps(s: Session, j: nat, n: int)
    requires j < |s.reservations|
    ensures var t := s.(occupied := s.occupied + n,
                        reservations := s.reservations[j := s.reservations[j].(count := s.reservations[j].count + n)]);
      && (Tallied(s) ==> Tallied(t))
      && (UniqueIds(s.reservations) ==> UniqueIds(t.reservations))
      && IdSet(t.reservations) == IdSet(s.reservations)
      && (Booked(s) && Admits(s, n) && 0 <= n && s.reservations[j].count + n <= MAX_TICKETS_PER_PERSON ==> Booked(t))
  {
    TopUpKeeps(s.reservations, j, n);
  }

  /** Whatever Add does, it keeps the booking rules and introduces no id but
      the fresh one. */
  lemma AddKeepsBooked(s: Session, name: string, count: Option<int>, id: nat)
    requires id !in IdSet(s.reservations)
    ensures var t := Add(s, name, count, id).session;
      && (Tallied(s) ==> Tallied(t))
      && (UniqueIds(s.reservations) ==> UniqueIds(t.reservations))
      && IdSet(t.reservations) <= IdSet(s.reservations) + {id}
      && (Booked(s) ==> Booked(t))
  {
    var st := Add(s, name, count, id);
    if !st.outcome.Rejected? && !st.outcome.Unchanged? {
      var n := count.value;
      assert 1 <= n <= MAX_TICKETS_PER_PERSON && Admits(s, n);
      var rs := s.reservations;
      match FirstMatch(rs, name, None)
      case Some(j) =>
        assert rs[j].count + n <= MAX_TICKETS_PER_PERSON;
        assert st.session == s.(occupied := s.occupied + n, reservations := rs[j := rs[j].(count := rs[j].count + n)]);
        TopUpSessionKeeps(s, j, n);
      case None =>
        assert st.session == Attach(s, Reservation(id, name, n));
        assert forall a :: 0 <= a < |rs| ==> !IsMatch(rs[a], name, None);
        AttachKeeps(s, Reservation(id, name, n));
    } else {
      assert st.session == s;
    }
  }

  /** Whatever Edit does, it keeps the booking rules and introduces no new id. */
  lemma EditKeepsBooked(s: Session, k: nat, name: string, count: Option<int>)
    requires k < |s.reservations|
    ensures var t := Edit(s, k, name, count).session;
      && (Tallied(s) ==> Tallied(t))
      && (UniqueIds(s.reservations) ==> UniqueIds(t.reservations))
      && IdSet(t.reservations) <= IdSet(s.reservations)
      && (Booked(s) ==> Booked(t))
  {
    var st := Edit(s, k, name, count);
    var rs := s.reservations;
    var prev := rs[k];
    if st.outcome.Consolidated? {
      var n := count.value;
      var j := FirstMatch(rs, name, Some(prev.id)).value;
      var mid := rs[j := rs[j].(count := rs[j].count + n)];
      assert j != k && mid[k] == prev;
      assert st.session == s.(occupied := s.occupied + n - prev.count, reservations := RemoveAt(mid, k));
      assert Admits(s, n - prev.count) && rs[j].count + n <= MAX_TICKETS_PER_PERSON && 1 <= n;
      TopUpKeeps(rs, j, n);
      SumRemoveAt(mid, k);
      DropKeepsIds(mid, k);
      DropKeepsRules(mid, k);
    } else if st.outcome.Updated? {
      var n := count.value;
      var r := Reservation(prev.id, name, n);
      assert st.session == s.(occupied := s.occupied + n - prev.count, reservations := rs[k := r]);
      assert Admits(s, n - prev.count) && 1 <= n <= MAX_TICKETS_PER_PERSON;
      assert forall a :: 0 <= a < |rs| ==> !IsMatch(rs[a], name, Some(prev.id));
      RewriteKeeps(rs, k, r);
    }
  }

  /** Removal keeps the booking rules and only drops the removed id. */
  lemma RemoveKeepsBooked(s: Session, k: nat)
    requires k < |s.reservations|
    ensures UniqueIds(s.reservations) ==>
      UniqueIds(Remove(s, k).session.reservations) &&
      IdSet(Remove(s, k).session.reservations) == IdSet(s.reservations) - {s.reservations[k].id}
    ensures Booked(s) ==> Booked(Remove(s, k).session)
  {
    SumRemoveAt(s.reservations, k);
    DropKeepsIds(s.reservations, k);
    DropKeepsRules(s.reservations, k);
  }

  /** Consolidation: when a reservation under the requested name exists, an
      add within the ceiling tops that reservation up by the requested count, leaves
      every other reservation where and as it was, and raises occupancy by
      the count; the per-person ceiling refuses exactly the adds that would
      take it above 5. */
  lemma AddConsolidates(s: Session, name: string, n: int, id: nat, j: nat)
    requires Booked(s) && Filled(name) && 1 <= n <= MAX_TICKETS_PER_PERSON && Admits(s, n)
    requires j < |s.reservations| && s.reservations[j].name == name
    ensures var st := Add(s, name, Some(n), id);
      && (st.outcome == Rejected(PersonTicketLimit) <==> s.reservations[j].count + n > MAX_TICKETS_PER_PERSON)
      && (s.reservations[j].count + n <= MAX_TICKETS_PER_PERSON ==>
            && st.outcome == Consolidated(s.reservations[j].id)
            && |st.session.reservations| == |s.reservations|
            && st.session.reservations[j].count == s.reservations[j].count + n
            && st.session.reservations[j].name == name
            && st.session == s.(occupied := s.occupied + n,
                                reservations := s.reservations[j := s.reservations[j].(count := s.reservations[j].count + n)]))
  {
    var m := FirstMatch(s.reservations, name, None);
    assert m.Some? by { assert IsMatch(s.reservations[j], name, None); }
    assert m.value == j;
  }

  /** Capacity comes first: a well-formed request is refused on capacity
      exactly when the session has no room for the delta, whatever names are
      booked. */
  lemma CapacityCheckedFirst(s: Session, name: string, n: int, id: nat, k: nat)
    requires Filled(name) && 1 <= n <= MAX_TICKETS_PER_PERSON
    ensures Add(s, name, Some(n), id).outcome == Rejected(CapacityExceeded) <==> !Admits(s, n)
    ensures k < |s.reservations| && (name != s.reservations[k].name || n != s.reservations[k].count) ==>
            (Edit(s, k, name, Some(n)).outcome == Rejected(CapacityExceeded) <==>
             !Admits(s, n - s.reservations[k].count))
  {
  }

  /** An edit that does not raise the count is never refused on capacity in
      a session within capacity. */
  lemma EditReductionAdmitted(s: Session, k: nat, name: string, n: int)
    requires k < |s.reservations| && s.occupied <= s.capacity && n <= s.reservations[k].count
    ensures Edit(s, k, name, Some(n)).outcome != Rejected(CapacityExceeded)
  {
  }

  /** The input guards of an add, in their order: an untouched draft is
      ignored, then an empty name, an empty count and a count outside 1..5
      are refused, each leaving the session as it was. */
  lemma AddGuards(s: Session, name: string, count: Option<int>, id: nat)
    ensures Add(s, name, count, id).outcome == Unchanged <==> name == "" && count.None?
    ensures name == "" && count.Some? ==> Add(s, name, count, id) == Step(Rejected(MissingField(FullName)), s)
    ensures name != "" && count.None? ==> Add(s, name, count, id) == Step(Rejected(MissingField(TicketCount)), s)
    ensures name != "" && count.Some? && !(1 <= count.value <= MAX_TICKETS_PER_PERSON) ==>
            Add(s, name, count, id) == Step(Rejected(TicketCountOutOfRange), s)
  {
  }

  /** The input guards of an edit, in their order: an edit that keeps both
      stored values is a no-op, then an empty name, an empty count and a
      count outside 1..5 are refused, each leaving the session as it was. */
  lemma EditGuards(s: Session, k: nat, name: string, count: Option<int>)
    requires k < |s.reservations|
    ensures var prev := s.reservations[k];
      Edit(s, k, name, count).outcome == Unchanged <==> name == prev.name && count == Some(prev.count)
    ensures var prev := s.reservations[k];
      var st := Edit(s, k, name, count);
      (name != prev.name || count != Some(prev.count)) ==>
        && (name == "" ==> st == Step(Rejected(MissingField(FullName)), s))
        && (name != "" && count.None? ==> st == Step(Rejected(MissingField(TicketCount)), s))
        && (name != "" && count.Some? && !(1 <= count.value <= MAX_TICKETS_PER_PERSON) ==>
              st == Step(Rejected(TicketCountOutOfRange), s))
  {
  }

  /** Consolidating edit: when another stored reservation carries the new
      name, the edit is refused on the per-person ceiling exactly when the
      two counts exceed 5; otherwise that reservation is topped up by the new
      count, the edited one disappears with its id, the others keep their
      order, and occupancy moves by new minus old. */
  lemma EditConsolidates(s: Session, k: nat, name: string, n: int, j: nat)
    requires Booked(s) && Filled(name) && 1 <= n <= MAX_TICKETS_PER_PERSON
    requires k < |s.reservations| && j < |s.reservations| && j != k && s.reservations[j].name == name
    requires Admits(s, n - s.reservations[k].count)
    ensures var rs := s.reservations;
      var st := Edit(s, k, name, Some(n));
      && (st.outcome == Rejected(PersonTicketLimit) <==> rs[j].count + n > MAX_TICKETS_PER_PERSON)
      && (rs[j].count + n <= MAX_TICKETS_PER_PERSON ==>
            && st.outcome == Consolidated(rs[j].id)
            && |st.session.reservations| == |rs| - 1
            && st.session.reservations[if j < k then j else j - 1] == rs[j].(count := rs[j].count + n)
            && st.session.reservations == RemoveAt(rs[j := rs[j].(count := rs[j].count + n)], k)
            && rs[k].id !in IdSet(st.session.reservations)
            && st.session.occupied == s.occupied + n - rs[k].count)
  {
    var rs := s.reservations;
    var prev := rs[k];
    assert name != prev.name;
    var m := FirstMatch(rs, name, Some(prev.id));
    assert IsMatch(rs[j], name, Some(prev.id));
    assert m.Some? && m.value == j;
    var mid := rs[j := rs[j].(count := rs[j].count + n)];
    var st := Edit(s, k, name, Some(n));
    if rs[j].count + n <= MAX_TICKETS_PER_PERSON {
      assert st.session.reservations == RemoveAt(mid, k);
      TopUpKeeps(rs, j, n);
      IdSetRemoveAt(mid, k);
    }
  }

  /** In-place edit: when no other stored reservation carries the new name,
      the edited reservation keeps its id and position and takes the new
      name and count, and occupancy moves by new minus old. */
  lemma EditUpdates(s: Session, k: nat, name: string, n: int)
    requires Filled(name) && 1 <= n <= MAX_TICKETS_PER_PERSON && k < |s.reservations|
    requires name != s.reservations[k].name || n != s.reservations[k].count
    requires Admits(s, n - s.reservations[k].count)
    requires forall a :: 0 <= a < |s.reservations| && a != k ==> s.reservations[a].name != name
    ensures var prev := s.reservations[k];
      Edit(s, k, name, Some(n)) ==
      Step(Updated, s.(occupied := s.occupied + n - prev.count,
                       reservations := s.reservations[k := Reservation(prev.id, name, n)]))
  {
    assert FirstMatch(s.reservations, name, Some(s.reservations[k].id)).None?;
  }

  /** A fresh name is booked as a new reservation at the end of the list. */
  lemma AddCreates(s: Session, name: string, n: int, id: nat)
    requires Filled(name) && 1 <= n <= MAX_TICKETS_PER_PERSON && Admits(s, n)
    requires forall a :: 0 <= a < |s.reservations| ==> s.reservations[a].name != name
    ensures Add(s, name, Some(n), id) ==
      Step(Created(id), s.(occupied := s.occupied + n, reservations := s.reservations + [Reservation(id, name, n)]))
  {
  }

  /** Session S of capacity 50 with 48 taken refuses 3 tickets for Jane Doe
      and admits 2, reaching 50. */
  lemma CapacityExample()
    ensures var s := Session(1, "X", 600, 120, 1, 50, 48, [Reservation(1, "A", 5)]);
      && Add(s, "Jane Doe", Some(3), 2).outcome == Rejected(CapacityExceeded)
      && Add(s, "Jane Doe", Some(2), 2).outcome == Created(2)
      && Add(s, "Jane Doe", Some(2), 2).session.occupied == 50
  {
  }

  /** John Smith with 3 tickets plus 2 more is consolidated to 5; one more is
      then refused by the per-person ceiling. */
  lemma ConsolidationExample()
    ensures var s := Session(1, "X", 600, 120, 1, 50, 3, [Reservation(1, "John Smith", 3)]);
      var t := Add(s, "John Smith", Some(2), 2);
      && t.outcome == Consolidated(1)
      && t.session.reservations == [Reservation(1, "John Smith", 5)]
      && Add(t.session, "John Smith", Some(1), 3).outcome == Rejected(PersonTicketLimit)
  {
  }

  // ---- The approve handler as written ----

  /** Add as written: no range check on the count (the field's minimum is 0),
      and after the too-many-tickets alert the handler falls through and
      creates the reservation anyway. */
  function AddAsWritten(s: Session, name: string, count: Option<int>, id: nat): Step {
    if name == "" && count.None? then Step(Unchanged, s)
    else if !Filled(name) then Step(Rejected(MissingField(FullName)), s)
    else if count.None? then Step(Rejected(MissingField(TicketCount)), s)
    else
      var n := count.value;
      if !Admits(s, n) then Step(Rejected(CapacityExceeded), s)
      else
        var m := FirstMatch(s.reservations, name, None);
        if m.Some? && s.reservations[m.value].count + n <= MAX_TICKETS_PER_PERSON then
          var held := s.reservations[m.value];
          Step(Consolidated(held.id), s.(occupied := s.occupied + n,
                                         reservations := s.reservations[m.value := held.(count := held.count + n)]))
        else
          Step(Created(id), s.(occupied := s.occupied + n,
                               reservations := s.reservations + [Reservation(id, name, n)]))
  }

  /** Edit as written: no range check, fall-through after the ceiling alert,
      and on consolidation the occupancy grows by the new count without the
      removed reservation's old count being taken off. */
  function EditAsWritten(s: Session, k: nat, name: string, count: Option<int>): Step
    requires k < |s.reservations|
  {
    var prev := s.reservations[k];
    if name == prev.name && count == Some(prev.count) then Step(Unchanged, s)
    else if !Filled(name) then Step(Rejected(MissingField(FullName)), s)
    else if count.None? then Step(Rejected(MissingField(TicketCount)), s)
    else
      var n := count.value;
      if !Admits(s, n - prev.count) then Step(Rejected(CapacityExceeded), s)
      else
        var m := FirstMatch(s.reservations, name, Some(prev.id));
        if m.Some? && s.reservations[m.value].count + n <= MAX_TICKETS_PER_PERSON then
          var held := s.reservations[m.value];
          Step(Consolidated(held.id), s.(occupied := s.occupied + n,
                                         reservations := RemoveAt(s.reservations[m.value := held.(count := held.count + n)], k)))
        else
          Step(Updated, s.(occupied := s.occupied + n - prev.count,
                           reservations := s.reservations[k := Reservation(prev.id, name, n)]))
  }

  /** As written, every consolidating edit leaves the occupancy counter above
      the tickets actually booked by the edited reservation's old count. */
  lemma EditMergeOverCounts(s: Session, k: nat, name: string, n: int)
    requires k < |s.reservations| && Tallied(s)
    requires EditAsWritten(s, k, name, Some(n)).outcome.Consolidated?
    ensures var t := EditAsWritten(s, k, name, Some(n)).session;
      t.occupied == Sum(t.reservations) + s.reservations[k].count
  {
    var rs := s.reservations;
    var j := FirstMatch(rs, name, Some(rs[k].id)).value;
    var r := rs[j].(count := rs[j].count + n);
    assert j != k;
    SumUpdate(rs, j, r);
    SumRemoveAt(rs[j := r], k);
  }

  /** Bob's reservation (1 ticket) edited to Ann's name joins Ann's 2 tickets:
      as written the counter reads 4 for 3 booked tickets; corrected it reads 3. */
  lemma EditMergeDriftExample()
    ensures var s := Session(1, "X", 600, 120, 1, 10, 3, [Reservation(1, "Ann", 2), Reservation(2, "Bob", 1)]);
      && EditAsWritten(s, 1, "Ann", Some(1)).session.occupied == 4
      && Sum(EditAsWritten(s, 1, "Ann", Some(1)).session.reservations) == 3
      && Edit(s, 1, "Ann", Some(1)).session.occupied == 3
  {
    var s := Session(1, "X", 600, 120, 1, 10, 3, [Reservation(1, "Ann", 2), Reservation(2, "Bob", 1)]);
    assert EditAsWritten(s, 1, "Ann", Some(1)).session.reservations == [Reservation(1, "Ann", 3)];
  }

  /** John Smith holds 3; adding 3 more raises the ceiling alert, yet as
      written a second John Smith reservation is created; corrected, the add
      is refused. */
  lemma LimitFallThroughExample()
    ensures var s := Session(1, "X", 600, 120, 1, 50, 3, [Reservation(1, "John Smith", 3)]);
      var t := AddAsWritten(s, "John Smith", Some(3), 2).session;
      && t.reservations == [Reservation(1, "John Smith", 3), Reservation(2, "John Smith", 3)]
      && !UniqueNames(t.reservations)
      && Add(s, "John Smith", Some(3), 2) == Step(Rejected(PersonTicketLimit), s)
  {
    var s := Session(1, "X", 600, 120, 1, 50, 3, [Reservation(1, "John Smith", 3)]);
    var t := AddAsWritten(s, "John Smith", Some(3), 2).session;
    assert t.reservations[0].name == t.reservations[1].name;
  }

  /** A count of 0 passes the written guards and books an empty reservation;
      corrected, it is refused. */
  lemma ZeroTicketsExample()
    ensures var s := Session(1, "X", 600, 120, 1, 50, 0, []);
      && AddAsWritten(s, "Ann", Some(0), 1).session.reservations == [Reservation(1, "Ann", 0)]
      && Add(s, "Ann", Some(0), 1) == Step(Rejected(TicketCountOutOfRange), s)
  {
  }
}
