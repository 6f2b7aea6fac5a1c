// Same-hall scheduling: the conflict window between two screenings and the
// scan over the sessions of a hall (approve_datetime in src/index.ts).

module Schedule {
  import opened Types

  /** The technical pause required between two screenings in one hall, in minutes. */
  const PAUSE_MINUTES: int := 15

  /** A duration as the two numbers of an "HH:MM" time field split on ':'. */
  datatype Duration = Duration(hours: nat, minutes: nat) {
    function Minutes(): nat { 60 * hours + minutes }
  }

  /** A screening's time span in minutes. */
  datatype Window = Window(start: int, length: int)

  function End(w: Window): int { w.start + w.length }

  function WindowOf(s: Session): Window { Window(s.start, s.length) }

  /** Time from the end of the earlier-starting screening to the start of the
      other one; negative when they overlap. */
  function Gap(a: Window, b: Window): int {
    if a.start <= b.start then b.start - End(a) else a.start - End(b)
  }

  /** The intended rule: a proposal clashes with an existing screening when it
      starts strictly inside the existing window widened by the pause on the
      left by the proposal's own length and on the right by the pause. */
  predicate Conflicts(existing: Window, proposal: Window) {
    existing.start - PAUSE_MINUTES - proposal.length < proposal.start < End(existing) + PAUSE_MINUTES
  }

  /** The comparison as written in approve_datetime: both ends inclusive, so a
      gap of exactly PAUSE_MINUTES is refused. */
  predicate ConflictsAsWritten(existing: Window, proposal: Window) {
    existing.start - PAUSE_MINUTES - proposal.length <= proposal.start <= End(existing) + PAUSE_MINUTES
  }

  lemma ConflictsSymmetric(a: Window, b: Window)
    ensures Conflicts(a, b) <==> Conflicts(b, a)
    ensures ConflictsAsWritten(a, b) <==> ConflictsAsWritten(b, a)
  {
  }

  /** Two screenings of non-negative length clash exactly when the gap between
      them is shorter than the pause. */
  lemma ConflictIffShortGap(a: Window, b: Window)
    requires a.length >= 0 && b.length >= 0
    ensures Conflicts(a, b) <==> Gap(a, b) < PAUSE_MINUTES
  {
  }

  /** The written comparison refuses what the intended one refuses, and in
      addition exactly the gaps of PAUSE_MINUTES. */
  lemma AsWrittenRefusesExactPause(a: Window, b: Window)
    requires a.length >= 0 && b.length >= 0
    ensures ConflictsAsWritten(a, b) <==> Conflicts(a, b) || Gap(a, b) == PAUSE_MINUTES
  {
  }

  /** Existing screening 10:00 for 2:00, proposal of 1:00: 12:10 is refused,
      12:20 admitted, and 12:15 (a gap of exactly 15 minutes) is refused only
      as written. */
  lemma PauseExample()
    ensures Conflicts(Window(600, 120), Window(730, 60))
    ensures !Conflicts(Window(600, 120), Window(740, 60))
    ensures ConflictsAsWritten(Window(600, 120), Window(735, 60))
    ensures !Conflicts(Window(600, 120), Window(735, 60))
  {
  }

  /** Whether a stored session takes part in the scan: same hall, and not the
      session being edited. */
  predicate InScan(s: Session, hall: nat, exclude: Option<nat>) {
    s.hall == hall && exclude != Some(s.id)
  }

  /** The placement is admitted when no scanned session clashes with it. */
  predicate HallFree(ss: seq<Session>, hall: nat, w: Window, exclude: Option<nat>) {
    forall j :: 0 <= j < |ss| && InScan(ss[j], hall, exclude) ==> !Conflicts(WindowOf(ss[j]), w)
  }

  /** The scan as written: every session whose stored hall is `hall` takes
      part, and for the session being edited the fields read are the edit
      form's, which hold the proposal itself. */
  predicate HallFreeAsWritten(ss: seq<Session>, hall: nat, w: Window, editing: Option<nat>) {
    forall j :: 0 <= j < |ss| && ss[j].hall == hall ==>
      !ConflictsAsWritten(if editing == Some(ss[j].id) then w else WindowOf(ss[j]), w)
  }

  /** approve_datetime: walks the sessions, records for each one of the hall
      whether it clashes with the proposal, and admits when none did. */
  method ApproveDatetime(ss: seq<Session>, start: int, d: Duration, hall: nat, exclude: Option<nat>)
    returns (free: bool)
    ensures free == HallFree(ss, hall, Window(start, d.Minutes()), exclude)
  {
    var proposal := Window(start, d.Minutes());
    var clash := false;
    var i := 0;
    while i < |ss|
      invariant 0 <= i <= |ss|
      invariant clash <==> exists j :: 0 <= j < i && InScan(ss[j], hall, exclude) && Conflicts(WindowOf(ss[j]), proposal)
    {
      if InScan(ss[i], hall, exclude) {
        var existing := ss[i];
        var low := existing.start - PAUSE_MINUTES - d.hours * 60 - d.minutes;
        var high := low + existing.length + d.hours * 60 + d.minutes + 2 * PAUSE_MINUTES;
        clash := clash || (low < start < high);
      }
      i := i + 1;
    }
    free := !clash;
  }

  /** The scan's verdict depends only on which sessions of the hall are
      stored, not on their order nor on the sessions of other halls. */
  lemma {:induction false} ScanSeesOnlyTheHall(ss: seq<Session>, tt: seq<Session>, hall: nat, w: Window, exclude: Option<nat>)
    requires forall s: Session :: s.hall == hall ==> (s in ss <==> s in tt)
    ensures HallFree(ss, hall, w, exclude) <==> HallFree(tt, hall, w, exclude)
  {
    if HallFree(ss, hall, w, exclude) {
      forall j | 0 <= j < |tt| && InScan(tt[j], hall, exclude)
        ensures !Conflicts(WindowOf(tt[j]), w)
      {
        assert tt[j] in tt;
        var i :| 0 <= i < |ss| && ss[i] == tt[j];
      }
    }
    if HallFree(tt, hall, w, exclude) {
      forall i | 0 <= i < |ss| && InScan(ss[i], hall, exclude)
        ensures !Conflicts(WindowOf(ss[i]), w)
      {
        assert ss[i] in ss;
        var j :| 0 <= j < |tt| && tt[j] == ss[i];
      }
    }
  }

  /** Reordering the stored sessions does not change the verdict. */
  lemma ScanIgnoresOrder(ss: seq<Session>, tt: seq<Session>, hall: nat, w: Window, exclude: Option<nat>)
    requires multiset(ss) == multiset(tt)
    ensures HallFree(ss, hall, w, exclude) <==> HallFree(tt, hall, w, exclude)
  {
    forall s: Session | s.hall == hall
      ensures s in ss <==> s in tt
    {
      assert s in ss <==> s in multiset(ss);
      assert s in tt <==> s in multiset(tt);
    }
    ScanSeesOnlyTheHall(ss, tt, hall, w, exclude);
  }

  /** A hall with no other screening admits every placement. */
  lemma EmptyHallAdmits(ss: seq<Session>, hall: nat, w: Window, exclude: Option<nat>)
    requires forall j :: 0 <= j < |ss| ==> !InScan(ss[j], hall, exclude)
    ensures HallFree(ss, hall, w, exclude)
  {
  }

  /** As written, an edit that keeps the session in its hall is always refused:
      the session is compared with its own proposed window. */
  lemma EditInSameHallRefusedAsWritten(ss: seq<Session>, i: nat, w: Window)
    requires i < |ss| && w.length >= 0
    ensures !HallFreeAsWritten(ss, ss[i].hall, w, Some(ss[i].id))
  {
    assert ConflictsAsWritten(w, w);
  }

  /** Whatever the written scan admits for a new session, the intended scan
      admits too. */
  lemma AsWrittenScanStricter(ss: seq<Session>, hall: nat, w: Window)
    requires HallFreeAsWritten(ss, hall, w, None)
    ensures HallFree(ss, hall, w, None)
  {
    forall j | 0 <= j < |ss| && InScan(ss[j], hall, None)
      ensures !Conflicts(WindowOf(ss[j]), w)
    {
      assert !ConflictsAsWritten(WindowOf(ss[j]), w);
    }
  }

  /** Every two sessions sharing a hall are at least the pause apart. */
  predicate Separated(ss: seq<Session>) {
    forall i, j :: 0 <= i < |ss| && 0 <= j < |ss| && i != j && ss[i].hall == ss[j].hall ==>
      !Conflicts(WindowOf(ss[i]), WindowOf(ss[j]))
  }

  /** A new session admitted by the scan keeps the hall schedule separated. */
  lemma {:induction false} AppendKeepsSeparated(ss: seq<Session>, s: Session)
    requires Separated(ss)
    requires HallFree(ss, s.hall, WindowOf(s), None)
    ensures Separated(ss + [s])
  {
    var tt := ss + [s];
    forall i, j | 0 <= i < |tt| && 0 <= j < |tt| && i != j && tt[i].hall == tt[j].hall
      ensures !Conflicts(WindowOf(tt[i]), WindowOf(tt[j]))
    {
      if i == |ss| {
        assert InScan(ss[j], s.hall, None);
        ConflictsSymmetric(WindowOf(ss[j]), WindowOf(s));
      } else if j == |ss| {
        assert InScan(ss[i], s.hall, None);
      }
    }
  }

  /** An edited session admitted by the scan that leaves it out keeps the
      hall schedule separated, provided session ids are distinct. */
  lemma {:induction false} ReplaceKeepsSeparated(ss: seq<Session>, k: nat, s: Session)
    requires k < |ss| && Separated(ss)
    requires forall i, j :: 0 <= i < |ss| && 0 <= j < |ss| && i != j ==> ss[i].id != ss[j].id
    requires s.id == ss[k].id
    requires HallFree(ss, s.hall, WindowOf(s), Some(s.id))
    ensures Separated(ss[k := s])
  {
    var tt := ss[k := s];
    forall i, j | 0 <= i < |tt| && 0 <= j < |tt| && i != j && tt[i].hall == tt[j].hall
      ensures !Conflicts(WindowOf(tt[i]), WindowOf(tt[j]))
    {
      if i == k {
        assert InScan(ss[j], s.hall, Some(s.id));
        ConflictsSymmetric(WindowOf(ss[j]), WindowOf(s));
      } else if j == k {
        assert InScan(ss[i], s.hall, Some(s.id));
      }
    }
  }
}
