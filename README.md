# Cinema booking client: the booking-consistency rules

This project models the booking rules of the cinema reservation client
(`src/index.ts`). The client shows a list of screening sessions. Each session
has a film, a start time, a duration, a hall, the hall's seating capacity and
an occupancy counter, plus an ordered list of reservations (id, full name,
ticket count). The event handlers of the page admit or refuse every change:

- adding and editing reservations, with same-name consolidation and a
  ceiling of 5 tickets per person;
- deleting reservations;
- creating, editing and deleting sessions, with the 15-minute pause between
  screenings in one hall;
- moving a reservation to another session by drag and drop.

The modules follow that structure:

- `types.dfy` (`Types`): sessions, reservations, the outcome of an
  operation, and the result of an operation on the session list. Every alert of the client becomes a `Rejected(reason)` outcome
  that leaves the state as it was.
- `schedule.dfy` (`Schedule`): the conflict window and the scan over a hall's
  sessions (`approve_datetime`).
- `reservations.dfy` (`Reservations`): capacity admission (`validate_count`),
  the input guards, and the approve and delete handlers of a reservation, as
  functions on one session.
- `transfer.dfy` (`Transfer`): the drop handler, as a function on the list
  of sessions.
- `sessions.dfy` (`Sessions`): session create, edit, delete and load, as
  functions on the list. It also states the invariants the list keeps under
  every operation.
- `cinema.dfy` (`Client`): the class `Cinema`. It holds the session list as
  a field that every handler updates step by step. Each method is proved to
  leave exactly the state its function above describes, and to keep the
  invariants.

Times are integer minutes. A duration is the pair of numbers of an "HH:MM"
field, worth 60·h + m minutes. Ids are natural numbers supplied by the caller.

The invariants are:

- `WellFormed`, kept by every operation including loading: every counter
  equals the sum of its session's ticket counts; reservation ids are unique
  within and across sessions; session ids are distinct; every session
  carries its hall's capacity.
- `Consistent`: `WellFormed`, and in addition every session is within
  capacity, holds at most one reservation per full name, and has counts of
  1 to 5, which gives a per-person total of at most 5. Sessions sharing a
  hall are at least the pause apart.

The model follows the intended rules. Five places where the code as written
departs from them are modelled both ways (see "## Findings").

## Model

| member | source | states |
|---|---|---|
| `Schedule.ConflictIffShortGap` | src/index.ts:746-755 | Two screenings of non-negative length clash exactly when the gap between the end of the earlier one and the start of the other is under 15 minutes |
| `Schedule.ConflictsSymmetric` | src/index.ts:746-755 | The clash test gives the same answer with the existing screening and the proposal swapped, both as intended and as written |
| `Schedule.AsWrittenRefusesExactPause` | src/index.ts:746-755 | The inclusive comparison as written refuses what the intended rule refuses, plus exactly the gaps of 15 minutes |
| `Schedule.PauseExample` | src/index.ts:746-755 | Existing 10:00 for 2:00, proposal of 1:00: 12:10 is refused, 12:20 is admitted, and 12:15 is refused only as written |
| `Schedule.ApproveDatetime` | src/index.ts:738-758 | The loop over the sessions returns true exactly when no session of the proposed hall (other than the one being edited) clashes with the proposal |
| `Schedule.ScanSeesOnlyTheHall` | src/index.ts:744-757 | The verdict depends only on which sessions of the proposed hall are stored; sessions of other halls do not matter |
| `Schedule.ScanIgnoresOrder` | src/index.ts:744-757 | Reordering the session list does not change the verdict |
| `Schedule.EmptyHallAdmits` | src/index.ts:744-757 | A hall with no other session admits every placement |
| `Schedule.EditInSameHallRefusedAsWritten` | src/index.ts:744-755 | As written, an edit that keeps a session in its hall is always refused: the session is compared with its own proposed time |
| `Schedule.AsWrittenScanStricter` | src/index.ts:744-757 | Whatever the written scan admits for a new session, the intended scan admits too |
| `Schedule.AppendKeepsSeparated` | src/index.ts:816-837 | Adding a session the scan admits keeps every two sessions of a hall at least the pause apart |
| `Schedule.ReplaceKeepsSeparated` | src/index.ts:523-548 | Moving a session to a time and hall admitted by the scan that leaves it out keeps every hall separated |
| `Reservations.FirstMatch` | src/index.ts:319-324 | The match is the first stored reservation with the requested full name that is not the one being edited; with no match, no stored reservation qualifies |
| `Reservations.FindMatch` | src/index.ts:321-324 | The filter over the reservation items returns exactly the first match |
| `Reservations.PerPersonCeiling` | src/index.ts:324-328 | With distinct names and counts of at most 5, nobody holds more than 5 tickets in a session |
| `Reservations.Add` | src/index.ts:300-416 | A rejected or untouched add leaves the session as it was; any add changes only the occupancy and the reservations |
| `Reservations.Edit` | src/index.ts:300-385 | A rejected edit, or one that changes nothing, leaves the session as it was; any edit changes only the occupancy and the reservations |
| `Reservations.Remove` | src/index.ts:278-295 | Deleting drops exactly the reservation at its position, the others keeping their names, counts and order, and lowers occupancy by its count, keeping occupancy equal to the sum of the counts |
| `Reservations.AddKeepsBooked` | src/index.ts:386-415 | Whatever an add does, occupancy stays the sum of the counts and within capacity, names stay distinct, counts stay in 1..5, and the only new id is the fresh one |
| `Reservations.EditKeepsBooked` | src/index.ts:348-385 | Whatever an edit does (no-op, update in place, or merge into another reservation), the same rules hold and no id is added |
| `Reservations.RemoveKeepsBooked` | src/index.ts:278-295 | Deleting keeps the booking rules and drops only the removed id |
| `Reservations.AddConsolidates` | src/index.ts:319-342 | When a reservation under the name exists, the add is refused on the per-person ceiling exactly when the two counts exceed 5; when they do not, the add is consolidated: the existing reservation is topped up by the count, every other reservation stays where and as it was, and occupancy rises by the count |
| `Reservations.AddCreates` | src/index.ts:395-408 | A fresh name within capacity is booked as a new reservation at the end of the list, and occupancy grows by its count |
| `Reservations.CapacityCheckedFirst` | src/index.ts:348-391 | A well-formed add, or a well-formed edit that changes a value, is refused on capacity exactly when the session has no room for its delta, whatever names are booked |
| `Reservations.EditReductionAdmitted` | src/index.ts:192-194 | In a session within capacity, an edit that does not raise the ticket count is never refused on capacity |
| `Reservations.AddGuards` | src/index.ts:300-316 | An add with both fields empty is ignored, and only then; otherwise an empty name, then an empty count, then a count outside 1..5 is refused in that order, leaving the session as it was |
| `Reservations.EditGuards` | src/index.ts:300-316 | An edit is a no-op exactly when it keeps both stored values; otherwise an empty name, then an empty count, then a count outside 1..5 is refused in that order, leaving the session as it was |
| `Reservations.EditConsolidates` | src/index.ts:319-368 | When another reservation carries the new name, the edit is refused on the ceiling exactly when the two counts exceed 5; when they do not, the edit is consolidated: that reservation is topped up by the new count, the edited one disappears with its id, the others keep their order, and occupancy moves by new minus old |
| `Reservations.EditUpdates` | src/index.ts:348-385 | When no other reservation carries the new name, the edited reservation keeps its id and position and takes the new name and count, and occupancy moves by new minus old |
| `Reservations.CapacityExample` | src/index.ts:192-194 | Capacity 50 with 48 taken: 3 tickets are refused, 2 are admitted and fill the session |
| `Reservations.ConsolidationExample` | src/index.ts:324-340 | John Smith's 3 tickets plus 2 become one reservation of 5; one more ticket is refused by the ceiling |
| `Reservations.EditMergeOverCounts` | src/index.ts:338-368 | As written, every merging edit leaves the counter above the tickets booked, by the edited reservation's old count |
| `Reservations.EditMergeDriftExample` | src/index.ts:357-368 | Bob's 1 ticket edited to Ann's name: as written the counter reads 4 for 3 tickets; corrected it reads 3 |
| `Reservations.LimitFallThroughExample` | src/index.ts:324-328 | As written, 3 + 3 tickets for John Smith creates a second John Smith reservation; corrected, the add is refused |
| `Reservations.ZeroTicketsExample` | src/index.ts:243 | As written, 0 tickets pass the guards and book an empty reservation; corrected, they are refused |
| `Transfer.Drop` | src/index.ts:889-931 | A refused drop changes nothing; any drop keeps every session's id, film, time, hall and capacity |
| `Transfer.DropAdmission` | src/index.ts:889-901 | A drop is refused for a different film exactly when the films differ, refused on capacity exactly when the films match and the destination has no room for the tickets, and carried out exactly when both hold |
| `Transfer.TransferKeepsTotal` | src/index.ts:930-931 | A drop neither creates nor loses tickets: total occupancy over all sessions is unchanged |
| `Transfer.TransferMoves` | src/index.ts:889-931 | An admitted drop requires the same film and room for the tickets; the reservation, unchanged, ends the destination's list; between two sessions the source loses it and its count, its other reservations keeping their order, and the destination gains both; a drop on its own session moves the reservation to the end of that list; other sessions are untouched |
| `Reservations.AttachKeeps` | src/index.ts:925-931 | Appending a reservation with a fresh id keeps the counter equal to the tickets and the ids unique, and keeps the booking rules when it fits and its name is new there |
| `Transfer.TransferKeepsAccounted` | src/index.ts:909-931 | A drop keeps every counter equal to its tickets and reservation ids unique within and across sessions |
| `Transfer.TransferKeepsBooked` | src/index.ts:896-931 | A drop keeps every session within capacity with counts in range; names stay distinct when the destination does not hold the moved name |
| `Sessions.Create` | src/index.ts:799-837 | A refused create leaves the list as it was |
| `Sessions.CreateAdmission` | src/index.ts:816-837 | A complete create is scheduled exactly when the hall is free for it; the new session ends the list with the given id, film, start, duration and hall, its hall's capacity, occupancy 0 and no reservations |
| `Sessions.CreateGuards` | src/index.ts:799-814 | A create missing a field is refused on the first missing one in the order film, date and time, duration, hall, and the list stays as it was |
| `Sessions.CreateKeepsConsistent` | src/index.ts:799-837 | Creating a session with a new id keeps the list well formed and consistent |
| `Sessions.Reschedule` | src/index.ts:501-555 | A refused or unedited session edit leaves the list as it was, and no edit changes the number of sessions |
| `Sessions.RescheduleAdmission` | src/index.ts:517-548 | A complete edit is refused on the hall exactly when occupancy exceeds the new hall's capacity; it is admitted exactly when the occupancy fits and the hall is free of the other sessions; one that fits but clashes is refused on the schedule and changes nothing; an admitted edit rewrites film, start, duration, hall and capacity of that session alone, keeping its id, counter and reservations and every other session |
| `Sessions.RescheduleGuards` | src/index.ts:501-515 | A session edit is a no-op exactly when the card was not edited; otherwise the first missing field in the order film, date and time, duration, hall is refused, and the list stays as it was |
| `Sessions.RescheduleKeepsConsistent` | src/index.ts:501-555 | Editing a session keeps the list well formed and consistent |
| `Sessions.OwnPlacementAdmitted` | src/index.ts:523-527 | In a separated schedule, re-approving a session's own hall and time is admitted once the session is left out of its own scan |
| `Sessions.Delete` | src/index.ts:720-724 | Deleting a session removes exactly that session; the others keep their order |
| `Sessions.DeleteKeepsConsistent` | src/index.ts:720-724 | Deleting a session keeps the list well formed and consistent |
| `Sessions.LoadKeepsConsistent` | src/index.ts:179-190 | Loading a session with a new id and unused reservation ids keeps the list well formed; it keeps it consistent when the session follows the booking rules and fits the schedule |
| `Sessions.AddKeepsConsistent` | src/index.ts:386-415 | Adding a reservation with a fresh id keeps the whole list well formed and consistent |
| `Sessions.EditKeepsConsistent` | src/index.ts:348-385 | Editing a reservation keeps the whole list well formed and consistent |
| `Sessions.RemoveKeepsConsistent` | src/index.ts:278-295 | Deleting a reservation keeps the whole list well formed and consistent |
| `Sessions.TransferKeepsConsistent` | src/index.ts:873-934 | A drop keeps the list well formed; it keeps it consistent when the destination lacks the moved name or is the source |
| `Client.Cinema.constructor` | src/index.ts:961-966 | The page starts with no session, before the stored ones are loaded one by one; the empty list is consistent |
| `Client.Cinema.LoadSession` | src/index.ts:179-190 | The card starts at 0; each stored reservation is appended and adds its count; the card then joins the list with its hall's capacity |
| `Client.Cinema.CreateSession` | src/index.ts:799-840 | The handler's checks and update give exactly the outcome and list of `Sessions.Create`, and keep the invariants |
| `Client.Cinema.EditSession` | src/index.ts:501-555 | The handler gives exactly the outcome and list of `Sessions.Reschedule`, and keeps the invariants |
| `Client.Cinema.DeleteSession` | src/index.ts:720-724 | The list becomes `Sessions.Delete` of the old list, and the invariants are kept |
| `Client.Cinema.AddReservation` | src/index.ts:300-416 | The handler gives exactly the outcome and session of `Reservations.Add`, changes no other session, and keeps the invariants |
| `Client.Cinema.EditReservation` | src/index.ts:300-385 | The handler gives exactly the outcome and session of `Reservations.Edit`, changes no other session, and keeps the invariants |
| `Client.Cinema.RemoveReservation` | src/index.ts:278-295 | The handler gives exactly the session of `Reservations.Remove`, changes no other session, and keeps the invariants |
| `Client.Cinema.TransferReservation` | src/index.ts:873-934 | The handler gives exactly the outcome and list of `Transfer.Drop`; it keeps the list well formed, and consistent when the destination lacks the moved name |

## Left out

- Page rendering, the modal, the placeholder elements and the drag-and-drop
  event wiring are left out. They are user interface.
- Every call to the server (`api_fetch`) and the async sequencing are left
  out. Each handler is one atomic state change. The drop handler's two server
  calls (remove, then add) are one step here.
- `src/main.ts` is not part of this model: the HTTP routes, the database
  client and its transactions.
- Date parsing and the "at least tomorrow" minimum of the date fields depend
  on the clock. Times are integer minutes.
- `crypto.randomUUID` is not modelled. New ids are parameters, and their
  freshness is a precondition.
- Parsing of text fields is not modelled. An empty field becomes `None`.
  Ticket counts are integers, and fractional or non-numeric input is not
  covered. "HH:MM" is given as its two numbers.
- `approve_datetime` reads the date and duration inputs of every session
  card of the hall (src/index.ts:746-748), not the saved values. Any other
  card left in edit mode with unsaved changes therefore feeds its unsaved date
  and duration into the scan. The model scans the saved values of the other
  sessions. For the session being approved itself the inputs hold the
  proposal; that case is recorded as a finding.
- Early returns on a drop without data or on a destination without an id are
  left out. The model's indices always name existing sessions.
- The delete handler reads the count from the count input, but its button is
  hidden in edit mode (src/index.ts:270), so the input holds the stored count
  there. The drop handler also reads the count input (src/index.ts:897), and
  a card stays draggable in edit mode (src/index.ts:938). A card dropped while
  its count is being edited moves its unsaved count into the destination's
  counter and capacity check. The model moves the stored count.
- After a session edit is cancelled, the film text shows the cancelled input
  (src/index.ts:568-572), and the card stays marked as edited. The drop
  handler's film check (src/index.ts:889-890) compares those texts, so it can
  compare a film name that was never saved. The model compares the saved
  films.
- Deleting a session removes its reservations with it. The server's cascade
  delete of the reservation rows is not modelled.
- Hall capacities come from the hall table, which nothing here changes. They
  are a constant map.
- Transfer.TransferKeepsBooked: the drop handler does not merge with a
  reservation of the same name at the destination. Distinct names per
  session are therefore promised only when the destination lacks the moved
  name, or when the drop lands on the reservation's own session.
- Client.Cinema.TransferReservation: for the same reason, `Consistent` is
  promised only under that condition. `Valid` is promised always.
- Client.Cinema.LoadSession: loading checks nothing, so stored data that
  breaks the booking rules stays broken. `Consistent` is promised only when
  the loaded session follows the rules and fits the schedule.

## Findings

| source | as written | input that shows it | evidently intended | confidence | as-written member | corrected member |
|---|---|---|---|---|---|---|
| src/index.ts:746-755 | Both ends of the conflict window are inclusive, so a gap of exactly 15 minutes counts as a clash | Existing 10:00 for 2:00 and a proposal at 12:15 in the same hall is refused | A pause of 15 minutes is enough | not executed | `Schedule.ConflictsAsWritten`, `Schedule.AsWrittenRefusesExactPause`, `Schedule.PauseExample` | `Schedule.Conflicts`, `Schedule.ConflictIffShortGap` |
| src/index.ts:523-527 | The schedule check of a session edit does not leave the edited session out, and reads that session's edit-form values, which hold the proposal | Editing only the film name of any session keeps its hall and is refused with the pause alert | The edited session is not compared with itself | not executed | `Schedule.HallFreeAsWritten`, `Schedule.EditInSameHallRefusedAsWritten` | `Schedule.HallFree` (with `exclude`), `Sessions.OwnPlacementAdmitted`, `Sessions.RescheduleKeepsConsistent` |
| src/index.ts:324-328 | After the too-many-tickets alert the matcher returns nothing, and the caller goes on to create (line 393) or rename in place (line 357) | John Smith holds 3; adding 3 more for John Smith creates a second John Smith reservation of 3 | The request is refused and nothing changes | not executed | `Reservations.AddAsWritten`, `Reservations.EditAsWritten`, `Reservations.LimitFallThroughExample` | `Reservations.Add`, `Reservations.Edit`, `Reservations.AddConsolidates`, `Reservations.AddKeepsBooked` |
| src/index.ts:338-368 | When an edited reservation merges into another, occupancy grows by the new count, but the removed reservation's old count is never subtracted | Ann 2 and Bob 1 (counter 3); Bob edited to "Ann" with 1 gives one reservation of 3 but a counter of 4 | Occupancy stays the sum of the counts | not executed | `Reservations.EditAsWritten`, `Reservations.EditMergeOverCounts`, `Reservations.EditMergeDriftExample` | `Reservations.Edit`, `Reservations.EditKeepsBooked` |
| src/index.ts:243 | The count field allows 0, and the guards check only that it is non-empty | Approving "Ann" with 0 tickets books a reservation of 0 tickets | Every reservation holds 1 to 5 tickets | not executed | `Reservations.AddAsWritten`, `Reservations.ZeroTicketsExample` | `Reservations.CheckInput`, `Reservations.Add`, `Reservations.AddKeepsBooked` |
