# Activity registration engine — a Dafny model

This project models the registration engine of an event-registration backend
(`src/database/activities.go`). Activities are talks or sessions with a limited
number of seats (`spots`) on a given `day`. Users sign up for an activity and
withdraw from it. A signup is refused when:

- the user is already registered for that activity;
- the activity does not exist;
- the user already holds an activity on the same day;
- no seat is left.

Both write operations run in one database transaction. They commit only when
every check passes.

The model has four modules:

- `Records` (`records.dfy`): the `Activity` row, the `Registration` row, the
  errors, and the storage calls a write operation makes (`Stage`).
- `Ordering` (`ordering.dfy`): the `ORDER BY day, time` ordering of a user's
  activities. Inserting into a sorted listing keeps it sorted. A listing whose
  days strictly increase is fixed by its rows.
- `Engine` (`engine.dfy`): the database contents as a value (`Db`). The
  signup and unregistration transactions are the functions `Signup` and
  `Unregister`. The invariants of the two tables are `Consistent` and
  `NonNegativeSpots`. The lemmas show what each transaction refuses, what it
  commits, that it keeps the invariants, and that the two undo each other.
- `Store` (`store.dfy`): the database handle as the class `ActivityStore`.
  Its fields are the `activities` table (a map from id to row) and the
  `registrations` table (a multiset of rows). It has one method or function
  per operation of `activities.go`.

  `SignupTransaction` and `UnregisterTransaction` run the checks step by step,
  with early returns. They work on the transaction's copy of the tables. The
  class methods assign that copy back to the fields only when the transaction
  succeeds, which is the commit. Every error therefore leaves the fields as
  they were, as Go's deferred `Rollback` does.

Each write operation takes a `fault: Option<Stage>` parameter. It names the
database call that fails, if any. This models the `if err != nil { return … }`
branches: a failing call makes the operation return `StorageError` and leaves
the tables unchanged. `None` means every call succeeds.

`registrations` is a multiset because a table is a bag of rows. "A
(user, activity) pair appears at most once" is therefore an invariant the
engine keeps (`Engine.UniquePairs`), not a property of the representation.
The ghost field `capacity` records each activity's seat count at creation.
The invariant `SeatsBalance` says that free seats plus registrations holding a
seat equal that capacity.

Where the description of the system and the code differ, the model follows
the code:

- A signup for an unknown activity id fails with `NotFound`. The code returns
  the driver's "no rows" error from the activity lookup
  (`src/database/activities.go:143-146`). The interface description lists no
  such error for signup.
- "`spots >= 0` at all times" is not enforced by `CreateActivity`, which
  stores whatever seat count it is given. The model keeps non-negativity as a
  separate predicate, `NonNegativeSpots`. Signup and unregistration preserve
  it, and `CreateActivity` keeps it exactly when the new row's seat count is
  non-negative.

## Model

| member | source | states |
|---|---|---|
| `Store.ActivityStore.SignupUserForActivity` | src/database/activities.go:120-192 | On success, the new tables are what `Signup` commits. On any error, `activities` and `registrations` are unchanged and the error is the one `Signup` reports. `Consistent` and the capacities are kept, and non-negative seat counts stay non-negative. |
| `Store.ActivityStore.UnregisterUserFromActivity` | src/database/activities.go:194-244 | On success, the new tables are what `Unregister` commits. On any error, both tables are unchanged. Invariants and capacities are kept. |
| `Store.SignupTransaction` | src/database/activities.go:127-189 | The step-by-step checks (duplicate, lookup, day conflict, seats), then insert and decrement. It succeeds exactly when `Signup` commits, with the same tables. Otherwise it reports the same error. |
| `Store.UnregisterTransaction` | src/database/activities.go:201-241 | The existence check, then delete and increment. It succeeds exactly when `Unregister` commits, with the same tables. Otherwise it reports the same error. |
| `Store.ActivityStore.CreateActivity` | src/database/activities.go:91-104 | On success, the row is stored under a positive id no activity had, with its own id field set to it. Registrations are unchanged. A storage failure returns 0 and `StorageError` and changes nothing. Invariants are kept. Seat counts stay non-negative exactly when the new row's is. |
| `Store.ActivityStore.GetActivity` | src/database/activities.go:62-89 | Fails with `NotFound` exactly when no activity has the id. Otherwise it returns the stored row, whose id is the one asked for. |
| `Store.ActivityStore.GetAllActivities` | src/database/activities.go:23-60 | Every stored activity appears, each one once, and every element is a stored row. |
| `Store.ActivityStore.GetUserActivities` | src/database/activities.go:246-276 | The result is sorted by `(day, time)`. As a multiset it is exactly the set of activities joined to the user's registrations, each once. |
| `Store.UserListingHasDistinctDays` | src/database/activities.go:246-253 | In a consistent database, a user's sorted listing has strictly increasing days, so no two rows tie on `(day, time)`. |
| `Store.UserListingDetermined` | src/database/activities.go:246-253 | In a consistent database, any two listings meeting `GetUserActivities`'s contract are equal. The result does not depend on the order rows are visited in. |
| `Ordering.InsertByDayTime` | src/database/activities.go:252 | Inserting a row into a listing sorted by `(day, time)` keeps it sorted and adds exactly that row. |
| `Ordering.TimeLeTotal` | src/database/activities.go:252 | Any two `time` texts are comparable. |
| `Ordering.TimeLeTransitive` | src/database/activities.go:252 | The `time` order is transitive. |
| `Ordering.TimeLeAntisymmetric` | src/database/activities.go:252 | Two `time` texts that are each no later than the other are equal. |
| `Ordering.DayOrderedListingUnique` | src/database/activities.go:252 | Two listings with strictly increasing days and the same rows are equal. |
| `Engine.SignupOutcomes` | src/database/activities.go:127-165 | With no storage failure, signup fails with `AlreadyRegistered`, `NotFound`, `DayConflict` or `NoSpots` exactly when that check is the first one to fail, in the source's order. It commits exactly when all four pass, and never reports `NotRegistered` or `StorageError`. |
| `Engine.SignupRejectsDuplicate` | src/database/activities.go:127-140 | A registered pair is refused with `AlreadyRegistered` (or a storage error), never with a day conflict or a lack of seats, so no second row is inserted. |
| `Engine.SignupCommitEffect` | src/database/activities.go:167-191 | A committed signup requires that the pair was absent and a seat was free. It adds exactly the row (user, id), lowers only that activity's `spots` by one, and keeps every other activity and the set of ids. |
| `Engine.SignupTwice` | src/database/activities.go:127-140 | A second signup of the same pair right after a committed one is refused with `AlreadyRegistered`. |
| `Engine.LastSeat` | src/database/activities.go:163-184 | On a one-seat activity, the first signup leaves 0 seats and the next user's signup fails with `NoSpots`. |
| `Engine.SignupConservesSeats` | src/database/activities.go:167-184 | For every activity, free seats plus registrations holding a seat are the same before and after a committed signup. |
| `Engine.SignupKeepsOnePerDay` | src/database/activities.go:148-161 | Because of the day-conflict check, a committed signup keeps the foreign key and keeps each user to one registration per day. |
| `Engine.SignupPreservesConsistency` | src/database/activities.go:120-192 | A committed signup keeps every invariant of the tables: rows keyed by id, foreign key, unique pairs, one registration per user per day, and seats balance. |
| `Engine.SignupKeepsSpotsNonNegative` | src/database/activities.go:163-184 | A committed signup keeps all seat counts non-negative. |
| `Engine.UnregisterOutcomes` | src/database/activities.go:201-215 | With no storage failure, unregistration fails with `NotRegistered` exactly when the pair is absent, and commits otherwise. |
| `Engine.UnregisterCommitEffect` | src/database/activities.go:217-243 | A committed unregistration had the pair registered. It removes exactly that pair's rows and raises only that activity's `spots` by one. Every other row is unchanged. |
| `Engine.UnregisterConservesSeats` | src/database/activities.go:217-236 | For every activity, free seats plus registrations holding a seat are the same before and after a committed unregistration. |
| `Engine.UnregisterPreservesConsistency` | src/database/activities.go:194-244 | A committed unregistration keeps every invariant of the tables. |
| `Engine.UnregisterKeepsSpotsNonNegative` | src/database/activities.go:227-236 | A committed unregistration keeps all seat counts non-negative. |
| `Engine.SignupThenUnregister` | src/database/activities.go:120-244 | Unregistering right after a committed signup restores the original database exactly. |
| `Engine.UnregisterThenSignup` | src/database/activities.go:120-244 | In a consistent database with non-negative seats, signing up right after a committed unregistration succeeds and restores the original database exactly. |
| `Engine.AddActivityPreservesConsistency` | src/database/activities.go:91-104 | Storing a new activity under an unused id keeps every invariant, with its seat count as its capacity. Seats stay non-negative exactly when the new row's are. |
| `Engine.SeatChangesHands` | src/database/activities.go:120-244 | On a one-seat activity: A signs up and takes the seat, B is refused with `NoSpots`, A withdraws and the seat is back, then B signs up and takes it. |
| `Engine.SameDayBlocked` | src/database/activities.go:148-161 | After signing up for one activity, signing up for a different activity on the same day fails with `DayConflict`. |

## Left out

- SQL text, the `lib/pq` driver, `rows.Scan` column mapping and row-iteration errors are replaced by direct reads and updates of the map and the multiset.
- Storage failures of the read operations (`GetAllActivities`, `GetActivity`, `GetUserActivities`) are not modelled. Such a read changes nothing and returns no data. The write operations model storage failures through `fault`.
- Concurrency is not modelled: transaction isolation, and two signups racing for the last seat. Each transaction runs alone, and atomicity is modelled as "an error leaves the tables unchanged". `Engine.LastSeat` states the sequential outcome that isolation is meant to ensure.
- `CreateActivity`'s id comes from a database sequence. The model only guarantees that the id is positive and was not in use before. It does not model which id the sequence produces.
- The `String()` formatter (`fmt.Sprintf`) and the wording of the error messages are not modelled. Errors are the constructors of `Records.Error`.
- `Ordering.TimeLe` compares `time` texts by code point. The database's collation for `ORDER BY a.time` is not modelled.
- The row Go returns alongside an error (a zero-valued `Activity`, or `0` from `CreateActivity`) is kept only for `CreateActivity`. `GetActivity` returns `NotFound` with no row.
- `src/main.go` (environment loading, database connection, file server, HTTP routing, TLS) and `src/loadTests.js` (a load test) are not part of this model.
