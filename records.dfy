/** The two tables of the registration database, the errors the registration
    engine reports, and the points at which a storage call can fail. */
module Records {

  datatype Option<+T> = None | Some(value: T)

  datatype Result<+T, +E> = Success(value: T) | Failure(error: E)

  /** One row of the `activities` table. `spots` is the number of seats still
      free; `day` is the day of the event the activity takes place on; `time`
      is kept as the text the table stores. */
  datatype Activity = Activity(
    id: int,
    spots: int,
    activityType: string,
    room: string,
    speaker: string,
    topic: string,
    description: string,
    time: string,
    day: int)

  /** One row of the `registrations` table: a user (an opaque identifier such
      as a UUID) holding a seat in an activity. */
  datatype Registration = Registration(user: string, activityId: int)

  /** The failures the operations report. The first five are business-rule
      failures; `StorageError` stands for any failing call into the database. */
  datatype Error =
    | AlreadyRegistered   // the (user, activity) pair is already present
    | NotFound            // no activity has the requested id
    | DayConflict         // the user already holds an activity on that day
    | NoSpots             // the activity has no free seat
    | NotRegistered       // unregistering a pair that is not present
    | StorageError        // the database call itself failed

  /** The storage calls a write operation makes, in the order it makes them.
      A write operation takes an optional `Stage` naming the call that fails
      (the failure the driver would report there); `None` means every call
      succeeds. */
  datatype Stage =
    | Begin            // opening the transaction
    | CheckRegistered  // counting the (user, activity) rows
    | ReadActivity     // reading the activity's day and spots
    | CheckDay         // counting the user's rows on that day
    | Insert           // inserting a registration / an activity
    | Delete           // deleting a registration
    | Decrement        // spots := spots - 1
    | Increment        // spots := spots + 1
    | Commit           // committing the transaction

  /** A member of a non-empty set, to witness a pick from it. */
  lemma MemberOf<T>(s: set<T>) returns (x: T)
    requires s != {}
    ensures x in s
  {
    if forall y :: y !in s {
      assert false;
    }
    x :| x in s;
  }
}
