/** The registration engine on the database's contents as a value: what a
    signup or an unregistration transaction commits, or why it rolls back,
    and the invariants those transactions keep. The class in module Store
    runs the same transactions step by step on its fields and is proved to
    agree with the functions here. */
module Engine {
  import opened Records

  /** The contents of the two tables. `registrations` is a multiset because a
      table is a bag of rows: that a (user, activity) pair occurs at most once
      is an invariant the engine keeps, not a property of the representation. */
  datatype Db = Db(activities: map<int, Activity>, registrations: multiset<Registration>)

  predicate FailsAt(fault: Option<Stage>, stage: Stage)
  {
    fault == Some(stage)
  }

  /** `SELECT COUNT(*) FROM registrations WHERE user_id = u AND activity_id = id` is positive. */
  predicate Registered(db: Db, user: string, id: int)
  {
    db.registrations[Registration(user, id)] > 0
  }

  /** The join of the user's registrations with `activities` has a row on `day`. */
  predicate HasActivityOnDay(db: Db, user: string, day: int)
  {
    exists r :: r in db.registrations && r.user == user && r.activityId in db.activities &&
      db.activities[r.activityId].day == day
  }

  /** One signup transaction. The checks run in this order: already
      registered, activity lookup, day conflict, free seat; each storage call
      can fail instead. Only when every check passes are the registration
      inserted and the seat count decremented, and only a commit makes them
      visible: any `Failure` leaves the database as it was. */
  function Signup(db: Db, user: string, id: int, fault: Option<Stage>): Result<Db, Error>
  {
    if FailsAt(fault, Begin) || FailsAt(fault, CheckRegistered) then Failure(StorageError)
    else if Registered(db, user, id) then Failure(AlreadyRegistered)
    else if FailsAt(fault, ReadActivity) then Failure(StorageError)
    else if id !in db.activities then Failure(NotFound)
    else if FailsAt(fault, CheckDay) then Failure(StorageError)
    else if HasActivityOnDay(db, user, db.activities[id].day) then Failure(DayConflict)
    else if db.activities[id].spots <= 0 then Failure(NoSpots)
    else if FailsAt(fault, Insert) || FailsAt(fault, Decrement) || FailsAt(fault, Commit) then
      Failure(StorageError)
    else
      var a := db.activities[id];
      Success(Db(db.activities[id := a.(spots := a.spots - 1)],
                 db.registrations + multiset{Registration(user, id)}))
  }

  /** One unregistration transaction: the pair must be registered; then its
      rows are deleted and the activity's seat count is incremented (an
      `UPDATE` that matches no row changes nothing). */
  function Unregister(db: Db, user: string, id: int, fault: Option<Stage>): Result<Db, Error>
  {
    if FailsAt(fault, Begin) || FailsAt(fault, CheckRegistered) then Failure(StorageError)
    else if !Registered(db, user, id) then Failure(NotRegistered)
    else if FailsAt(fault, Delete) || FailsAt(fault, Increment) || FailsAt(fault, Commit) then
      Failure(StorageError)
    else
      var acts := if id in db.activities
        then db.activities[id := db.activities[id].(spots := db.activities[id].spots + 1)]
        else db.activities;
      Success(Db(acts, db.registrations[Registration(user, id) := 0]))
  }

  /** The registrations that hold a seat of activity `id`. */
  ghost function Holders(regs: multiset<Registration>, id: int): set<Registration>
  {
    set r | r in regs && r.activityId == id
  }

  /** An activity is stored under its own id. */
  ghost predicate KeyedById(db: Db)
  {
    forall k :: k in db.activities ==> db.activities[k].id == k
  }

  /** The foreign key: every registration names a stored activity. */
  ghost predicate ReferencesExist(db: Db)
  {
    forall r :: r in db.registrations ==> r.activityId in db.activities
  }

  /** A (user, activity) pair appears at most once. */
  ghost predicate UniquePairs(db: Db)
  {
    forall r :: r in db.registrations ==> db.registrations[r] == 1
  }

  /** A user holds at most one registration per day. */
  ghost predicate OnePerDay(db: Db)
    requires ReferencesExist(db)
  {
    forall r1, r2 ::
      (r1 in db.registrations && r2 in db.registrations && r1.user == r2.user &&
       db.activities[r1.activityId].day == db.activities[r2.activityId].day) ==> r1 == r2
  }

  /** Free seats plus taken seats is the activity's capacity. */
  ghost predicate SeatsBalance(db: Db, capacity: map<int, int>)
  {
    && capacity.Keys == db.activities.Keys
    && forall k :: k in db.activities ==>
         db.activities[k].spots + |Holders(db.registrations, k)| == capacity[k]
  }

  /** The invariants of the two tables. `capacity` records each activity's
      seat count at creation (a ghost of the history, not a column). */
  ghost predicate Consistent(db: Db, capacity: map<int, int>)
  {
    && KeyedById(db)
    && ReferencesExist(db)
    && UniquePairs(db)
    && OnePerDay(db)
    && SeatsBalance(db, capacity)
  }

  predicate NonNegativeSpots(db: Db)
  {
    forall k :: k in db.activities ==> db.activities[k].spots >= 0
  }

  // ---------------------------------------------------------------------
  // Creating an activity

  /** Storing a new activity under an unused id keeps every invariant, with
      its seat count as its capacity; free seats stay non-negative exactly
      when the new row's are. */
  lemma AddActivityPreservesConsistency(db: Db, capacity: map<int, int>, a: Activity)
    requires Consistent(db, capacity) && a.id !in db.activities
    ensures Consistent(Db(db.activities[a.id := a], db.registrations), capacity[a.id := a.spots])
    ensures NonNegativeSpots(Db(db.activities[a.id := a], db.registrations)) <==>
      NonNegativeSpots(db) && a.spots >= 0
  {
    var db' := Db(db.activities[a.id := a], db.registrations);
    assert Holders(db.registrations, a.id) == {};
    assert forall k :: k in db.activities ==> db'.activities[k] == db.activities[k];
    assert OnePerDay(db') by {
      forall r1, r2 | r1 in db'.registrations && r2 in db'.registrations && r1.user == r2.user &&
          db'.activities[r1.activityId].day == db'.activities[r2.activityId].day
        ensures r1 == r2
      {
        assert db.activities[r1.activityId].day == db.activities[r2.activityId].day;
      }
    }
  }

  // ---------------------------------------------------------------------
  // Signup

  /** Every failure names the first check that did not pass, and the
      transaction commits exactly when all four pass. */
  lemma SignupOutcomes(db: Db, user: string, id: int)
    ensures Signup(db, user, id, None) == Failure(AlreadyRegistered) <==> Registered(db, user, id)
    ensures Signup(db, user, id, None) == Failure(NotFound) <==>
      !Registered(db, user, id) && id !in db.activities
    ensures Signup(db, user, id, None) == Failure(DayConflict) <==>
      !Registered(db, user, id) && id in db.activities &&
      HasActivityOnDay(db, user, db.activities[id].day)
    ensures Signup(db, user, id, None) == Failure(NoSpots) <==>
      !Registered(db, user, id) && id in db.activities &&
      !HasActivityOnDay(db, user, db.activities[id].day) && db.activities[id].spots <= 0
    ensures Signup(db, user, id, None).Success? <==>
      !Registered(db, user, id) && id in db.activities &&
      !HasActivityOnDay(db, user, db.activities[id].day) && db.activities[id].spots > 0
    ensures Signup(db, user, id, None) != Failure(NotRegistered)
    ensures Signup(db, user, id, None) != Failure(StorageError)
  {
  }

  /** Signing up again for a pair already registered is refused as such,
      whatever the activity's day or seats: it never reports a day conflict
      or a lack of seats, and it never inserts a second row. */
  lemma SignupRejectsDuplicate(db: Db, user: string, id: int, fault: Option<Stage>)
    requires Registered(db, user, id)
    ensures Signup(db, user, id, fault) == Failure(AlreadyRegistered) ||
            Signup(db, user, id, fault) == Failure(StorageError)
    ensures fault == None ==> Signup(db, user, id, fault) == Failure(AlreadyRegistered)
  {
  }

  /** A committed signup adds exactly the row (user, id), takes exactly one
      seat of activity `id`, and changes nothing else. */
  lemma SignupCommitEffect(db: Db, user: string, id: int, fault: Option<Stage>)
    requires Signup(db, user, id, fault).Success?
    ensures fault.Some? ==> fault.value == Delete || fault.value == Increment
    ensures var db' := Signup(db, user, id, fault).value;
      && db.registrations[Registration(user, id)] == 0
      && db'.registrations == db.registrations + multiset{Registration(user, id)}
      && db'.activities.Keys == db.activities.Keys
      && db.activities[id].spots > 0
      && db'.activities[id] == db.activities[id].(spots := db.activities[id].spots - 1)
      && (forall k :: k in db.activities && k != id ==> db'.activities[k] == db.activities[k])
  {
  }

  /** Two signups of one pair in a row: the first commits, the second is
      refused as a duplicate. */
  lemma SignupTwice(db: Db, user: string, id: int)
    requires Signup(db, user, id, None).Success?
    ensures Signup(Signup(db, user, id, None).value, user, id, None) == Failure(AlreadyRegistered)
  {
  }

  /** The last seat goes to whoever signs up first; the next user is told
      there are no seats left. */
  lemma LastSeat(db: Db, first: string, second: string, id: int)
    requires id in db.activities && db.activities[id].spots == 1
    requires Signup(db, first, id, None).Success?
    requires !Registered(db, second, id) && first != second
    requires !HasActivityOnDay(db, second, db.activities[id].day)
    ensures var db' := Signup(db, first, id, None).value;
      && db'.activities[id].spots == 0
      && Signup(db', second, id, None) == Failure(NoSpots)
  {
  }

  lemma HoldersAdd(regs: multiset<Registration>, p: Registration, k: int)
    requires p !in regs
    ensures |Holders(regs + multiset{p}, k)| ==
      if p.activityId == k then |Holders(regs, k)| + 1 else |Holders(regs, k)|
  {
    if p.activityId == k {
      assert Holders(regs + multiset{p}, k) == Holders(regs, k) + {p};
    } else {
      assert Holders(regs + multiset{p}, k) == Holders(regs, k);
    }
  }

  lemma HoldersRemove(regs: multiset<Registration>, p: Registration, k: int)
    requires p in regs
    ensures |Holders(regs[p := 0], k)| ==
      if p.activityId == k then |Holders(regs, k)| - 1 else |Holders(regs, k)|
  {
    if p.activityId == k {
      assert Holders(regs, k) == Holders(regs[p := 0], k) + {p};
    } else {
      assert Holders(regs[p := 0], k) == Holders(regs, k);
    }
  }

  /** Seats are conserved: for every activity, free seats plus registrations
      holding a seat is the same before and after a committed signup. */
  lemma SignupConservesSeats(db: Db, user: string, id: int, fault: Option<Stage>, k: int)
    requires Signup(db, user, id, fault).Success? && k in db.activities
    ensures var db' := Signup(db, user, id, fault).value;
      k in db'.activities &&
      db'.activities[k].spots + |Holders(db'.registrations, k)| ==
      db.activities[k].spots + |Holders(db.registrations, k)|
  {
    HoldersAdd(db.registrations, Registration(user, id), k);
  }

  /** The day-conflict check is what keeps a user to one registration per day. */
  lemma SignupKeepsOnePerDay(db: Db, user: string, id: int, fault: Option<Stage>)
    requires ReferencesExist(db) && OnePerDay(db) && Signup(db, user, id, fault).Success?
    ensures ReferencesExist(Signup(db, user, id, fault).value)
    ensures OnePerDay(Signup(db, user, id, fault).value)
  {
  }

  /** A committed signup keeps every invariant of the tables. */
  lemma SignupPreservesConsistency(db: Db, capacity: map<int, int>, user: string, id: int,
                                   fault: Option<Stage>)
    requires Consistent(db, capacity) && Signup(db, user, id, fault).Success?
    ensures Consistent(Signup(db, user, id, fault).value, capacity)
  {
    var db' := Signup(db, user, id, fault).value;
    forall k | k in db'.activities
      ensures db'.activities[k].spots + |Holders(db'.registrations, k)| == capacity[k]
    {
      SignupConservesSeats(db, user, id, fault, k);
    }
    SignupKeepsOnePerDay(db, user, id, fault);
  }

  lemma SignupKeepsSpotsNonNegative(db: Db, user: string, id: int, fault: Option<Stage>)
    requires NonNegativeSpots(db) && Signup(db, user, id, fault).Success?
    ensures NonNegativeSpots(Signup(db, user, id, fault).value)
  {
  }

  // ---------------------------------------------------------------------
  // Unregister

  /** Unregistration fails exactly when the pair is not registered, and
      then reports that. */
  lemma UnregisterOutcomes(db: Db, user: string, id: int)
    ensures Unregister(db, user, id, None) == Failure(NotRegistered) <==> !Registered(db, user, id)
    ensures Unregister(db, user, id, None).Success? <==> Registered(db, user, id)
  {
  }

  /** A committed unregistration removes exactly the pair's rows, gives back
      exactly one seat of activity `id`, and changes nothing else. */
  lemma UnregisterCommitEffect(db: Db, user: string, id: int, fault: Option<Stage>)
    requires Unregister(db, user, id, fault).Success?
    ensures var db' := Unregister(db, user, id, fault).value;
      && Registered(db, user, id) && !Registered(db', user, id)
      && (forall r :: r != Registration(user, id) ==> db'.registrations[r] == db.registrations[r])
      && db'.activities.Keys == db.activities.Keys
      && (id in db.activities ==>
            db'.activities[id] == db.activities[id].(spots := db.activities[id].spots + 1))
      && (forall k :: k in db.activities && k != id ==> db'.activities[k] == db.activities[k])
  {
  }

  lemma UnregisterConservesSeats(db: Db, user: string, id: int, fault: Option<Stage>, k: int)
    requires Unregister(db, user, id, fault).Success? && k in db.activities
    ensures var db' := Unregister(db, user, id, fault).value;
      k in db'.activities &&
      db'.activities[k].spots + |Holders(db'.registrations, k)| ==
      db.activities[k].spots + |Holders(db.registrations, k)|
  {
    HoldersRemove(db.registrations, Registration(user, id), k);
  }

  /** A committed unregistration keeps every invariant of the tables. */
  lemma UnregisterPreservesConsistency(db: Db, capacity: map<int, int>, user: string, id: int,
                                       fault: Option<Stage>)
    requires Consistent(db, capacity) && Unregister(db, user, id, fault).Success?
    ensures Consistent(Unregister(db, user, id, fault).value, capacity)
  {
    var db' := Unregister(db, user, id, fault).value;
    forall k | k in db'.activities
      ensures db'.activities[k].spots + |Holders(db'.registrations, k)| == capacity[k]
    {
      UnregisterConservesSeats(db, user, id, fault, k);
    }
  }

  lemma UnregisterKeepsSpotsNonNegative(db: Db, user: string, id: int, fault: Option<Stage>)
    requires NonNegativeSpots(db) && Unregister(db, user, id, fault).Success?
    ensures NonNegativeSpots(Unregister(db, user, id, fault).value)
  {
  }

  // ---------------------------------------------------------------------
  // The two transactions undo each other

  /** Withdrawing right after a committed signup restores the database. */
  lemma SignupThenUnregister(db: Db, user: string, id: int)
    requires Signup(db, user, id, None).Success?
    ensures Unregister(Signup(db, user, id, None).value, user, id, None) == Success(db)
  {
    var p := Registration(user, id);
    var db' := Signup(db, user, id, None).value;
    assert db'.registrations[p := 0] == db.registrations;
    assert db'.activities[id := db'.activities[id].(spots := db'.activities[id].spots + 1)]
      == db.activities;
  }

  /** Signing up right after a committed unregistration restores the
      database: the seat just given back is free, and the day just cleared
      holds no other activity of the user's. */
  lemma UnregisterThenSignup(db: Db, capacity: map<int, int>, user: string, id: int)
    requires Consistent(db, capacity) && NonNegativeSpots(db)
    requires Unregister(db, user, id, None).Success?
    ensures Signup(Unregister(db, user, id, None).value, user, id, None) == Success(db)
  {
    var p := Registration(user, id);
    var db' := Unregister(db, user, id, None).value;
    assert p in db.registrations;
    assert db'.registrations + multiset{p} == db.registrations;
    assert db'.activities[id := db'.activities[id].(spots := db'.activities[id].spots - 1)]
      == db.activities;
  }

  // ---------------------------------------------------------------------
  // Scenarios

  /** A one-seat activity: A takes the seat, B is refused, A withdraws, and
      B then gets the seat. */
  lemma SeatChangesHands(a: Activity, userA: string, userB: string)
    requires a.spots == 1 && userA != userB
    ensures var db0 := Db(map[a.id := a], multiset{});
      && Signup(db0, userA, a.id, None).Success?
      && var db1 := Signup(db0, userA, a.id, None).value;
      && db1.activities[a.id].spots == 0
      && Signup(db1, userB, a.id, None) == Failure(NoSpots)
      && Unregister(db1, userA, a.id, None).Success?
      && var db2 := Unregister(db1, userA, a.id, None).value;
      && db2.activities[a.id].spots == 1
      && Signup(db2, userB, a.id, None).Success?
      && Signup(db2, userB, a.id, None).value.activities[a.id].spots == 0
  {
  }

  /** Holding an activity on a day blocks signing up for another activity on
      the same day. */
  lemma SameDayBlocked(a1: Activity, a2: Activity, user: string)
    requires a1.id != a2.id && a1.day == a2.day && a1.spots > 0
    ensures var db0 := Db(map[a1.id := a1, a2.id := a2], multiset{});
      && Signup(db0, user, a1.id, None).Success?
      && Signup(Signup(db0, user, a1.id, None).value, user, a2.id, None) == Failure(DayConflict)
  {
  }
}
