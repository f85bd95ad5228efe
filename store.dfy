/** The database handle the operations of `activities.go` work through: the
    `activities` table as a map from id to row, the `registrations` table as a
    multiset of rows. The two write operations run as transactions: they work
    on a copy of the tables and assign it back only at the commit, so every
    early return, like the deferred `Rollback`, leaves the fields untouched. */
module Store {
  import opened Records
  import opened Ordering
  import opened Engine

  /** The activities the user holds a registration for: the join of their
      registration rows with `activities`. */
  function UserActivities(db: Db, user: string): set<Activity>
  {
    set r | r in db.registrations && r.user == user && r.activityId in db.activities
      :: db.activities[r.activityId]
  }

  /** In a consistent database a user holds at most one activity per day, so
      a listing of their activities sorted by day and time has strictly
      increasing days: no two rows tie on `(day, time)`. */
  lemma UserListingHasDistinctDays(db: Db, capacity: map<int, int>, user: string,
                                   list: seq<Activity>)
    requires Consistent(db, capacity)
    requires SortedByDayTime(list) && multiset(list) == multiset(UserActivities(db, user))
    ensures DaysIncrease(list)
  {
    forall i, j | 0 <= i < j < |list| ensures list[i].day < list[j].day {
      assert DayTimeLe(list[i], list[j]);
      if list[i].day == list[j].day {
        assert list[i] in multiset(list) && list[j] in multiset(list);
        var r1 :| r1 in db.registrations && r1.user == user && r1.activityId in db.activities &&
          db.activities[r1.activityId] == list[i];
        var r2 :| r2 in db.registrations && r2.user == user && r2.activityId in db.activities &&
          db.activities[r2.activityId] == list[j];
        assert r1 == r2;
        RepeatCountsTwice(list, i, j);
        assert false;
      }
    }
  }

  /** The listing `GetUserActivities` returns is determined by the database:
      whatever order the rows are visited in, a consistent database yields
      one listing. */
  lemma UserListingDetermined(db: Db, capacity: map<int, int>, user: string,
                              a: seq<Activity>, b: seq<Activity>)
    requires Consistent(db, capacity)
    requires SortedByDayTime(a) && multiset(a) == multiset(UserActivities(db, user))
    requires SortedByDayTime(b) && multiset(b) == multiset(UserActivities(db, user))
    ensures a == b
  {
    UserListingHasDistinctDays(db, capacity, user, a);
    UserListingHasDistinctDays(db, capacity, user, b);
    DayOrderedListingUnique(a, b);
  }

  /** A strict upper bound on a finite set of ids, so some positive id is free. */
  lemma {:induction false} Above(ids: set<int>) returns (b: int)
    ensures b > 0 && forall x :: x in ids ==> x < b
    decreases ids
  {
    if ids == {} {
      b := 1;
    } else {
      var k := MemberOf(ids);
      var rest := Above(ids - {k});
      assert forall x :: x in ids ==> x == k || x in ids - {k};
      b := if k < rest then rest else k + 1;
    }
  }

  class ActivityStore {
    var activities: map<int, Activity>
    var registrations: multiset<Registration>
    /** Each activity's seat count at creation; free plus taken seats stays equal to it. */
    ghost var capacity: map<int, int>

    function State(): Db
      reads this
    {
      Db(activities, registrations)
    }

    ghost predicate Valid()
      reads this
    {
      Consistent(State(), capacity)
    }

    constructor ()
      ensures Valid()
      ensures activities == map[] && registrations == multiset{}
    {
      activities := map[];
      registrations := multiset{};
      capacity := map[];
    }

    /** `CreateActivity`: stores the row under an id no activity has yet (the
        id the row carries is ignored) and returns that id, or 0 and a storage
        error. */
    method CreateActivity(a: Activity, fault: Option<Stage>) returns (id: int, err: Option<Error>)
      requires Valid()
      modifies this
      ensures Valid()
      ensures registrations == old(registrations)
      ensures err.None? <==> !FailsAt(fault, Insert)
      ensures err.Some? ==>
        err.value == StorageError && id == 0 &&
        activities == old(activities) && capacity == old(capacity)
      ensures err.None? ==>
        id > 0 && id !in old(activities) &&
        activities == old(activities)[id := a.(id := id)] &&
        capacity == old(capacity)[id := a.spots]
      ensures NonNegativeSpots(State()) <==>
        old(NonNegativeSpots(State())) && (err.None? ==> a.spots >= 0)
    {
      if FailsAt(fault, Insert) {
        return 0, Some(StorageError);
      }
      ghost var bound := Above(activities.Keys);
      assert bound !in activities;
      id :| id > 0 && id !in activities;
      AddActivityPreservesConsistency(State(), capacity, a.(id := id));
      activities := activities[id := a.(id := id)];
      capacity := capacity[id := a.spots];
      err := None;
    }

    /** `GetActivity`: the row stored under `id`, or `NotFound`. */
    function GetActivity(id: int): (r: Result<Activity, Error>)
      reads this
      requires Valid()
      ensures r.Failure? <==> id !in activities
      ensures r.Failure? ==> r.error == NotFound
      ensures r.Success? ==> r.value.id == id && r.value == activities[id]
    {
      if id in activities then Success(activities[id]) else Failure(NotFound)
    }

    /** `GetAllActivities`: every stored activity, each exactly once, in no
        particular order. */
    method GetAllActivities() returns (all: seq<Activity>)
      requires Valid()
      ensures forall i :: 0 <= i < |all| ==> all[i].id in activities && activities[all[i].id] == all[i]
      ensures forall k :: k in activities ==> activities[k] in all
      ensures forall i, j :: 0 <= i < j < |all| ==> all[i].id != all[j].id
    {
      all := [];
      var rows := activities.Keys;
      while rows != {}
        invariant rows <= activities.Keys
        invariant forall i :: 0 <= i < |all| ==>
          all[i].id in activities.Keys - rows && activities[all[i].id] == all[i]
        invariant forall k :: k in activities.Keys - rows ==> activities[k] in all
        invariant forall i, j :: 0 <= i < j < |all| ==> all[i].id != all[j].id
        decreases rows
      {
        ghost var someRow := MemberOf(rows);
        var k :| k in rows;
        all := all + [activities[k]];
        rows := rows - {k};
      }
    }

    /** `GetUserActivities`: the activities the user is registered for, each
        once, ordered by day and then time. */
    method GetUserActivities(user: string) returns (list: seq<Activity>)
      ensures SortedByDayTime(list)
      ensures multiset(list) == multiset(UserActivities(State(), user))
    {
      var joined := UserActivities(State(), user);
      var rows := joined;
      list := [];
      while rows != {}
        invariant rows <= joined
        invariant SortedByDayTime(list)
        invariant multiset(list) + multiset(rows) == multiset(joined)
        decreases rows
      {
        ghost var someRow := MemberOf(rows);
        var a :| a in rows;
        list := InsertByDayTime(list, a);
        assert multiset(rows - {a}) + multiset{a} == multiset(rows) by {
          assert (rows - {a}) + {a} == rows;
        }
        rows := rows - {a};
      }
    }

    /** `SignupUserForActivity`: runs the signup transaction on the tables
        and commits what it leaves only when it succeeds. */
    method SignupUserForActivity(user: string, activityId: int, fault: Option<Stage>)
      returns (ok: bool, err: Option<Error>)
      requires Valid()
      modifies this
      ensures Valid() && capacity == old(capacity)
      ensures ok <==> err.None?
      ensures ok ==> Signup(old(State()), user, activityId, fault) == Success(State())
      ensures !ok ==> Signup(old(State()), user, activityId, fault) == Failure(err.value)
      ensures !ok ==> activities == old(activities) && registrations == old(registrations)
      ensures old(NonNegativeSpots(State())) ==> NonNegativeSpots(State())
    {
      var tx;
      ok, err, tx := SignupTransaction(State(), user, activityId, fault);
      if ok {
        SignupPreservesConsistency(State(), capacity, user, activityId, fault);
        if NonNegativeSpots(State()) {
          SignupKeepsSpotsNonNegative(State(), user, activityId, fault);
        }
        activities, registrations := tx.activities, tx.registrations;
      }
    }

    /** `UnregisterUserFromActivity`: runs the unregistration transaction on
        the tables and commits what it leaves only when it succeeds. */
    method UnregisterUserFromActivity(user: string, activityId: int, fault: Option<Stage>)
      returns (err: Option<Error>)
      requires Valid()
      modifies this
      ensures Valid() && capacity == old(capacity)
      ensures err.None? ==> Unregister(old(State()), user, activityId, fault) == Success(State())
      ensures err.Some? ==> Unregister(old(State()), user, activityId, fault) == Failure(err.value)
      ensures err.Some? ==> activities == old(activities) && registrations == old(registrations)
      ensures old(NonNegativeSpots(State())) ==> NonNegativeSpots(State())
    {
      var tx;
      err, tx := UnregisterTransaction(State(), user, activityId, fault);
      if err.None? {
        UnregisterPreservesConsistency(State(), capacity, user, activityId, fault);
        if NonNegativeSpots(State()) {
          UnregisterKeepsSpotsNonNegative(State(), user, activityId, fault);
        }
        activities, registrations := tx.activities, tx.registrations;
      }
    }
  }

  /** The body of `SignupUserForActivity` between `Begin` and `Commit`: the
      checks in order, each returning early, then the insert and the
      decrement on the transaction's copy `tx` of the tables. `tx` is
      meaningful only when `ok`; otherwise the caller discards it, as the
      deferred rollback does. */
  method SignupTransaction(db: Db, user: string, activityId: int, fault: Option<Stage>)
    returns (ok: bool, err: Option<Error>, tx: Db)
    ensures ok <==> err.None?
    ensures ok ==> Signup(db, user, activityId, fault) == Success(tx)
    ensures !ok ==> Signup(db, user, activityId, fault) == Failure(err.value)
  {
    tx := db;
    if FailsAt(fault, Begin) {
      return false, Some(StorageError), tx;
    }

    if FailsAt(fault, CheckRegistered) {
      return false, Some(StorageError), tx;
    }
    var existing := tx.registrations[Registration(user, activityId)];
    if existing > 0 {
      return false, Some(AlreadyRegistered), tx;
    }

    if FailsAt(fault, ReadActivity) {
      return false, Some(StorageError), tx;
    }
    if activityId !in tx.activities {
      return false, Some(NotFound), tx;
    }
    var day, spots := tx.activities[activityId].day, tx.activities[activityId].spots;

    if FailsAt(fault, CheckDay) {
      return false, Some(StorageError), tx;
    }
    if HasActivityOnDay(tx, user, day) {
      return false, Some(DayConflict), tx;
    }

    if spots <= 0 {
      return false, Some(NoSpots), tx;
    }

    if FailsAt(fault, Insert) {
      return false, Some(StorageError), tx;
    }
    tx := tx.(registrations := tx.registrations + multiset{Registration(user, activityId)});

    if FailsAt(fault, Decrement) {
      return false, Some(StorageError), tx;
    }
    var row := tx.activities[activityId];
    tx := tx.(activities := tx.activities[activityId := row.(spots := row.spots - 1)]);

    if FailsAt(fault, Commit) {
      return false, Some(StorageError), tx;
    }
    return true, None, tx;
  }

  /** The body of `UnregisterUserFromActivity` between `Begin` and `Commit`:
      the existence check, then the delete and the increment on the
      transaction's copy `tx` of the tables. */
  method UnregisterTransaction(db: Db, user: string, activityId: int, fault: Option<Stage>)
    returns (err: Option<Error>, tx: Db)
    ensures err.None? ==> Unregister(db, user, activityId, fault) == Success(tx)
    ensures err.Some? ==> Unregister(db, user, activityId, fault) == Failure(err.value)
  {
    tx := db;
    if FailsAt(fault, Begin) {
      return Some(StorageError), tx;
    }

    if FailsAt(fault, CheckRegistered) {
      return Some(StorageError), tx;
    }
    var registered := tx.registrations[Registration(user, activityId)] > 0;
    if !registered {
      return Some(NotRegistered), tx;
    }

    if FailsAt(fault, Delete) {
      return Some(StorageError), tx;
    }
    tx := tx.(registrations := tx.registrations[Registration(user, activityId) := 0]);

    if FailsAt(fault, Increment) {
      return Some(StorageError), tx;
    }
    if activityId in tx.activities {
      var row := tx.activities[activityId];
      tx := tx.(activities := tx.activities[activityId := row.(spots := row.spots + 1)]);
    }

    if FailsAt(fault, Commit) {
      return Some(StorageError), tx;
    }
    return None, tx;
  }
}
