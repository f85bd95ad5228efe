/** The order in which a user's activities are listed: by `day`, then by
    `time`, both ascending. `time` is text, so it is compared character by
    character (code-point order), a shorter prefix first. */
module Ordering {
  import opened Records

  /** `s` comes no later than `t` in lexicographic order. */
  predicate TimeLe(s: string, t: string)
  {
    if s == [] then true
    else if t == [] then false
    else if s[0] != t[0] then s[0] < t[0]
    else TimeLe(s[1..], t[1..])
  }

  lemma {:induction false} TimeLeTotal(s: string, t: string)
    ensures TimeLe(s, t) || TimeLe(t, s)
  {
    if s != [] && t != [] && s[0] == t[0] {
      TimeLeTotal(s[1..], t[1..]);
    }
  }

  lemma {:induction false} TimeLeTransitive(s: string, t: string, u: string)
    requires TimeLe(s, t) && TimeLe(t, u)
    ensures TimeLe(s, u)
  {
    if s != [] && t != [] && u != [] && s[0] == t[0] && t[0] == u[0] {
      TimeLeTransitive(s[1..], t[1..], u[1..]);
    }
  }

  lemma {:induction false} TimeLeAntisymmetric(s: string, t: string)
    requires TimeLe(s, t) && TimeLe(t, s)
    ensures s == t
  {
    if s != [] && t != [] {
      TimeLeAntisymmetric(s[1..], t[1..]);
      assert s == [s[0]] + s[1..] && t == [t[0]] + t[1..];
    }
  }

  /** `a` is listed no later than `b`: `ORDER BY day, time`. */
  predicate DayTimeLe(a: Activity, b: Activity)
  {
    a.day < b.day || (a.day == b.day && TimeLe(a.time, b.time))
  }

  lemma DayTimeLeTotal(a: Activity, b: Activity)
    ensures DayTimeLe(a, b) || DayTimeLe(b, a)
  {
    TimeLeTotal(a.time, b.time);
  }

  lemma DayTimeLeTransitive(a: Activity, b: Activity, c: Activity)
    requires DayTimeLe(a, b) && DayTimeLe(b, c)
    ensures DayTimeLe(a, c)
  {
    if a.day == b.day == c.day {
      TimeLeTransitive(a.time, b.time, c.time);
    }
  }

  predicate SortedByDayTime(s: seq<Activity>)
  {
    forall i, j :: 0 <= i < j < |s| ==> DayTimeLe(s[i], s[j])
  }

  /** Places `x` into the sorted listing `s`, after every row that is not
      later than it: the listing stays sorted and gains exactly `x`. */
  function InsertByDayTime(s: seq<Activity>, x: Activity): (r: seq<Activity>)
    requires SortedByDayTime(s)
    ensures SortedByDayTime(r)
    ensures multiset(r) == multiset(s) + multiset{x}
  {
    if s == [] then [x]
    else if !DayTimeLe(s[0], x) then
      DayTimeLeTotal(s[0], x);
      assert forall j :: 0 <= j < |s| ==> DayTimeLe(x, s[j]) by {
        forall j | 0 <= j < |s| ensures DayTimeLe(x, s[j]) {
          if j > 0 { DayTimeLeTransitive(x, s[0], s[j]); }
        }
      }
      [x] + s
    else
      var rest := InsertByDayTime(s[1..], x);
      assert s == [s[0]] + s[1..];
      assert forall j :: 0 <= j < |rest| ==> DayTimeLe(s[0], rest[j]) by {
        forall j | 0 <= j < |rest| ensures DayTimeLe(s[0], rest[j]) {
          assert rest[j] in multiset(rest);
          if rest[j] != x {
            assert rest[j] in multiset(s[1..]);
            var k :| 0 <= k < |s[1..]| && s[1..][k] == rest[j];
            assert DayTimeLe(s[0], s[k + 1]);
          }
        }
      }
      [s[0]] + rest
  }

  lemma RepeatCountsTwice(s: seq<Activity>, i: int, j: int)
    requires 0 <= i < j < |s| && s[i] == s[j]
    ensures multiset(s)[s[i]] >= 2
  {
    assert s == s[..j] + s[j..];
    assert s[i] == s[..j][i];
    assert s[j] == s[j..][0];
  }

  predicate DaysIncrease(s: seq<Activity>)
  {
    forall i, j :: 0 <= i < j < |s| ==> s[i].day < s[j].day
  }

  /** Two listings of the same rows with strictly increasing days start with
      the same row: the row of the earliest day. */
  lemma EarliestFirst(a: seq<Activity>, b: seq<Activity>)
    requires DaysIncrease(a) && DaysIncrease(b) && multiset(a) == multiset(b) && a != []
    ensures b != [] && a[0] == b[0]
  {
    assert a[0] in multiset(b);
    var k :| 0 <= k < |b| && b[k] == a[0];
    assert b[0] in multiset(a);
    var m :| 0 <= m < |a| && a[m] == b[0];
    // b[0] is a[m], so its day is no earlier than a[0]'s, which is b[k]'s:
    // that leaves k == 0
  }

  lemma TailRows(s: seq<Activity>)
    requires s != []
    ensures multiset(s[1..]) == multiset(s) - multiset{s[0]}
  {
    assert s == [s[0]] + s[1..];
  }

  /** A listing whose days strictly increase is fixed by its rows: two such
      listings of the same rows are the same listing. */
  lemma {:induction false} DayOrderedListingUnique(a: seq<Activity>, b: seq<Activity>)
    requires DaysIncrease(a) && DaysIncrease(b) && multiset(a) == multiset(b)
    ensures a == b
  {
    if a == [] {
      assert |b| == |multiset(b)| == 0;
    } else {
      EarliestFirst(a, b);
      TailRows(a);
      TailRows(b);
      DayOrderedListingUnique(a[1..], b[1..]);
      assert a == [a[0]] + a[1..] && b == [b[0]] + b[1..];
    }
  }
}
