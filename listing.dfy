/**
 * The two appointment listings: the non-cancelled appointments of a shop or of
 * an employee, optionally of one date, ordered by date and then start time.
 */
module Listing {
  import opened Store

  /** `ORDER BY appointment_date, start_time`: a is not after b. */
  predicate NotAfter(a: Appointment, b: Appointment)
  {
    a.date < b.date || (a.date == b.date && a.startTime <= b.startTime)
  }

  predicate SortedByDateTime(xs: seq<Appointment>)
  {
    forall i, j :: 0 <= i < j < |xs| ==> NotAfter(xs[i], xs[j])
  }

  function InsertByDateTime(x: Appointment, xs: seq<Appointment>): (r: seq<Appointment>)
    requires SortedByDateTime(xs)
    ensures SortedByDateTime(r)
    ensures multiset(r) == multiset(xs) + multiset{x}
  {
    if |xs| == 0 then [x]
    else if NotAfter(x, xs[0]) then [x] + xs
    else
      var rest := InsertByDateTime(x, xs[1..]);
      assert xs == [xs[0]] + xs[1..];
      assert forall k :: 0 <= k < |rest| ==> NotAfter(xs[0], rest[k]) by {
        forall k | 0 <= k < |rest| ensures NotAfter(xs[0], rest[k]) {
          assert rest[k] in multiset(rest);
          if rest[k] != x {
            assert rest[k] in multiset(xs[1..]);
            var j :| 0 <= j < |xs[1..]| && xs[1..][j] == rest[k];
            assert xs[j + 1] == rest[k];
          }
        }
      }
      [xs[0]] + rest
  }

  /** The rows in date-and-time order; rows with equal keys keep their stored order. */
  function SortByDateTime(xs: seq<Appointment>): (r: seq<Appointment>)
    ensures SortedByDateTime(r)
    ensures multiset(r) == multiset(xs)
  {
    if |xs| == 0 then []
    else
      assert xs == [xs[0]] + xs[1..];
      InsertByDateTime(xs[0], SortByDateTime(xs[1..]))
  }

  /** The rows a listing selects. */
  predicate Selected(a: Appointment, byShop: bool, ownerId: int, date: Option<int>)
  {
    (if byShop then a.shopId == ownerId else a.employeeId == ownerId) &&
    a.status != Cancelled &&
    (date.Some? ==> a.date == date.value)
  }

  function Select(appointments: seq<Appointment>, byShop: bool, ownerId: int, date: Option<int>): (r: seq<Appointment>)
    ensures forall a :: a in r ==> Selected(a, byShop, ownerId, date)
    ensures forall a :: Selected(a, byShop, ownerId, date) ==> multiset(r)[a] == multiset(appointments)[a]
    ensures multiset(r) <= multiset(appointments)
  {
    if |appointments| == 0 then []
    else
      var head := appointments[0];
      var rest := Select(appointments[1..], byShop, ownerId, date);
      assert appointments == [head] + appointments[1..];
      assert multiset(appointments) == multiset{head} + multiset(appointments[1..]);
      if Selected(head, byShop, ownerId, date) then
        assert multiset([head] + rest) == multiset{head} + multiset(rest);
        [head] + rest
      else
        assert forall a :: Selected(a, byShop, ownerId, date) ==> multiset(appointments)[a] == multiset(appointments[1..])[a];
        rest
  }

  /** `get_shop_appointments` / `get_employee_appointments`. */
  function Listed(appointments: seq<Appointment>, byShop: bool, ownerId: int, date: Option<int>): (r: seq<Appointment>)
    ensures SortedByDateTime(r)
    ensures forall a :: a in r <==> a in appointments && Selected(a, byShop, ownerId, date)
    ensures forall a :: Selected(a, byShop, ownerId, date) ==> multiset(r)[a] == multiset(appointments)[a]
  {
    var selected := Select(appointments, byShop, ownerId, date);
    var r := SortByDateTime(selected);
    assert forall a :: a in r <==> a in selected by {
      forall a ensures a in r <==> a in selected {
        assert a in r <==> a in multiset(r);
        assert a in selected <==> a in multiset(selected);
      }
    }
    assert forall a :: a in appointments && Selected(a, byShop, ownerId, date) ==> a in selected by {
      forall a | a in appointments && Selected(a, byShop, ownerId, date) ensures a in selected {
        assert a in multiset(appointments);
        assert a in multiset(selected);
      }
    }
    assert forall a :: a in selected ==> a in appointments by {
      forall a | a in selected ensures a in appointments {
        assert a in multiset(selected);
      }
    }
    r
  }
}
