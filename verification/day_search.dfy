/** The loops of `BusinessDayService`, over any test of a day: stepping one day at
    a time forward or back to the first day that passes, counting the days of a
    range that pass, listing those that fail, and moving a range's ends onto
    passing days. `BusinessDays` uses them with the business-day test. Stepping
    past 9999-12-31 or before 0001-01-01 is `AddDays` throwing, reported as
    `OutOfRange`. */
module DaySearch {
  import opened Wrappers
  import opened Calendar

  /** `DateTime.AddDays(k)`: fails when the result leaves the representable range. */
  function AddDays(n: Day, k: int): (r: Result<Day, DateError>)
    ensures r.Success? <==> 0 <= n + k <= MaxDay
    ensures r.Success? ==> r.value == n + k
    ensures r.Failure? ==> r.error == OutOfRange
  {
    if 0 <= n + k <= MaxDay then Success(n + k) else Failure(OutOfRange)
  }

  // ---------------------------------------------------------------------------
  // Searching

  /** The upward loop, from a day it is about to test. */
  function NextFrom(m: Day, p: Day -> bool): (r: Result<Day, DateError>)
    ensures r.Success? ==> m <= r.value && p(r.value)
    ensures r.Success? ==> forall d: Day :: m <= d < r.value ==> !p(d)
    ensures r.Failure? ==> r.error == OutOfRange && forall d: Day :: m <= d ==> !p(d)
    decreases MaxDay - m
  {
    if p(m) then Success(m)
    else if m == MaxDay then Failure(OutOfRange)
    else NextFrom(m + 1, p)
  }

  /** The downward loop. */
  function PreviousFrom(m: Day, p: Day -> bool): (r: Result<Day, DateError>)
    ensures r.Success? ==> r.value <= m && p(r.value)
    ensures r.Success? ==> forall d: Day :: r.value < d <= m ==> !p(d)
    ensures r.Failure? ==> r.error == OutOfRange && forall d: Day :: d <= m ==> !p(d)
    decreases m
  {
    if p(m) then Success(m)
    else if m == 0 then Failure(OutOfRange)
    else PreviousFrom(m - 1, p)
  }

  /** The first passing day strictly after `n`: the loop starts at `AddDays(1)`. */
  function NextAfter(n: Day, p: Day -> bool): (r: Result<Day, DateError>)
    ensures r.Success? ==> n < r.value && p(r.value)
    ensures r.Success? ==> forall d: Day :: n < d < r.value ==> !p(d)
    ensures r.Failure? ==> r.error == OutOfRange && forall d: Day :: n < d ==> !p(d)
  {
    if n == MaxDay then Failure(OutOfRange) else NextFrom(n + 1, p)
  }

  /** The last passing day strictly before `n`: the loop starts at `AddDays(-1)`. */
  function PreviousBefore(n: Day, p: Day -> bool): (r: Result<Day, DateError>)
    ensures r.Success? ==> r.value < n && p(r.value)
    ensures r.Success? ==> forall d: Day :: r.value < d < n ==> !p(d)
    ensures r.Failure? ==> r.error == OutOfRange && forall d: Day :: d < n ==> !p(d)
  {
    if n == 0 then Failure(OutOfRange) else PreviousFrom(n - 1, p)
  }

  /** The upward search finds any passing day with no passing day before it. */
  lemma {:induction false} NextFromFinds(m: Day, b: Day, p: Day -> bool)
    requires m <= b && p(b)
    requires forall d: Day :: m <= d < b ==> !p(d)
    ensures NextFrom(m, p) == Success(b)
    decreases b - m
  {
    if m < b {
      NextFromFinds(m + 1, b, p);
    }
  }

  lemma {:induction false} PreviousFromFinds(m: Day, b: Day, p: Day -> bool)
    requires b <= m && p(b)
    requires forall d: Day :: b < d <= m ==> !p(d)
    ensures PreviousFrom(m, p) == Success(b)
    decreases m - b
  {
    if b < m {
      PreviousFromFinds(m - 1, b, p);
    }
  }

  /** The next passing day is the one its defining property names. */
  lemma NextAfterIff(n: Day, b: Day, p: Day -> bool)
    ensures NextAfter(n, p) == Success(b) <==> n < b && p(b) && forall d: Day :: n < d < b ==> !p(d)
  {
    if n < b && p(b) && forall d: Day :: n < d < b ==> !p(d) {
      NextFromFinds(n + 1, b, p);
    }
  }

  lemma PreviousBeforeIff(n: Day, b: Day, p: Day -> bool)
    ensures PreviousBefore(n, p) == Success(b) <==> b < n && p(b) && forall d: Day :: b < d < n ==> !p(d)
  {
    if b < n && p(b) && forall d: Day :: b < d < n ==> !p(d) {
      PreviousFromFinds(n - 1, b, p);
    }
  }

  // ---------------------------------------------------------------------------
  // Counting and listing

  /** Passing days in `s..e`, by recursion on the end day. */
  function CountIn(s: Day, e: int, p: Day -> bool): nat
    requires e <= MaxDay
    decreases e - s
  {
    if e < s then 0 else CountIn(s, e - 1, p) + (if p(e) then 1 else 0)
  }

  /** Failing days in `s..e`, in date order. */
  function FailingIn(s: Day, e: int, p: Day -> bool): seq<Day>
    requires e <= MaxDay
    decreases e - s
  {
    if e < s then [] else FailingIn(s, e - 1, p) + (if p(e) then [] else [e])
  }

  function PassingSet(s: Day, e: int, p: Day -> bool): set<Day> {
    set d: Day | s <= d <= e && p(d)
  }

  /** The count is the size of the set of passing days in the range. */
  lemma {:induction false} CountInIsCardinality(s: Day, e: int, p: Day -> bool)
    requires e <= MaxDay
    ensures CountIn(s, e, p) == |PassingSet(s, e, p)|
    decreases e - s
  {
    if e < s {
      assert PassingSet(s, e, p) == {};
    } else {
      CountInIsCardinality(s, e - 1, p);
      if p(e) {
        assert PassingSet(s, e, p) == PassingSet(s, e - 1, p) + {e};
      } else {
        assert PassingSet(s, e, p) == PassingSet(s, e - 1, p);
      }
    }
  }

  /** The listed days are strictly increasing and are exactly the failing days of the range. */
  lemma {:induction false} FailingInMembers(s: Day, e: int, p: Day -> bool)
    requires e <= MaxDay
    ensures forall i, j :: 0 <= i < j < |FailingIn(s, e, p)| ==> FailingIn(s, e, p)[i] < FailingIn(s, e, p)[j]
    ensures forall d: Day :: d in FailingIn(s, e, p) <==> s <= d <= e && !p(d)
    decreases e - s
  {
    if e >= s {
      FailingInMembers(s, e - 1, p);
      var prev := FailingIn(s, e - 1, p);
      assert forall i :: 0 <= i < |prev| ==> prev[i] in prev;
    }
  }

  /** Every day of a range is either counted or listed, never both. */
  lemma {:induction false} CountPlusFailing(s: Day, e: int, p: Day -> bool)
    requires e <= MaxDay && s <= e + 1
    ensures CountIn(s, e, p) + |FailingIn(s, e, p)| == e - s + 1
    decreases e - s
  {
    if e >= s {
      CountPlusFailing(s, e - 1, p);
    }
  }

  /** A range that starts on a passing day counts at least one. */
  lemma {:induction false} StartCounted(s: Day, e: int, p: Day -> bool)
    requires e <= MaxDay && s <= e && p(s)
    ensures CountIn(s, e, p) > 0
    decreases e - s
  {
    if e > s {
      StartCounted(s, e - 1, p);
    }
  }

  /** The counting loop. It steps `AddDays(1)` past the end day, so a range ending
      on 9999-12-31 throws; an inverted range throws `ArgumentException` first. */
  method Count(s: Day, e: Day, p: Day -> bool) returns (r: Result<nat, DateError>)
    ensures s > e ==> r == Failure(InvalidRange)
    ensures s <= e && e == MaxDay ==> r == Failure(OutOfRange)
    ensures s <= e < MaxDay ==> r == Success(CountIn(s, e, p))
  {
    if s > e {
      return Failure(InvalidRange);
    }
    var count: nat := 0;
    var current: Day := s;
    while current <= e
      invariant s <= current <= e + 1
      invariant count == CountIn(s, current - 1, p)
      decreases e - current
    {
      if p(current) {
        count := count + 1;
      }
      var next := AddDays(current, 1);
      if next.Failure? {
        return Failure(next.error);
      }
      current := next.value;
    }
    return Success(count);
  }

  /** The listing loop: no check on the order of the bounds, so an inverted range
      lists nothing. */
  method ListFailing(s: Day, e: Day, p: Day -> bool) returns (r: Result<seq<Day>, DateError>)
    ensures s > e ==> r == Success([])
    ensures s <= e && e == MaxDay ==> r == Failure(OutOfRange)
    ensures s <= e < MaxDay ==> r == Success(FailingIn(s, e, p))
  {
    var days: seq<Day> := [];
    var current: Day := s;
    while current <= e
      invariant s <= current
      invariant s <= e ==> current <= e + 1
      invariant s > e ==> current == s && days == []
      invariant s <= e ==> days == FailingIn(s, current - 1, p)
      decreases e - current
    {
      if !p(current) {
        days := days + [current];
      }
      var next := AddDays(current, 1);
      if next.Failure? {
        return Failure(next.error);
      }
      current := next.value;
    }
    return Success(days);
  }

  // ---------------------------------------------------------------------------
  // Adjusting a range

  /** No day from `s` to the end of the calendar passes. */
  predicate NoneFrom(s: Day, p: Day -> bool) {
    forall d: Day :: s <= d ==> !p(d)
  }

  /** No day from the start of the calendar up to `e` passes. */
  predicate NoneUpTo(e: Day, p: Day -> bool) {
    forall d: Day :: d <= e ==> !p(d)
  }

  /** A start that fails moves forward to the next passing day, an end that fails
      moves back to the previous one; each end is adjusted on its own. */
  function Adjust(s: Day, e: Day, p: Day -> bool): (r: Result<(Day, Day), DateError>)
    ensures r.Success? ==> p(r.value.0) && p(r.value.1)
    ensures r.Success? ==> s <= r.value.0 && r.value.1 <= e
    ensures r.Success? ==> forall d: Day :: s <= d < r.value.0 ==> !p(d)
    ensures r.Success? ==> forall d: Day :: r.value.1 < d <= e ==> !p(d)
    ensures r.Failure? <==> NoneFrom(s, p) || NoneUpTo(e, p)
    ensures r.Failure? ==> r.error == OutOfRange
  {
    var start := if p(s) then Success(s) else NextAfter(s, p);
    var end := if p(e) then Success(e) else PreviousBefore(e, p);
    if start.Failure? then Failure(start.error)
    else if end.Failure? then Failure(end.error)
    else Success((start.value, end.value))
  }

  /** Adjusting an adjusted range changes nothing. */
  lemma AdjustIdempotent(s: Day, e: Day, p: Day -> bool)
    requires Adjust(s, e, p).Success?
    ensures Adjust(Adjust(s, e, p).value.0, Adjust(s, e, p).value.1, p) == Adjust(s, e, p)
  {
  }

  /** The adjusted range is in order exactly when the original range holds a passing
      day; otherwise the adjusted start lands after the adjusted end. */
  lemma AdjustedOrderIff(s: Day, e: Day, p: Day -> bool)
    requires Adjust(s, e, p).Success?
    ensures Adjust(s, e, p).value.0 <= Adjust(s, e, p).value.1 <==> exists d: Day :: s <= d <= e && p(d)
  {
    var (a, b) := Adjust(s, e, p).value;
    if exists d: Day :: s <= d <= e && p(d) {
      var d: Day :| s <= d <= e && p(d);
      assert a <= d <= b;
    }
    if a <= b {
      assert s <= a <= e && p(a);
    }
  }

  /** From `m`, five passing days, two failing ones and a passing one. */
  predicate IsWorkingWeek(m: Day, p: Day -> bool) {
    m + 7 <= MaxDay && forall d: Day :: m <= d <= m + 7 ==> (p(d) <==> d != m + 5 && d != m + 6)
  }

  /** Day `k` of the eight days from `m` passes exactly when it is not the sixth or seventh. */
  predicate WeekPattern(p: Day -> bool, m: Day, k: nat)
    requires m + k <= MaxDay
  {
    p(m + k) <==> k != 5 && k != 6
  }

  /** A working week stated day by day from its Monday. */
  lemma WorkingWeekByOffsets(m: Day, p: Day -> bool)
    requires m + 7 <= MaxDay
    requires forall k: nat :: k <= 7 ==> WeekPattern(p, m, k)
    ensures IsWorkingWeek(m, p)
  {
    forall d: Day | m <= d <= m + 7
      ensures p(d) <==> d != m + 5 && d != m + 6
    {
      assert WeekPattern(p, m, d - m);
    }
  }

  /** A working week: five passing days, two failing, then a passing day again. The
      week counts five, lists its last two days, and the searches from either side
      of the weekend jump over it. */
  lemma WorkingWeek(m: Day, p: Day -> bool)
    requires IsWorkingWeek(m, p)
    ensures CountIn(m, m + 6, p) == 5
    ensures FailingIn(m, m + 6, p) == [m + 5, m + 6]
    ensures NextAfter(m + 4, p) == Success(m + 7)
    ensures PreviousBefore(m + 7, p) == Success(m + 4)
  {
    NextAfterIff(m + 4, m + 7, p);
    PreviousBeforeIff(m + 7, m + 4, p);
    assert CountIn(m, m + 4, p) == 5 by {
      assert CountIn(m, m - 1, p) == 0;
      assert CountIn(m, m, p) == 1;
      assert CountIn(m, m + 1, p) == 2;
      assert CountIn(m, m + 2, p) == 3;
      assert CountIn(m, m + 3, p) == 4;
    }
    assert FailingIn(m, m + 4, p) == [] by {
      assert FailingIn(m, m - 1, p) == [];
      assert FailingIn(m, m, p) == [];
      assert FailingIn(m, m + 1, p) == [];
      assert FailingIn(m, m + 2, p) == [];
      assert FailingIn(m, m + 3, p) == [];
    }
    assert FailingIn(m, m + 5, p) == [m + 5];
  }

  /** A passing day followed by two failing ones counts one and lists the two. */
  lemma PassThenTwoFail(s: Day, p: Day -> bool)
    requires s + 2 <= MaxDay && p(s) && !p(s + 1) && !p(s + 2)
    ensures CountIn(s, s + 2, p) == 1
    ensures FailingIn(s, s + 2, p) == [s + 1, s + 2]
  {
    assert CountIn(s, s - 1, p) == 0;
    assert CountIn(s, s, p) == 1;
    assert CountIn(s, s + 1, p) == 1;
    assert FailingIn(s, s - 1, p) == [];
    assert FailingIn(s, s + 1, p) == [s + 1];
  }
}
