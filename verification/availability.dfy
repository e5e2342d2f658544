/**
 What the reservation dialog offers for booking: the dates of the next thirty
 days on which the restaurant is open (it is closed on Mondays) and the fixed
 table of evening time slots. A calendar day is represented by its offset from
 today; its weekday is today's weekday plus the offset, modulo seven
 (0 = Sunday, 1 = Monday, as `Date.getDay` numbers them). Turning an offset
 into a display label is formatting and is not modelled.
 */
module Availability {

  /** Number of days, starting today, that are offered. */
  const Horizon := 30

  /** `getDay()` of a Monday, the closing day. */
  const Monday := 1

  /** Weekday of the day `i` days after a day whose weekday is `w0`. */
  function Weekday(w0: int, i: int): int
    requires 0 <= w0 < 7 && 0 <= i
  {
    (w0 + i) % 7
  }

  /** The offsets in `[lo, hi)` that do not fall on a Monday, in order. */
  function OpenDays(w0: int, lo: int, hi: int): (r: seq<int>)
    requires 0 <= w0 < 7 && 0 <= lo
    ensures forall k :: 0 <= k < |r| ==> lo <= r[k] < hi && Weekday(w0, r[k]) != Monday
    ensures forall j, k :: 0 <= j < k < |r| ==> r[j] < r[k]
    ensures forall i :: lo <= i < hi && Weekday(w0, i) != Monday ==> i in r
    decreases hi - lo
  {
    if lo >= hi then []
    else (if Weekday(w0, lo) != Monday then [lo] else []) + OpenDays(w0, lo + 1, hi)
  }

  /** Splitting a range of days splits the open days accordingly. */
  lemma {:induction false} OpenDaysSplit(w0: int, lo: int, mid: int, hi: int)
    requires 0 <= w0 < 7 && 0 <= lo <= mid <= hi
    ensures OpenDays(w0, lo, hi) == OpenDays(w0, lo, mid) + OpenDays(w0, mid, hi)
    decreases mid - lo
  {
    if lo < mid {
      OpenDaysSplit(w0, lo + 1, mid, hi);
    }
  }

  /** The weekday after `Weekday(w0, i)`, wrapping Saturday to Sunday. */
  lemma WeekdayNext(w0: int, i: int)
    requires 0 <= w0 < 7 && 0 <= i
    ensures Weekday(w0, i + 1) == NextWeekday(Weekday(w0, i))
  {
  }

  /** Extending a range by one day appends that day when it is not a Monday. */
  lemma OpenDaysSnoc(w0: int, lo: int, hi: int)
    requires 0 <= w0 < 7 && 0 <= lo <= hi
    ensures OpenDays(w0, lo, hi + 1)
            == OpenDays(w0, lo, hi) + (if Weekday(w0, hi) != Monday then [hi] else [])
  {
    OpenDaysSplit(w0, lo, hi, hi + 1);
    assert OpenDays(w0, hi + 1, hi + 1) == [];
  }

  /** The weekday that follows `d`. */
  function NextWeekday(d: int): int {
    if d == 6 then 0 else d + 1
  }

  /** Number of days that are not Mondays among `n` consecutive days, the
      first of which has weekday `d`. */
  function CountFrom(d: int, n: nat): nat
    decreases n
  {
    if n == 0 then 0
    else (if d != Monday then 1 else 0) + CountFrom(NextWeekday(d), n - 1)
  }

  /** A further week adds exactly six open days. */
  lemma CountWeek(d: int, n: nat)
    requires 0 <= d < 7
    ensures CountFrom(d, n + 7) == CountFrom(d, n) + 6
  {
    var d1 := NextWeekday(d);
    var d2 := NextWeekday(d1);
    var d3 := NextWeekday(d2);
    var d4 := NextWeekday(d3);
    var d5 := NextWeekday(d4);
    var d6 := NextWeekday(d5);
    assert NextWeekday(d6) == d;
    var open := (if d != Monday then 1 else 0) + (if d1 != Monday then 1 else 0)
      + (if d2 != Monday then 1 else 0) + (if d3 != Monday then 1 else 0)
      + (if d4 != Monday then 1 else 0) + (if d5 != Monday then 1 else 0)
      + (if d6 != Monday then 1 else 0);
    assert open == 6;
    assert CountFrom(d6, n + 1) == (if d6 != Monday then 1 else 0) + CountFrom(d, n);
    assert CountFrom(d5, n + 2) == (if d5 != Monday then 1 else 0) + CountFrom(d6, n + 1);
    assert CountFrom(d4, n + 3) == (if d4 != Monday then 1 else 0) + CountFrom(d5, n + 2);
    assert CountFrom(d3, n + 4) == (if d3 != Monday then 1 else 0) + CountFrom(d4, n + 3);
    assert CountFrom(d2, n + 5) == (if d2 != Monday then 1 else 0) + CountFrom(d3, n + 4);
    assert CountFrom(d1, n + 6) == (if d1 != Monday then 1 else 0) + CountFrom(d2, n + 5);
  }

  /** The length of the open-day list depends only on the weekday of its
      first day and the number of days. */
  lemma {:induction false} OpenDaysLength(w0: int, lo: int, hi: int)
    requires 0 <= w0 < 7 && 0 <= lo <= hi
    ensures |OpenDays(w0, lo, hi)| == CountFrom(Weekday(w0, lo), hi - lo)
    decreases hi - lo
  {
    if lo < hi {
      OpenDaysLength(w0, lo + 1, hi);
      WeekdayNext(w0, lo);
    }
  }

  /** How many days after a day of weekday `d` the next Monday falls. */
  function DaysToMonday(d: int): int {
    if d <= Monday then Monday - d else 7 + Monday - d
  }

  /** Fewer than eight consecutive days hold at most one Monday: the one
      `DaysToMonday(d)` days in, if the run reaches it. */
  lemma {:induction false} CountShort(d: int, n: nat)
    requires 0 <= d < 7 && n <= 7
    ensures CountFrom(d, n) == n - (if DaysToMonday(d) < n then 1 else 0)
    decreases n
  {
    if n > 0 {
      CountShort(NextWeekday(d), n - 1);
    }
  }

  /** `n` consecutive days hold between `n / 7` and `ceil(n / 7)` Mondays. */
  lemma {:induction false} CountBounds(d: int, n: nat)
    requires 0 <= d < 7
    ensures n - (n + 6) / 7 <= CountFrom(d, n) <= n - n / 7
    decreases n
  {
    if n >= 7 {
      CountBounds(d, n - 7);
      CountWeek(d, n - 7);
    } else {
      CountShort(d, n);
    }
  }

  /** The open days among the first `n` number at least `n - ceil(n / 7)`
      and at most `n - floor(n / 7)`. */
  lemma OpenDaysBounds(w0: int, n: nat)
    requires 0 <= w0 < 7
    ensures n - (n + 6) / 7 <= |OpenDays(w0, 0, n)| <= n - n / 7
  {
    OpenDaysLength(w0, 0, n);
    CountBounds(Weekday(w0, 0), n);
  }

  /** The date list the dialog builds when it mounts: one entry for every
      day of the next thirty, today included, that is not a Monday, in
      calendar order; with four or five Mondays among thirty days that is
      25 or 26 dates. */
  method GenerateDates(w0: int) returns (dates: seq<int>)
    requires 0 <= w0 < 7
    ensures forall k :: 0 <= k < |dates| ==> 0 <= dates[k] < Horizon && Weekday(w0, dates[k]) != Monday
    ensures forall j, k :: 0 <= j < k < |dates| ==> dates[j] < dates[k]
    ensures forall i :: 0 <= i < Horizon && Weekday(w0, i) != Monday ==> i in dates
    ensures 25 <= |dates| <= 26
  {
    dates := ScanDays(w0, Horizon);
  }

  /** The loop of the date generator over the first `n` days. */
  method ScanDays(w0: int, n: nat) returns (dates: seq<int>)
    requires 0 <= w0 < 7
    ensures forall k :: 0 <= k < |dates| ==> 0 <= dates[k] < n && Weekday(w0, dates[k]) != Monday
    ensures forall j, k :: 0 <= j < k < |dates| ==> dates[j] < dates[k]
    ensures forall i :: 0 <= i < n && Weekday(w0, i) != Monday ==> i in dates
    ensures n - (n + 6) / 7 <= |dates| <= n - n / 7
  {
    dates := [];
    var i := 0;
    while i < n
      invariant 0 <= i <= n
      invariant dates == OpenDays(w0, 0, i)
    {
      OpenDaysSnoc(w0, 0, i);
      if Weekday(w0, i) != Monday {
        dates := dates + [i];
      }
      i := i + 1;
    }
    OpenDaysBounds(w0, n);
  }

  // ---------------------------------------------------------------------------
  // Time slots
  // ---------------------------------------------------------------------------

  datatype TimeSlot = TimeSlot(time: string, available: bool)

  /** The fixed evening template shown for every date: half-hour slots from
      6:00 PM to 10:30 PM, with 7:00 PM and 8:30 PM unavailable. */
  const SlotTable: seq<TimeSlot> := [
    TimeSlot("6:00 PM", true),
    TimeSlot("6:30 PM", true),
    TimeSlot("7:00 PM", false),
    TimeSlot("7:30 PM", true),
    TimeSlot("8:00 PM", true),
    TimeSlot("8:30 PM", false),
    TimeSlot("9:00 PM", true),
    TimeSlot("9:30 PM", true),
    TimeSlot("10:00 PM", true),
    TimeSlot("10:30 PM", true)
  ]

  /** A label that can be selected: the time of an available slot. */
  predicate Bookable(time: string) {
    exists i | 0 <= i < |SlotTable| :: SlotTable[i].available && SlotTable[i].time == time
  }

  /** The table has ten slots with non-empty, pairwise different labels, and
      exactly the third and sixth are unavailable. */
  lemma SlotTableShape()
    ensures |SlotTable| == 10
    ensures forall i :: 0 <= i < |SlotTable| ==> SlotTable[i].time != ""
    ensures forall i :: 0 <= i < |SlotTable| ==> (!SlotTable[i].available <==> i == 2 || i == 5)
    ensures forall i, j :: 0 <= i < j < |SlotTable| ==> SlotTable[i].time != SlotTable[j].time
  {
  }
}
