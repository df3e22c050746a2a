/** The daily pace of a quota window, over the real numbers. */
module AccountQuota {
  import opened Wrappers

  const DAY_MS := 86400000.0
  const PACE_BUFFER_MS := 43200000.0

  /** The fields of a quota window that the pace reads; times are in milliseconds. */
  datatype Window = Window(resetsAt: Option<real>, durationMins: Option<real>, pending: bool)

  datatype Pace = Pace(day: int, days: int, floor: real)

  function Min(x: real, y: real): real {
    if x <= y then x else y
  }

  function Max(x: real, y: real): real {
    if x >= y then x else y
  }

  function Ceil(x: real): int {
    -(-x).Floor
  }

  /** `Math.round`: halves go up. */
  function Round(x: real): int {
    (x + 0.5).Floor
  }

  /** A missing number and zero are alike to the code. */
  predicate Falsy(x: Option<real>) {
    x.None? || x.value == 0.0
  }

  function Total(w: Window): real
    requires w.durationMins.Some?
  {
    w.durationMins.value * 60000.0
  }

  /** The windows and times that have a pace. */
  predicate Eligible(w: Window, now: real) {
    && !w.pending && !Falsy(w.resetsAt) && !Falsy(w.durationMins)
    && Total(w) / DAY_MS >= 1.0
    && 0.0 < w.resetsAt.value - now <= Total(w)
  }

  function Buffer(left: real): real {
    if left >= DAY_MS then PACE_BUFFER_MS else PACE_BUFFER_MS * (left / DAY_MS)
  }

  /** The floor before its clamps. */
  function RawFloor(left: real, total: real): real
    requires total != 0.0
  {
    ((left - Buffer(left)) / total) * 100.0
  }

  /** The day before its cap. */
  function RawDay(left: real, total: real): int {
    ((total - left) / DAY_MS).Floor + 1
  }

  function QuotaDailyPace(w: Window, now: real): Option<Pace> {
    if w.pending || Falsy(w.resetsAt) || Falsy(w.durationMins) then None
    else
      var total := Total(w);
      var left := w.resetsAt.value - now;
      var days := total / DAY_MS;
      if days < 1.0 || left <= 0.0 || left > total then None
      else
        var cap, raw := Ceil(days), RawDay(left, total);
        var day := if cap < raw then cap else raw;
        Some(Pace(day, Round(days), Max(0.0, Min(100.0, RawFloor(left, total)))))
  }

  // ---------- Real arithmetic ----------

  lemma DivLess(x: real, y: real, d: real)
    requires d > 0.0
    ensures x < y <==> x / d < y / d
    ensures x / d - y / d == (x - y) / d
  {
    assert x == (x / d) * d && y == (y / d) * d;
  }

  /** A proper part of the total is strictly between 0 and 100 percent. */
  lemma Percentage(part: real, total: real)
    requires 0.0 < part < total
    ensures 0.0 < part / total * 100.0 < 100.0
  {
    DivLess(0.0, part, total);
    DivLess(part, total, total);
    assert total / total == 1.0;
  }

  lemma DayBounds(left: real, total: real)
    requires 0.0 < left <= total
    ensures 1 <= RawDay(left, total) <= Ceil(total / DAY_MS)
  {
    DivLess(total - left, total, DAY_MS);
    DivLess(0.0, total - left, DAY_MS);
    DivLess(total - left, 0.0, DAY_MS);
  }

  lemma BufferBounds(left: real)
    requires left > 0.0
    ensures 0.0 < Buffer(left) < left
    ensures left < DAY_MS ==> left - Buffer(left) == left / 2.0
  {
  }

  /** What is left after the buffer: strictly increasing, and never faster than the time left itself. */
  lemma SpareSlope(left: real, left': real)
    requires 0.0 < left < left'
    ensures 0.0 < (left' - Buffer(left')) - (left - Buffer(left)) <= left' - left
  {
    BufferBounds(left);
    BufferBounds(left');
  }

  // ---------- Main results ----------

  /** Which windows have a pace, and that neither clamp nor cap ever changes it. */
  lemma PaceUnclamped(w: Window, now: real)
    ensures QuotaDailyPace(w, now).Some? <==> Eligible(w, now)
    ensures Eligible(w, now) ==>
              var p, left := QuotaDailyPace(w, now).value, w.resetsAt.value - now;
              && 0.0 < p.floor < 100.0 && p.floor == RawFloor(left, Total(w))
              && p.day == RawDay(left, Total(w)) && 1 <= p.day
  {
    if Eligible(w, now) {
      var total, left := Total(w), w.resetsAt.value - now;
      BufferBounds(left);
      Percentage(left - Buffer(left), total);
      DayBounds(left, total);
    }
  }

  /** A strict fall, by at most 100 divided by the total for each millisecond. */
  predicate FallsSlowly(before: real, after: real, time: real, total: real) {
    after < before && (before - after) * total <= 100.0 * time
  }

  lemma FloorOf(w: Window, now: real, p: Pace, total: real) returns (left: real, floor: real)
    requires QuotaDailyPace(w, now) == Some(p) && w.durationMins.Some? && total == Total(w)
    ensures w.resetsAt.Some? && left == w.resetsAt.value - now && left > 0.0 && total > 0.0
    ensures floor == p.floor == RawFloor(left, total)
  {
    PaceUnclamped(w, now);
    left, floor := w.resetsAt.value - now, p.floor;
  }

  /**
   * As time advances the floor falls strictly, by at most 100 divided by the total for each millisecond, across the
   * taper boundary too.
   */
  lemma FloorFalls(w: Window, now: real, later: real, p: Pace, q: Pace, total: real)
    requires QuotaDailyPace(w, now) == Some(p) && QuotaDailyPace(w, later) == Some(q) && now < later
    requires w.durationMins.Some? && total == Total(w)
    ensures FallsSlowly(p.floor, q.floor, later - now, total)
  {
    var left', f' := FloorOf(w, now, p, total);
    var left, f := FloorOf(w, later, q, total);
    RawFalls(left, left', later - now, total, f, f');
  }

  /** The day never goes back and the number of days stays. */
  lemma DayAdvances(w: Window, now: real, later: real, p: Pace, q: Pace)
    requires QuotaDailyPace(w, now) == Some(p) && QuotaDailyPace(w, later) == Some(q) && now < later
    ensures p.day <= q.day && p.days == q.days
  {
    PaceUnclamped(w, now);
    PaceUnclamped(w, later);
    var total := Total(w);
    DivLess(total - (w.resetsAt.value - now), total - (w.resetsAt.value - later), DAY_MS);
  }

  lemma RawFalls(left: real, left': real, time: real, total: real, f: real, f': real)
    requires 0.0 < left < left' && left' - left == time && total > 0.0
    requires f == RawFloor(left, total) && f' == RawFloor(left', total)
    ensures FallsSlowly(f', f, time, total)
  {
    SpareSlope(left, left');
    FloorSlope(left - Buffer(left), left' - Buffer(left'), time, total);
  }

  lemma FloorSlope(spare: real, spare': real, time: real, total: real)
    requires total > 0.0 && 0.0 < spare' - spare <= time
    ensures 0.0 < spare' / total * 100.0 - spare / total * 100.0
    ensures (spare' / total * 100.0 - spare / total * 100.0) * total <= 100.0 * time
  {
    DivLess(spare, spare', total);
    var q, q' := spare / total, spare' / total;
    assert q * total == spare && q' * total == spare';
    assert (q' * 100.0 - q * 100.0) * total == (q' * total - q * total) * 100.0;
  }

  // ---------- What the pace says ----------

  /** The day is the number of the 24 hours, counted from the start of the window, that `now` lies in. */
  lemma DayNumber(w: Window, now: real, p: Pace)
    requires QuotaDailyPace(w, now) == Some(p)
    ensures w.resetsAt.Some? && w.durationMins.Some?
    ensures var since := w.durationMins.value * 60000.0 - (w.resetsAt.value - now);
            (p.day - 1) as real * 86400000.0 <= since < p.day as real * 86400000.0
  {
    PaceUnclamped(w, now);
    var since := Total(w) - (w.resetsAt.value - now);
    var q := since / DAY_MS;
    assert q * DAY_MS == since;
    assert p.day == q.Floor + 1 && q.Floor as real <= q < q.Floor as real + 1.0;
  }

  /** The number of days is the length of the window rounded to whole days, halves up. */
  lemma DaysRounded(w: Window, now: real, p: Pace)
    requires QuotaDailyPace(w, now) == Some(p)
    ensures w.durationMins.Some?
    ensures p.days as real - 0.5 <= w.durationMins.value / 1440.0 < p.days as real + 0.5
  {
    PaceUnclamped(w, now);
    assert Total(w) / DAY_MS == w.durationMins.value / 1440.0;
  }

  /** Twelve hours are kept as a buffer while a day or more is left, and half of what is left after that. */
  lemma FloorValue(w: Window, now: real, p: Pace)
    requires QuotaDailyPace(w, now) == Some(p)
    ensures w.resetsAt.Some? && w.durationMins.Some? && w.durationMins.value * 60000.0 > 0.0
    ensures var left, total := w.resetsAt.value - now, w.durationMins.value * 60000.0;
            p.floor == (if left >= 86400000.0 then left - 43200000.0 else left / 2.0) / total * 100.0
  {
    PaceUnclamped(w, now);
    var left := w.resetsAt.value - now;
    assert left < DAY_MS ==> left - Buffer(left) == left / 2.0;
  }

  /** Which windows have a pace, in their own terms. */
  lemma HasPace(w: Window, now: real)
    ensures QuotaDailyPace(w, now).Some? <==>
            && !w.pending && w.resetsAt.Some? && w.resetsAt.value != 0.0
            && w.durationMins.Some? && w.durationMins.value >= 1440.0
            && now < w.resetsAt.value <= now + w.durationMins.value * 60000.0
  {
    PaceUnclamped(w, now);
    if w.durationMins.Some? {
      assert Total(w) / DAY_MS == w.durationMins.value / 1440.0;
    }
  }
}
