/** The calendar page's time arithmetic: the lunch-break deduction when a
    time range is selected, and the placement of a logged entry as an event.
    Instants are whole minutes counted from the first day's midnight, local
    time; a day is 1440 minutes and lunch is 12:00 to 13:00.
 */
module Calendar {
  import opened Common

  const MinutesPerDay: int := 1440
  /** 12:00 and 13:00 as minutes of the day. */
  const LunchFrom: int := 720
  const LunchTo: int := 780
  /** `DEFAULT_START_TIME`, 09:00. */
  const DefaultStartTime: int := 540

  function Max(a: int, b: int): int { if a > b then a else b }
  function Min(a: int, b: int): int { if a < b then a else b }

  /** The midnight that begins the day of instant `t`. */
  function DayStart(t: int): (m: int)
    ensures m <= t < m + MinutesPerDay
    ensures m % MinutesPerDay == 0
  {
    t - t % MinutesPerDay
  }

  /** Lunch on the day of `t`. */
  function LunchStartOf(t: int): int { DayStart(t) + LunchFrom }
  function LunchEndOf(t: int): int { DayStart(t) + LunchTo }

  /** The part of `[start, end)` inside lunch of the start's day: from the
      later of the two starts to the earlier of the two ends, and nothing
      when those do not form a positive span. */
  function LunchOverlap(start: int, end: int): (o: int)
    ensures 0 <= o <= LunchTo - LunchFrom
    ensures start <= end ==> o <= end - start
    ensures o > 0 <==> Max(start, LunchStartOf(start)) < Min(end, LunchEndOf(start))
    ensures o > 0 ==> o == Min(end, LunchEndOf(start)) - Max(start, LunchStartOf(start))
    ensures end <= LunchStartOf(start) || start >= LunchEndOf(start) ==> o == 0
  {
    var from := Max(start, LunchStartOf(start));
    var to := Min(end, LunchEndOf(start));
    if from < to then to - from else 0
  }

  /** `handleDateSelect`'s duration in minutes: the selected span less its
      overlap with the start day's lunch. */
  function SelectedMinutes(start: int, end: int): (d: int)
    ensures start <= end ==> 0 <= d <= end - start
    ensures end - start - (LunchTo - LunchFrom) <= d
    ensures end <= LunchStartOf(start) || start >= LunchEndOf(start) ==> d == end - start
  {
    end - start - LunchOverlap(start, end)
  }

  /** The reference count: the minutes of `[from, to)` that fall outside
      `[lunchFrom, lunchTo)`, one by one. */
  function WorkMinutes(from: int, to: int, lunchFrom: int, lunchTo: int): nat
    decreases to - from
  {
    if to <= from then 0
    else WorkMinutes(from, to - 1, lunchFrom, lunchTo) + (if lunchFrom <= to - 1 < lunchTo then 0 else 1)
  }

  /** The deduction counts exactly the selected minutes outside the start
      day's lunch. */
  lemma {:induction false} SelectionCountsWorkMinutes(start: int, end: int)
    requires start <= end
    ensures SelectedMinutes(start, end) == WorkMinutes(start, end, LunchStartOf(start), LunchEndOf(start))
    decreases end - start
  {
    if end > start {
      SelectionCountsWorkMinutes(start, end - 1);
    }
  }

  /** Where an entry's event starts: its day at its stored start time, or
      at 09:00 when it has none. */
  function EventStart(spentOn: Date, startTime: Option<int>): (s: int)
    ensures startTime.None? ==> s == spentOn * MinutesPerDay + DefaultStartTime
    ensures startTime.Some? ==> s == spentOn * MinutesPerDay + startTime.value
  {
    spentOn * MinutesPerDay + startTime.GetOr(DefaultStartTime)
  }

  /** Where an entry's event ends: its hours after the start, one hour
      later when the start is before noon and the plain end is after it. */
  function RenderedEnd(start: int, minutes: int): (e: int)
    ensures start < LunchStartOf(start) < start + minutes ==> e == start + minutes + 60
    ensures !(start < LunchStartOf(start) < start + minutes) ==> e == start + minutes
    ensures minutes >= 0 ==> start <= start + minutes <= e
  {
    var raw := start + minutes;
    if start < LunchStartOf(start) && raw > LunchStartOf(start) then raw + 60 else raw
  }

  /** Selecting a rendered event again gives back the entry's hours, as
      long as the event does not start during lunch. */
  lemma RenderedRoundTrip(start: int, minutes: int)
    requires minutes >= 0
    requires !(LunchStartOf(start) <= start < LunchEndOf(start))
    ensures SelectedMinutes(start, RenderedEnd(start, minutes)) == minutes
  {
  }

  /** An event that starts during lunch is not extended, so selecting it
      again gives back less than its hours. */
  lemma LunchStartLosesTime()
    ensures SelectedMinutes(750, RenderedEnd(750, 60)) == 30
  {
  }

  /** The end an event is drawn with: a day and a time of that day. */
  datatype Clock = Clock(day: Date, minute: int)

  function InstantOf(c: Clock): int { c.day * MinutesPerDay + c.minute }

  /** As written: the end's time of day, on the entry's own day. */
  function EndLabel(spentOn: Date, end: int): (c: Clock)
    ensures c.day == spentOn && 0 <= c.minute < MinutesPerDay
    ensures c.minute == end - DayStart(end)
  {
    Clock(spentOn, end % MinutesPerDay)
  }

  /** An entry of sixteen hours from the default start ends, as drawn,
      before it starts: 02:00 on its own day. */
  lemma LongEntryEndsBeforeStart(spentOn: Date)
    ensures var start := EventStart(spentOn, None);
      var drawn := EndLabel(spentOn, RenderedEnd(start, 16 * 60));
      drawn == Clock(spentOn, 120) && InstantOf(drawn) < start
  {
    var start := EventStart(spentOn, None);
    assert DayStart(start) == spentOn * MinutesPerDay;
    assert RenderedEnd(start, 16 * 60) == spentOn * MinutesPerDay + 1560;
    assert (spentOn * MinutesPerDay + 1560) % MinutesPerDay == 120;
  }

  /** As evidently intended: the end's own day and time of day, which is the
      rendered end itself and so never before the start. */
  function EndLabelFixed(end: int): (c: Clock)
    ensures InstantOf(c) == end
    ensures 0 <= c.minute < MinutesPerDay
  {
    Clock(end / MinutesPerDay, end % MinutesPerDay)
  }

  /** With the corrected label an event with non-negative hours never ends
      before it starts. */
  lemma FixedLabelNotBeforeStart(spentOn: Date, startTime: Option<int>, minutes: int)
    requires minutes >= 0
    ensures var start := EventStart(spentOn, startTime);
      InstantOf(EndLabelFixed(RenderedEnd(start, minutes))) >= start
  {
  }
}
