/**
 Hourly leave inside a shift, by day or over midnight, on the axis of that shift
 (backend/app/core/leave_request_rules.py).
 */
module ShiftHours {
  // Clock times are compact numbers HHMM. A night shift is laid on an axis on which the hours after midnight carry on
  // past 2400. The reference is the minute distance on that axis.

  import opened Common

  const DAY_MINUTES := 24 * 60
  const MIN_WORKING_SHIFT_MINUTES := 30

  datatype RuleError =
    | EndNotAfterStart
    | NotAWorkingDay
    | OutsideShift(exitPermitNeeded: bool)
    | WholeShift
    | ExitBeforeShiftEnd

  /** A time of day: hour 0 to 23, minute 0 to 59. */
  predicate ClockTime(t: int) {
    0 <= t && t % 100 < 60 && t / 100 < 24
  }

  function ToMinutes(compact: int): int {
    compact / 100 * 60 + compact % 100
  }

  function ToCompact(minutes: int): int {
    minutes / 60 * 100 + minutes % 60
  }

  /** Clock arithmetic: the two notations carry the same information, in the same order. */
  lemma CompactRoundTrip(minutes: int)
    ensures ToMinutes(ToCompact(minutes)) == minutes
  {
  }

  lemma MinutesRoundTrip(compact: int)
    requires compact % 100 < 60
    ensures ToCompact(ToMinutes(compact)) == compact
  {
  }

  lemma MinutesOrdered(a: int, b: int)
    requires a % 100 < 60 && b % 100 < 60
    ensures a < b <==> ToMinutes(a) < ToMinutes(b)
  {
  }

  lemma MinutesNextDay(t: int)
    ensures ToMinutes(t + 2400) == ToMinutes(t) + DAY_MINUTES
  {
  }

  /** `compute_hourly_duration`. */
  function HourlyDuration(start: int, end: int, overnight: bool): Result<int, RuleError> {
    var diff := ToMinutes(end) - ToMinutes(start);
    var minutes := if overnight && diff < 0 then diff + DAY_MINUTES else diff;
    if minutes <= 0 then Err(EndNotAfterStart) else Ok(ToCompact(minutes))
  }

  // ---------- the shift of a day ----------

  /** A working day's shift: `end` is past 2400 when the shift runs over midnight. */
  datatype Window = OffDay | Shift(start: int, end: int, crossesMidnight: bool)

  /** The window of a day; None when the hours are unknown, which means no restriction. */
  function ShiftWindow(start: Option<int>, end: Option<int>, addedDay: bool, kasr: Option<int>): Option<Window> {
    if kasr == Some(0) then Some(OffDay)
    else if start.None? || end.None? then None
    else
      var crosses := addedDay || end.value < start.value;
      var extended := if crosses then end.value + 2400 else end.value;
      if ToMinutes(extended) - ToMinutes(start.value) < MIN_WORKING_SHIFT_MINUTES then Some(OffDay)
      else Some(Shift(start.value, extended, crosses))
  }

  /** A day whose deduction is zero, or whose shift is shorter than half an hour, is no working day; without its hours nothing
      is known of a day. A shift runs over midnight when it is said to or when it ends before it begins. */
  lemma WindowExactly(start: Option<int>, end: Option<int>, addedDay: bool, kasr: Option<int>)
    ensures ShiftWindow(start, end, addedDay, kasr) == None <==> kasr != Some(0) && (start == None || end == None)
    ensures start.Some? && end.Some? ==>
              var s, e := start.value, end.value;
              var over := addedDay || e < s;
              var minutes := (60 * (e / 100) + e % 100) - (60 * (s / 100) + s % 100) + if over then 1440 else 0;
              && (ShiftWindow(start, end, addedDay, kasr) == Some(OffDay) <==> kasr == Some(0) || minutes < 30)
              && (ShiftWindow(start, end, addedDay, kasr) == Some(Shift(s, if over then e + 2400 else e, over)) <==>
                    kasr != Some(0) && minutes >= 30)
    ensures kasr == Some(0) ==> ShiftWindow(start, end, addedDay, kasr) == Some(OffDay)
  {
    if end.Some? {
      MinutesNextDay(end.value);
    }
  }

  function OnAxis(w: Window, t: int): int
    requires w.Shift?
  {
    if w.crossesMidnight && t < w.start then t + 2400 else t
  }

  function CrossesMidnight(w: Option<Window>, start: int, end: int): bool {
    w.Some? && w.value.Shift? && w.value.crossesMidnight && end < start
  }

  /** The calendar day of a request relative to the day of its shift. */
  function DayOffset(w: Option<Window>, start: int): int {
    if w.Some? && w.value.Shift? && w.value.crossesMidnight && start < w.value.start then 1 else 0
  }

  /** `validate_hourly_in_shift`: None means accepted. */
  function HourlyError(w: Option<Window>, start: int, end: int): Option<RuleError> {
    if w.None? then None
    else if w.value.OffDay? then Some(NotAWorkingDay)
    else if end == start || (end < start && !w.value.crossesMidnight) then Some(EndNotAfterStart)
    else
      var s, e := OnAxis(w.value, start), OnAxis(w.value, end);
      if e <= s || s < w.value.start || e > w.value.end then Some(OutsideShift(e > w.value.end))
      else if s <= w.value.start && e >= w.value.end then Some(WholeShift)
      else None
  }

  /** A leave is refused on a day off; for ending when or before it starts; for reaching beyond the shift at either end, where an
      end past the shift needs an exit permit; or for taking the whole shift. */
  lemma RefusedLeave(w: Window, start: int, end: int)
    ensures HourlyError(None, start, end) == None && HourlyError(Some(OffDay), start, end) == Some(NotAWorkingDay)
    ensures w.Shift? ==>
              var next := if w.crossesMidnight then 2400 else 0;
              var s, e := (if start < w.start then start + next else start), (if end < w.start then end + next else end);
              var backward := start == end || (end < start && next == 0);
              var within := w.start <= s < e <= w.end;
              && (HourlyError(Some(w), start, end) == Some(EndNotAfterStart) <==> backward)
              && (HourlyError(Some(w), start, end) == Some(OutsideShift(true)) <==> !backward && !within && e > w.end)
              && (HourlyError(Some(w), start, end) == Some(OutsideShift(false)) <==> !backward && !within && e <= w.end)
              && (HourlyError(Some(w), start, end) == Some(WholeShift) <==> !backward && within && s == w.start && e == w.end)
  {
  }

  function ExitError(w: Option<Window>, exit: int): Option<RuleError> {
    if w.None? || w.value.OffDay? then None
    else if w.value.crossesMidnight then
      if w.value.end - 2400 <= exit < w.value.start then None else Some(ExitBeforeShiftEnd)
    else
      if exit >= w.value.end then None else Some(ExitBeforeShiftEnd)
  }

  // ---------- an accepted leave is the stretch of the axis it looks like ----------

  predicate BuiltFromClock(w: Option<Window>, start: Option<int>, end: Option<int>, addedDay: bool, kasr: Option<int>) {
    && (start.Some? ==> ClockTime(start.value))
    && (end.Some? ==> ClockTime(end.value))
    && w == ShiftWindow(start, end, addedDay, kasr)
  }

  /** A leave is accepted exactly when, on the shift axis, it is a non-empty stretch of the shift but not the whole. */
  lemma AcceptedExactlyInsideShift(w: Window, start: int, end: int)
    requires w.Shift?
    ensures HourlyError(Some(w), start, end) == None <==>
              var s, e := OnAxis(w, start), OnAxis(w, end);
              w.start <= s < e <= w.end && (s, e) != (w.start, w.end)
  {
  }

  /** For every shift read from clock times and every accepted leave: the stored duration is the minute distance on the
      shift axis, positive and shorter than the shift, and the axis start is the clock start moved by the day offset. */
  lemma AcceptedLeave(
    w: Window, shiftStart: Option<int>, shiftEnd: Option<int>, addedDay: bool, kasr: Option<int>, start: int, end: int
  )
    requires BuiltFromClock(Some(w), shiftStart, shiftEnd, addedDay, kasr)
    requires ClockTime(start) && ClockTime(end)
    requires HourlyError(Some(w), start, end) == None
    ensures w.Shift?
    ensures var distance := ToMinutes(OnAxis(w, end)) - ToMinutes(OnAxis(w, start));
            && HourlyDuration(start, end, CrossesMidnight(Some(w), start, end)) == Ok(ToCompact(distance))
            && 0 < distance < ToMinutes(w.end) - ToMinutes(w.start)
            && ToMinutes(OnAxis(w, start)) == ToMinutes(start) + DAY_MINUTES * DayOffset(Some(w), start)
  {
    WindowTimes(Some(w), shiftStart, shiftEnd, addedDay, kasr);
    AcceptedExactlyInsideShift(w, start, end);
    AxisMinutes(w, start);
    AxisMinutes(w, end);
    AxisDistance(w, OnAxis(w, start), OnAxis(w, end));
    DurationOnAxis(w, start, end);
  }

  lemma AxisDistance(w: Window, s: int, e: int)
    requires w.Shift? && w.start % 100 < 60 && w.end % 100 < 60 && s % 100 < 60 && e % 100 < 60
    requires w.start <= s < e <= w.end && (s, e) != (w.start, w.end)
    ensures 0 < ToMinutes(e) - ToMinutes(s) < ToMinutes(w.end) - ToMinutes(w.start)
  {
    hide ToMinutes;
    MinutesOrdered(s, e);
    MinutesOrdered(w.start, s);
    MinutesOrdered(e, w.end);
  }

  lemma AxisMinutes(w: Window, t: int)
    requires w.Shift? && ClockTime(t)
    ensures OnAxis(w, t) % 100 < 60
    ensures ToMinutes(OnAxis(w, t)) == ToMinutes(t) + DAY_MINUTES * DayOffset(Some(w), t)
  {
    MinutesNextDay(t);
    hide ToMinutes;
  }

  lemma DurationOnAxis(w: Window, start: int, end: int)
    requires w.Shift? && ClockTime(start) && ClockTime(end) && ClockTime(w.start)
    requires OnAxis(w, start) < OnAxis(w, end)
    requires 0 < ToMinutes(OnAxis(w, end)) - ToMinutes(OnAxis(w, start))
    ensures HourlyDuration(start, end, CrossesMidnight(Some(w), start, end))
         == Ok(ToCompact(ToMinutes(OnAxis(w, end)) - ToMinutes(OnAxis(w, start))))
  {
    AxisMinutes(w, start);
    AxisMinutes(w, end);
    MinutesOrdered(start, end);
    MinutesOrdered(end, start);
    MinutesInDay(start);
    MinutesInDay(end);
    hide ToMinutes, ToCompact;
  }

  lemma MinutesInDay(t: int)
    requires ClockTime(t)
    ensures 0 <= ToMinutes(t) < DAY_MINUTES
  {
  }

  /** An exit is permitted exactly from the end of the shift on, as the axis shows the exit time. */
  lemma ExitExactlyAfterShift(w: Window, start: Option<int>, end: Option<int>, addedDay: bool, kasr: Option<int>, exit: int)
    requires BuiltFromClock(Some(w), start, end, addedDay, kasr) && w.Shift?
    requires ClockTime(exit)
    ensures ExitError(Some(w), exit)
         == if (if w.crossesMidnight && exit < w.start then exit + 2400 else exit) >= w.end then None
            else Some(ExitBeforeShiftEnd)
    ensures ExitError(None, exit) == None && ExitError(Some(OffDay), exit) == None
  {
  }

  lemma WindowTimes(w: Option<Window>, start: Option<int>, end: Option<int>, addedDay: bool, kasr: Option<int>)
    requires BuiltFromClock(w, start, end, addedDay, kasr) && w.Some? && w.value.Shift?
    ensures ClockTime(w.value.start) && w.value.end % 100 < 60
    ensures w.value.start < w.value.end
    ensures !w.value.crossesMidnight ==> w.value.end < 2400
  {
  }
}
