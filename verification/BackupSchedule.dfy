/** When a scheduled backup is due (backend/app/core/backup_schedule_logic.py). */
module BackupSchedule {
  // Time is local Tehran time in microseconds, counted from the midnight that began some Monday; the offset to UTC is
  // fixed. The reference is the set of scheduled instants.

  import opened Common
  import opened Arithmetic

  const MINUTE := 60_000_000
  const HOUR := 60 * MINUTE
  const DAY := 24 * HOUR

  datatype Schedule =
    | Daily(hour: int, minute: int)
    | Weekly(weekday: int, hour: int, minute: int) // 0 is Monday
    | Interval(hours: int)

  predicate ValidSchedule(s: Schedule) {
    match s
    case Daily(h, m) => 0 <= h < 24 && 0 <= m < 60
    case Weekly(d, h, m) => 0 <= d < 7 && 0 <= h < 24 && 0 <= m < 60
    case Interval(n) => 1 <= n
  }

  function Midnight(t: int): int {
    t - t % DAY
  }

  function Weekday(t: int): int {
    t / DAY % 7
  }

  /** The scheduled instants. */
  predicate Occurs(s: Schedule, t: int)
    requires ValidSchedule(s)
  {
    match s
    case Daily(h, m) => t % DAY == h * HOUR + m * MINUTE
    case Weekly(d, h, m) => t % DAY == h * HOUR + m * MINUTE && Weekday(t) == d
    case Interval(n) => t % DAY % (n * HOUR) == 0
  }

  // ---------- the last instant up to now, as the source computes it ----------

  function MostRecentDaily(now: int, hour: int, minute: int): int {
    var candidate := Midnight(now) + hour * HOUR + minute * MINUTE;
    if candidate > now then candidate - DAY else candidate
  }

  function MostRecentWeekly(now: int, weekday: int, hour: int, minute: int): int {
    var daysSince := (Weekday(now) - weekday) % 7;
    var candidate := Midnight(now - daysSince * DAY) + hour * HOUR + minute * MINUTE;
    if candidate > now then candidate - 7 * DAY else candidate
  }

  function MostRecentInterval(now: int, hours: int): int
    requires hours >= 1
  {
    Midnight(now) + (now - Midnight(now)) / (hours * HOUR) * (hours * HOUR)
  }

  function MostRecent(s: Schedule, now: int): int
    requires ValidSchedule(s)
  {
    match s
    case Daily(h, m) => MostRecentDaily(now, h, m)
    case Weekly(d, h, m) => MostRecentWeekly(now, d, h, m)
    case Interval(n) => MostRecentInterval(now, n)
  }

  ghost predicate GreatestUpTo(s: Schedule, t: int, now: int)
    requires ValidSchedule(s)
  {
    t <= now && Occurs(s, t) && forall o :: Occurs(s, o) && o <= now ==> o <= t
  }

  /** A day number and a time of day make one instant. */
  lemma DayAndTime(t: int)
    ensures t == t / DAY * DAY + t % DAY && 0 <= t % DAY < DAY
    ensures Midnight(t) == t / DAY * DAY
  {
  }

  lemma InstantParts(day: int, x: int)
    requires 0 <= x < DAY
    ensures (day * DAY + x) / DAY == day && (day * DAY + x) % DAY == x
  {
    DivisionUnique(day * DAY + x, DAY, day, x);
  }

  lemma InstantOrder(a: int, b: int)
    ensures a <= b <==> a / DAY < b / DAY || (a / DAY == b / DAY && a % DAY <= b % DAY)
  {
    DayAndTime(a);
    DayAndTime(b);
  }

  lemma DailyGreatest(now: int, h: int, m: int)
    requires ValidSchedule(Daily(h, m))
    ensures GreatestUpTo(Daily(h, m), MostRecentDaily(now, h, m), now)
  {
    var s, x := Daily(h, m), h * HOUR + m * MINUTE;
    DayAndTime(now);
    var day := if x > now % DAY then now / DAY - 1 else now / DAY;
    var t := day * DAY + x;
    InstantParts(day, x);
    assert t == MostRecentDaily(now, h, m);
    hide MostRecentDaily;
    InstantOrder(t, now);
    forall o | Occurs(s, o) && o <= now
      ensures o <= t
    {
      InstantOrder(o, now);
      InstantOrder(o, t);
    }
  }

  /** The last day with weekday `d` up to day `a`. */
  lemma LastWeekday(a: int, d: int)
    requires 0 <= d < 7
    ensures var c := a - (a % 7 - d) % 7;
            c % 7 == d && c <= a < c + 7 && (a % 7 == d ==> c == a) && (c - 7) % 7 == d
  {
  }

  lemma WeekdayGap(b: int, c: int)
    requires b % 7 == c % 7 && b < c + 7
    ensures b <= c
  {
  }

  lemma MidnightBefore(now: int, k: int)
    ensures Midnight(now - k * DAY) == (now / DAY - k) * DAY
  {
    DayAndTime(now);
    DayAndTime(now - k * DAY);
    InstantParts(now / DAY - k, now % DAY);
  }

  lemma WeeklyCandidate(now: int, d: int, h: int, m: int)
    requires ValidSchedule(Weekly(d, h, m))
    ensures var x := h * HOUR + m * MINUTE;
            var c := now / DAY - (now / DAY % 7 - d) % 7;
            MostRecentWeekly(now, d, h, m)
            == (if c == now / DAY && x > now % DAY then (c - 7) * DAY + x else c * DAY + x)
  {
    var x := h * HOUR + m * MINUTE;
    var a := now / DAY;
    var k := (a % 7 - d) % 7;
    LastWeekday(a, d);
    MidnightBefore(now, k);
    hide Midnight;
    InstantParts(a - k, x);
    InstantOrder((a - k) * DAY + x, now);
  }

  lemma WeeklyGreatest(now: int, d: int, h: int, m: int)
    requires ValidSchedule(Weekly(d, h, m))
    ensures GreatestUpTo(Weekly(d, h, m), MostRecentWeekly(now, d, h, m), now)
  {
    hide MostRecentWeekly;
    var s, x := Weekly(d, h, m), h * HOUR + m * MINUTE;
    var a := now / DAY;
    var c := a - (a % 7 - d) % 7;
    LastWeekday(a, d);
    WeeklyCandidate(now, d, h, m);
    var day := if c == a && x > now % DAY then c - 7 else c;
    var t := day * DAY + x;
    InstantParts(day, x);
    InstantOrder(t, now);
    forall o | Occurs(s, o) && o <= now
      ensures o <= t
    {
      InstantOrder(o, now);
      WeekdayGap(o / DAY, day);
      InstantOrder(o, t);
    }
  }

  lemma IntervalGreatest(now: int, n: int)
    requires n >= 1
    ensures GreatestUpTo(Interval(n), MostRecentInterval(now, n), now)
  {
    var p, x := n * HOUR, now % DAY;
    var slot := x / p * p;
    var t := now / DAY * DAY + slot;
    DayAndTime(now);
    Quotients(x / p, p, x);
    Quotients(0, p, x);
    ScaleMonotone(0, x / p, p);
    MultipleOf(x / p, p);
    InstantParts(now / DAY, slot);
    InstantOrder(t, now);
    assert t == MostRecentInterval(now, n);
    forall o | Occurs(Interval(n), o) && o <= now
      ensures o <= t
    {
      InstantOrder(o, now);
      if o / DAY == now / DAY {
        SlotWithin(o % DAY, x, p);
      }
      InstantOrder(o, t);
    }
  }

  lemma SlotWithin(y: int, x: int, p: int)
    requires p > 0 && 0 <= y <= x && y % p == 0
    ensures y <= x / p * p
  {
    var q := y / p;
    assert y == q * p;
    Quotients(q, p, x);
    ScaleMonotone(q, x / p, p);
  }

  lemma MostRecentGreatest(s: Schedule, now: int)
    requires ValidSchedule(s)
    ensures GreatestUpTo(s, MostRecent(s, now), now)
  {
    match s
    case Daily(h, m) => DailyGreatest(now, h, m);
    case Weekly(d, h, m) => WeeklyGreatest(now, d, h, m);
    case Interval(n) => IntervalGreatest(now, n);
  }

  // ---------- is a backup due? ----------

  /** Tehran time minus UTC. */
  const OFFSET := 3 * HOUR + 30 * MINUTE

  datatype Kind = DailyKind | WeeklyKind | IntervalKind | OtherKind

  datatype Settings = Settings(
    enabled: bool, kind: Kind, hour: int, minute: int, weekday: Option<int>, intervalHours: Option<int>)

  /** The schedule that the settings describe; None when it is off, incomplete or of an unknown kind. */
  function ScheduleOf(st: Settings): Option<Schedule> {
    if !st.enabled then None
    else
      match st.kind
      case IntervalKind =>
        if st.intervalHours.None? || st.intervalHours.value == 0 then None else Some(Interval(st.intervalHours.value))
      case DailyKind => Some(Daily(st.hour, st.minute))
      case WeeklyKind => if st.weekday.None? then None else Some(Weekly(st.weekday.value, st.hour, st.minute))
      case OtherKind => None
  }

  predicate ValidSettings(st: Settings) {
    ScheduleOf(st).Some? ==> ValidSchedule(ScheduleOf(st).value)
  }

  /** `is_backup_due`: the last run and the present are UTC, the schedule is local. */
  function IsBackupDue(st: Settings, lastRun: Option<int>, now: int): bool
    requires ValidSettings(st)
  {
    match ScheduleOf(st)
    case None => false
    case Some(s) => lastRun.None? || lastRun.value < MostRecent(s, now + OFFSET) - OFFSET
  }

  /** An instant, in UTC, at which the settings schedule a backup. */
  predicate Scheduled(st: Settings, t: int)
    requires ValidSettings(st)
  {
    ScheduleOf(st).Some? && Occurs(ScheduleOf(st).value, t + OFFSET)
  }

  /** Backups are scheduled when the settings are on and complete for their kind; the clock times and the weekday have to be
      real ones. */
  lemma SettingsExactly(st: Settings)
    ensures ScheduleOf(st).Some? <==>
              && st.enabled
              && (st.kind == DailyKind || (st.kind == WeeklyKind && st.weekday.Some?)
                  || (st.kind == IntervalKind && st.intervalHours.Some? && st.intervalHours.value != 0))
    ensures ValidSettings(st) <==>
              ScheduleOf(st).Some? ==>
                && (st.kind == DailyKind || st.kind == WeeklyKind ==> 0 <= st.hour <= 23 && 0 <= st.minute <= 59)
                && (st.kind == WeeklyKind ==> 0 <= st.weekday.value <= 6)
                && (st.kind == IntervalKind ==> st.intervalHours.value > 0)
  {
  }

  /** An instant is scheduled by its local clock time, three and a half hours ahead of UTC: each day at the hour and minute, or
      on the one weekday, or at whole multiples of the interval counted from midnight. */
  lemma ScheduledExactly(st: Settings, t: int)
    requires ValidSettings(st)
    ensures var minutes := 60_000_000;
            var local := t + 210 * minutes;
            var day, time := local / (1440 * minutes), local % (1440 * minutes);
            Scheduled(st, t) <==>
              && st.enabled
              && match st.kind
                 case DailyKind => time == (60 * st.hour + st.minute) * minutes
                 case WeeklyKind =>
                   st.weekday.Some? && day % 7 == st.weekday.value && time == (60 * st.hour + st.minute) * minutes
                 case IntervalKind =>
                   st.intervalHours.Some? && st.intervalHours.value > 0
                   && exists k: int :: time == k * (st.intervalHours.value * (60 * minutes))
                 case OtherKind => false
  {
    if st.kind == IntervalKind && st.intervalHours.Some? && st.intervalHours.value > 0 {
      IntervalSlots(st.intervalHours.value, t + OFFSET);
    }
  }

  lemma IntervalSlots(hours: int, t: int)
    requires hours > 0
    ensures t % DAY % (hours * HOUR) == 0 <==> exists k: int :: t % DAY == k * (hours * HOUR)
  {
    var p, x := hours * HOUR, t % DAY;
    if x % p == 0 {
      assert x == x / p * p;
    }
    if k: int :| x == k * p {
      MultipleOf(k, p);
    }
  }

  /** After a first run, a backup is due exactly when a scheduled instant has come since. */
  lemma DueExactly(st: Settings, lastRun: int, now: int)
    requires ValidSettings(st)
    ensures IsBackupDue(st, Some(lastRun), now) <==> exists t :: Scheduled(st, t) && lastRun < t <= now
  {
    hide Occurs, MostRecent;
    if ScheduleOf(st).Some? {
      var s := ScheduleOf(st).value;
      MostRecentGreatest(s, now + OFFSET);
      var recent := MostRecent(s, now + OFFSET) - OFFSET;
      if lastRun < recent {
        assert Scheduled(st, recent);
      }
      forall t | Scheduled(st, t) && t <= now
        ensures t <= recent
      {
        assert Occurs(s, t + OFFSET);
      }
    }
  }

  // ---------- over a sequence of ticks ----------

  /** The last run after the ticks, each of which runs a backup if one is due and stores its own time. */
  function LastRun(st: Settings, before: Option<int>, ticks: seq<int>): Option<int>
    requires ValidSettings(st)
  {
    if ticks == [] then before
    else
      var last, tick := LastRun(st, before, ticks[..|ticks| - 1]), ticks[|ticks| - 1];
      if IsBackupDue(st, last, tick) then Some(tick) else last
  }

  predicate Runs(st: Settings, before: Option<int>, ticks: seq<int>, i: nat)
    requires ValidSettings(st) && i < |ticks|
  {
    IsBackupDue(st, LastRun(st, before, ticks[..i]), ticks[i])
  }

  predicate Increasing(before: Option<int>, ticks: seq<int>) {
    && (forall i, j :: 0 <= i < j < |ticks| ==> ticks[i] < ticks[j])
    && (before.Some? && ticks != [] ==> before.value <= ticks[0])
  }

  /** After a tick nothing scheduled up to that tick is still to be run, and the last run is not in the future. */
  lemma {:induction false} CaughtUp(st: Settings, before: Option<int>, ticks: seq<int>)
    requires ValidSettings(st) && ScheduleOf(st).Some? && Increasing(before, ticks) && ticks != []
    ensures var last := LastRun(st, before, ticks);
            && last.Some? && last.value <= ticks[|ticks| - 1]
            && forall t :: Scheduled(st, t) && t <= ticks[|ticks| - 1] ==> t <= last.value
  {
    hide Occurs, MostRecent, ScheduleOf;
    var front, tick := ticks[..|ticks| - 1], ticks[|ticks| - 1];
    var previous := LastRun(st, before, front);
    if front != [] {
      CaughtUp(st, before, front);
    }
    if previous.Some? {
      DueExactly(st, previous.value, tick);
    }
  }

  /** The time up to which a tick finds everything run: the tick before, for the first one the last run, if any. */
  function Since(before: Option<int>, ticks: seq<int>, i: nat): Option<int>
    requires i < |ticks|
  {
    if i == 0 then before else Some(ticks[i - 1])
  }

  /** A tick runs a backup exactly when a scheduled instant has come since the tick before, or, for the first tick, since
      the last run; only the very first tick of a schedule without a last run needs no instant. */
  lemma RunsExactly(st: Settings, before: Option<int>, ticks: seq<int>, i: nat)
    requires ValidSettings(st) && Increasing(before, ticks) && i < |ticks|
    ensures var since := Since(before, ticks, i);
            Runs(st, before, ticks, i)
            <==> (ScheduleOf(st).Some? && since.None?)
                 || (since.Some? && exists t :: Scheduled(st, t) && since.value < t <= ticks[i])
  {
    hide Occurs, MostRecent, ScheduleOf, LastRun;
    var front := ticks[..i];
    if ScheduleOf(st).None? {
      assert !IsBackupDue(st, LastRun(st, before, front), ticks[i]);
    } else if i > 0 {
      CaughtUp(st, before, front);
      DueExactly(st, LastRun(st, before, front).value, ticks[i]);
    } else {
      assert front == [];
      NoTicks(st, before);
      if before.Some? {
        DueExactly(st, before.value, ticks[0]);
      }
    }
  }

  lemma NoTicks(st: Settings, before: Option<int>)
    requires ValidSettings(st)
    ensures LastRun(st, before, []) == before
  {
  }

  /** Two consecutive scheduled instants. */
  ghost predicate Consecutive(st: Settings, a: int, b: int)
    requires ValidSettings(st)
  {
    a < b && Scheduled(st, a) && forall t :: Scheduled(st, t) && a < t ==> b <= t
  }

  /** From a scheduled instant up to the next one at most one tick runs a backup. */
  lemma AtMostOneRun(st: Settings, before: Option<int>, ticks: seq<int>, a: int, b: int, i: nat, j: nat)
    requires ValidSettings(st) && ScheduleOf(st).Some? && Increasing(before, ticks) && Consecutive(st, a, b)
    requires i < j < |ticks| && a <= ticks[i] && ticks[j] < b
    ensures !Runs(st, before, ticks, j)
  {
    hide Scheduled, Runs;
    RunsExactly(st, before, ticks, j);
    assert a <= ticks[j - 1];
  }

  /** The first tick from a scheduled instant up to the next one runs the backup, if a tick came before it or an earlier
      run is known to lie before that instant. */
  lemma FirstTickRuns(st: Settings, before: Option<int>, ticks: seq<int>, a: int, b: int, j: nat)
    requires ValidSettings(st) && ScheduleOf(st).Some? && Increasing(before, ticks) && Consecutive(st, a, b)
    requires j < |ticks| && a <= ticks[j] < b
    requires Since(before, ticks, j).Some? ==> Since(before, ticks, j).value < a
    ensures Runs(st, before, ticks, j)
  {
    hide Scheduled, Runs;
    RunsExactly(st, before, ticks, j);
  }

  // ---------- every so many hours? ----------

  /** The interval grid restarts at midnight, so a backup comes every `n` hours throughout exactly when `n` divides 24;
      otherwise a shorter gap precedes each midnight, and an interval over a day runs daily. */
  lemma EvenlySpaced(n: int)
    requires n >= 1
    ensures (forall t, u :: Occurs(Interval(n), t) && Occurs(Interval(n), u) && t < u ==> t + n * HOUR <= u)
            <==> 24 % n == 0
  {
    if 24 % n == 0 {
      forall t, u | Occurs(Interval(n), t) && Occurs(Interval(n), u) && t < u
        ensures t + n * HOUR <= u
      {
        Dividing(n, t, u);
      }
    } else {
      var k := 24 / n;
      var last := k * n * HOUR;
      LastSlot(n);
      assert Occurs(Interval(n), last) && Occurs(Interval(n), DAY);
    }
  }

  /** The last slot of a day is less than an interval before midnight. */
  lemma LastSlot(n: int)
    requires n >= 1 && 24 % n != 0
    ensures var last := 24 / n * n * HOUR;
            && Occurs(Interval(n), last) && Occurs(Interval(n), DAY) && last < DAY < last + n * HOUR
  {
    hide Occurs;
    LastHour(n);
    SlotOccurs(n, 24 / n);
    MidnightOccurs(n);
    HoursOfDay(24 / n * n, n);
  }

  lemma LastHour(n: int)
    requires n >= 1 && 24 % n != 0
    ensures 0 <= 24 / n && 24 / n * n < 24 < 24 / n * n + n
  {
    assert 24 == 24 / n * n + 24 % n;
  }

  lemma MidnightOccurs(n: int)
    requires n >= 1
    ensures Occurs(Interval(n), DAY)
  {
    InstantParts(1, 0);
    MultipleOf(0, n * HOUR);
  }

  lemma HoursOfDay(hours: int, n: int)
    requires hours < 24 < hours + n
    ensures hours * HOUR < DAY < hours * HOUR + n * HOUR
  {
  }

  lemma SlotOccurs(n: int, k: int)
    requires n >= 1 && 0 <= k && k * n < 24
    ensures Occurs(Interval(n), k * n * HOUR)
  {
    var slot := k * n * HOUR;
    ScaleMonotone(0, k, n);
    InstantParts(0, slot);
    assert slot == k * (n * HOUR);
    MultipleOf(k, n * HOUR);
  }

  lemma Dividing(n: int, t: int, u: int)
    requires n >= 1 && 24 % n == 0
    requires Occurs(Interval(n), t) && Occurs(Interval(n), u) && t < u
    ensures t + n * HOUR <= u
  {
    hide Occurs;
    var p := n * HOUR;
    var a := SlotNumber(n, t);
    var b := SlotNumber(n, u);
    Scaled(b, a, p);
    Scaled(a + 1, b, p);
    NextSlot(a, p);
  }

  lemma NextSlot(a: int, p: int)
    ensures (a + 1) * p == a * p + p
  {
  }

  lemma SlotNumber(n: int, t: int) returns (a: int)
    requires n >= 1 && 24 % n == 0 && Occurs(Interval(n), t)
    ensures t == a * (n * HOUR)
  {
    var p, c := n * HOUR, 24 / n;
    SlotsOfDay(n);
    DayAndTime(t);
    var i := t % DAY / p;
    assert t % DAY == i * p;
    a := t / DAY * c + i;
    Regroup(t / DAY, c, i, p);
  }

  lemma SlotsOfDay(n: int)
    requires n >= 1 && 24 % n == 0
    ensures DAY == 24 / n * (n * HOUR)
  {
    var c := 24 / n;
    assert 24 == c * n;
    assert c * n * HOUR == c * (n * HOUR);
  }

  lemma Regroup(d: int, c: int, i: int, p: int)
    ensures d * (c * p) + i * p == (d * c + i) * p
  {
  }
}
