/**
 * The attendance status rule of AttendanceGUI.calculate_attendance_status: a check-in and a
 * last-seen time, judged against the event window typed into the report tab.
 */
module AttendanceStatus {
  import opened Common
  import opened ClockText

  datatype Status = Present | Late | LeftEarly | Absent

  /** The text written into the status column. */
  function StatusName(s: Status): string {
    match s
    case Present => "PRESENT"
    case Late => "LATE"
    case LeftEarly => "LEFT_EARLY"
    case Absent => "ABSENT"
  }

  /** STATUS_THRESHOLDS['LATE']: minutes after the start that still count as on time. */
  const LateThresholdMinutes: int := 15
  /** Leaving counts as early only when more than this many seconds before the end. */
  const EarlyLeaveSeconds: int := 600
  /** The fallback window, 09:00 to 17:00. */
  const FallbackStart: ClockTime := ClockTime(9, 0)
  const FallbackEnd: ClockTime := ClockTime(17, 0)

  datatype Window = Window(start: int, end: int)

  /**
   * What pd.to_datetime makes of the date field of the report tab: a day (the midnight that
   * starts it), NaT (the field is empty), or an error.
   */
  datatype EventDate = OnDay(midnight: int) | NotADate | Unparsable

  /** The event fields of the report tab: the date and the start and end texts. */
  datatype EventSettings = EventSettings(date: EventDate, startText: string, endText: string)

  /**
   * The window the rule compares against: two instants, or NaT at both ends when the date is
   * NaT (NaT.replace gives NaT whatever hour and minute it is handed).
   */
  datatype EventWindow = Timed(w: Window) | Undated

  /** A time of day on the day that starts at midnight `day`, seconds set to zero. */
  function At(day: int, c: ClockTime): int {
    day + c.hour * 3600 + c.minute * 60
  }

  /** 09:00-17:00 of the day containing `clock` (datetime.now()). */
  function Fallback(clock: int): Window {
    Window(At(DayStart(clock), FallbackStart), At(DayStart(clock), FallbackEnd))
  }

  /**
   * The window used by the rule. An unparsable date, a time that is not two int() fields, or
   * (on a real date) an hour or minute out of range makes the whole window fall back.
   */
  function ResolveWindow(e: EventSettings, clock: int): (ew: EventWindow)
    ensures ew.Undated? <==> e.date.NotADate? && ClockFields(e.startText).Some? && ClockFields(e.endText).Some?
    ensures e.date.Unparsable? ==> ew == Timed(Fallback(clock))
  {
    match e.date
    case Unparsable => Timed(Fallback(clock))
    case NotADate =>
      if ClockFields(e.startText).Some? && ClockFields(e.endText).Some? then Undated else Timed(Fallback(clock))
    case OnDay(day) =>
      match (ParseClock(e.startText), ParseClock(e.endText))
      case (Some(s), Some(t)) => Timed(Window(At(day, s), At(day, t)))
      case _ => Timed(Fallback(clock))
  }

  /** Last seen more than ten minutes before the end of the event. */
  predicate LeavesEarly(lastSeen: Option<int>, w: Window) {
    lastSeen.Some? && lastSeen.value < w.end && w.end - lastSeen.value > EarlyLeaveSeconds
  }

  /** ABSENT short-circuits; otherwise LATE or PRESENT, which LEFT_EARLY then overrides. */
  function ComputeStatus(checkIn: Option<int>, lastSeen: Option<int>, w: Window): (s: Status)
    ensures s == Absent <==> checkIn.None?
    ensures s == LeftEarly <==> checkIn.Some? && lastSeen.Some? && w.end - lastSeen.value > EarlyLeaveSeconds
  {
    if checkIn.None? then Absent
    else
      var status := if (checkIn.value - w.start) as real / 60.0 > LateThresholdMinutes as real then Late else Present;
      if LeavesEarly(lastSeen, w) then LeftEarly else status
  }

  /**
   * The rule against an event window. Against NaT the lateness test and the early-leave test
   * are both false (a NaN number of seconds, a comparison with NaT), so a check-in is PRESENT.
   */
  function StatusIn(checkIn: Option<int>, lastSeen: Option<int>, ew: EventWindow): (s: Status)
    ensures s == Absent <==> checkIn.None?
    ensures ew.Undated? ==> s != Late && s != LeftEarly
  {
    match ew
    case Timed(w) => ComputeStatus(checkIn, lastSeen, w)
    case Undated => if checkIn.None? then Absent else Present
  }

  /** calculate_attendance_status with the window read from the report tab at time `clock`. */
  function CalculateAttendanceStatus(checkIn: Option<int>, lastSeen: Option<int>, e: EventSettings, clock: int): (s: Status)
    ensures s == Absent <==> checkIn.None?
    ensures ResolveWindow(e, clock).Undated? ==> (s == Present <==> checkIn.Some?)
  {
    StatusIn(checkIn, lastSeen, ResolveWindow(e, clock))
  }

  lemma StatusNameInjective(a: Status, b: Status)
    ensures StatusName(a) == StatusName(b) <==> a == b
  {
  }

  /** Lateness compares minutes as a real quotient; on whole seconds it is "more than 900 s". */
  lemma LatenessInSeconds(checkIn: int, lastSeen: Option<int>, w: Window)
    requires !LeavesEarly(lastSeen, w)
    ensures ComputeStatus(Some(checkIn), lastSeen, w) == Late <==> checkIn - w.start > LateThresholdMinutes * 60
    ensures ComputeStatus(Some(checkIn), lastSeen, w) == Present <==> checkIn - w.start <= LateThresholdMinutes * 60
  {
    var x := (checkIn - w.start) as real;
    if checkIn - w.start > 900 {
      assert x >= 901.0;
      assert x / 60.0 > 15.0;
    } else {
      assert x <= 900.0;
      assert x / 60.0 <= 15.0;
    }
  }

  /** The lateness boundary is exclusive: exactly 15 minutes after the start is on time, one minute more is late. */
  lemma LatenessBoundary(w: Window)
    ensures ComputeStatus(Some(w.start + 900), Some(w.end), w) == Present
    ensures ComputeStatus(Some(w.start + 960), Some(w.end), w) == Late
  {
    LatenessInSeconds(w.start + 900, Some(w.end), w);
    LatenessInSeconds(w.start + 960, Some(w.end), w);
  }

  /** The early-leave boundary: 600 s before the end is not early, 601 s is, whatever the lateness. */
  lemma EarlyLeaveBoundary(checkIn: int, w: Window)
    ensures ComputeStatus(Some(checkIn), Some(w.end - 600), w) != LeftEarly
    ensures ComputeStatus(Some(checkIn), Some(w.end - 601), w) == LeftEarly
  {
  }

  /** Last seen at or after the end (or within 600 s of it) never yields LEFT_EARLY. */
  lemma NeverLeftEarlyNearEnd(checkIn: Option<int>, lastSeen: int, w: Window)
    requires lastSeen >= w.end - EarlyLeaveSeconds
    ensures ComputeStatus(checkIn, Some(lastSeen), w) != LeftEarly
  {
  }

  /** A late arrival who also leaves early is reported LEFT_EARLY, not LATE. */
  lemma LeftEarlyOverridesLate(checkIn: int, lastSeen: int, w: Window)
    requires checkIn - w.start > LateThresholdMinutes * 60
    requires w.end - lastSeen > EarlyLeaveSeconds
    ensures ComputeStatus(Some(checkIn), Some(lastSeen), w) == LeftEarly
  {
  }

  /** If the date or either time cannot be parsed, the window is 09:00-17:00 of the current day. */
  lemma FallbackWindow(e: EventSettings, clock: int)
    requires || e.date.Unparsable?
             || ClockFields(e.startText).None? || ClockFields(e.endText).None?
             || (e.date.OnDay? && (ParseClock(e.startText).None? || ParseClock(e.endText).None?))
    ensures ResolveWindow(e, clock) == Timed(Window(DayStart(clock) + 9 * 3600, DayStart(clock) + 17 * 3600))
    ensures DayStart(ResolveWindow(e, clock).w.start) == DayStart(clock)
  {
    var d := DayStart(clock);
    assert (d + 9 * 3600) % SecondsPerDay == 9 * 3600;
  }

  /** A parsable event yields the typed times on the typed date, seconds zero. */
  lemma ParsedWindow(day: int, start: ClockTime, end: ClockTime, clock: int)
    requires ValidClock(start) && ValidClock(end)
    ensures ResolveWindow(EventSettings(OnDay(day), FormatClock(start), FormatClock(end)), clock)
            == Timed(Window(day + start.hour * 3600 + start.minute * 60, day + end.hour * 3600 + end.minute * 60))
  {
    ParseFormatRoundTrip(start);
    ParseFormatRoundTrip(end);
  }

  /**
   * With the date field empty (NaT) and two integer fields in each time, there is no window:
   * every student who checked in is PRESENT, however late or early, and no range check applies.
   */
  lemma UndatedEventIsPresent(checkIn: int, lastSeen: Option<int>, e: EventSettings, clock: int)
    requires e.date.NotADate? && ClockFields(e.startText).Some? && ClockFields(e.endText).Some?
    ensures ResolveWindow(e, clock) == Undated
    ensures CalculateAttendanceStatus(Some(checkIn), lastSeen, e, clock) == Present
    ensures CalculateAttendanceStatus(None, lastSeen, e, clock) == Absent
  {
  }

  /**
   * The default times "14:00"-"17:00": a check-in at 15:00 is LATE on a typed date, but
   * PRESENT once the date field is emptied, e.g. to list every date in the report.
   */
  lemma EmptyDateHidesLateness(day: int, clock: int)
    ensures CalculateAttendanceStatus(Some(day + 15 * 3600), Some(day + 17 * 3600),
                                      EventSettings(OnDay(day), "14:00", "17:00"), clock) == Late
    ensures CalculateAttendanceStatus(Some(day + 15 * 3600), Some(day + 17 * 3600),
                                      EventSettings(NotADate, "14:00", "17:00"), clock) == Present
  {
    assert FormatClock(ClockTime(14, 0)) == "14:00";
    assert FormatClock(ClockTime(17, 0)) == "17:00";
    ParsedWindow(day, ClockTime(14, 0), ClockTime(17, 0), clock);
    var w := Window(day + 14 * 3600, day + 17 * 3600);
    LatenessInSeconds(day + 15 * 3600, Some(day + 17 * 3600), w);
  }
}
