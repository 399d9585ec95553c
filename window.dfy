// pdsmerge's set-up before merging: the [start, end) time window as (day, millisecond of
// day) pairs and the APID filter, with the exit codes of the checks.

module Window {
  import opened Common
  import opened Modis
  import opened Calendar

  /** Exit codes: 20 for an unreadable argument, 10 for a rejected one. */
  const UsageError := 20
  const RangeError := 10

  /** Day number and millisecond of day given by a "-" start and a "-" end. */
  const OpenStartDay := 0
  const OpenStartMs := 0
  const OpenEndDay := 4000000
  const OpenEndMs := 90000000

  /** A date argument after scanning: "-", six scanned numbers, or text that did not scan. */
  datatype DateArg = Dash | Scanned(year: int, month: int, day: int, hour: int, min: int, sec: int)
    | Unscannable

  /** The filter and half-open window of one merge run. */
  datatype Window = Window(apid: int, startDay: int, startMs: int, endDay: int, endMs: int)

  predicate FieldsInRange(a: DateArg)
    requires a.Scanned?
  {
    && a.year >= 1958
    && 1 <= a.month <= 12
    && 1 <= a.day <= 31
    && 0 <= a.hour <= 23
    && 0 <= a.min <= 59
    && 0 <= a.sec <= 59
  }

  /** hour * 3600000 + min * 60000 + sec * 1000 */
  function MsOfDay(hour: int, min: int, sec: int): (ms: int)
    requires 0 <= hour <= 23 && 0 <= min <= 59 && 0 <= sec <= 59
    ensures 0 <= ms < MsPerDay && ms % 1000 == 0
    ensures ms / 1000 == (hour * 60 + min) * 60 + sec
  {
    hour * 60 * 60 * 1000 + min * 60 * 1000 + sec * 1000
  }

  /**
   * `(int)(x - MODIS_REF_DATE)` with x the day number plus 0.000001: truncation toward zero
   * of a value a millionth above an integer.
   */
  function EpochDay(jdn: int): int {
    var d := jdn - ModisRefDate;
    if d >= 0 then d else d + 1
  }

  /** A date argument as (day, millisecond of day), or the exit code its check gives. */
  function Bound(a: DateArg, openDay: int, openMs: int): (r: Result<(int, int), int>)
    ensures r.Err? <==> a.Unscannable? || (a.Scanned? && !FieldsInRange(a))
    ensures r.Err? ==> r.error == (if a.Unscannable? then UsageError else RangeError)
    ensures a.Dash? ==> r == Ok((openDay, openMs))
    ensures r.Ok? && a.Scanned? ==> r.value.0 >= 0 && 0 <= r.value.1 < MsPerDay
    ensures r.Ok? && a.Scanned? ==>
      r.value == (EpochDay(JulianDayNumber(a.day, a.month, a.year)), MsOfDay(a.hour, a.min, a.sec))
  {
    match a
    case Dash => Ok((openDay, openMs))
    case Unscannable => Err(UsageError)
    case Scanned(year, month, day, hour, min, sec) =>
      if !FieldsInRange(a) then Err(RangeError)
      else
        AfterEpoch(day, month, year);
        Ok((EpochDay(JulianDayNumber(day, month, year)), MsOfDay(hour, min, sec)))
  }

  predicate EndAfterStart(w: Window) {
    w.endDay > w.startDay || (w.endDay == w.startDay && w.endMs > w.startMs)
  }

  /** Both dates pass their checks, the end is after the start and the APID is a MODIS one. */
  predicate Accepted(start: DateArg, end: DateArg, apid: int) {
    var s := Bound(start, OpenStartDay, OpenStartMs);
    var e := Bound(end, OpenEndDay, OpenEndMs);
    && s.Ok?
    && e.Ok?
    && IsModisApid(apid)
    && EndAfterStart(Window(apid, s.value.0, s.value.1, e.value.0, e.value.1))
  }

  /**
   * The checks of pdsmerge in their order: start date, end date, end strictly after start,
   * APID within 64..127. The first that fails decides the exit code.
   */
  function SetupWindow(start: DateArg, end: DateArg, apid: int): (r: Result<Window, int>)
    ensures r.Ok? ==> EndAfterStart(r.value) && IsModisApid(r.value.apid) && r.value.apid == apid
    ensures r.Ok? <==> Accepted(start, end, apid)
    ensures r.Ok? ==> r.value.startDay >= 0 && r.value.startMs >= 0
    ensures r.Ok? ==>
      var s := Bound(start, OpenStartDay, OpenStartMs).value;
      var e := Bound(end, OpenEndDay, OpenEndMs).value;
      r.value == Window(apid, s.0, s.1, e.0, e.1)
    ensures Bound(start, OpenStartDay, OpenStartMs).Err? ==>
      r == Err(Bound(start, OpenStartDay, OpenStartMs).error)
    ensures Bound(start, OpenStartDay, OpenStartMs).Ok? && Bound(end, OpenEndDay, OpenEndMs).Err? ==>
      r == Err(Bound(end, OpenEndDay, OpenEndMs).error)
    ensures Bound(start, OpenStartDay, OpenStartMs).Ok? && Bound(end, OpenEndDay, OpenEndMs).Ok? && r.Err? ==>
      r.error == RangeError
  {
    match Bound(start, OpenStartDay, OpenStartMs)
    case Err(e) => Err(e)
    case Ok((sd, sms)) =>
      match Bound(end, OpenEndDay, OpenEndMs)
      case Err(e) => Err(e)
      case Ok((ed, ems)) =>
        if ed < sd || (ed == sd && ems <= sms) then Err(RangeError)
        else if apid < 64 || apid > 127 then Err(RangeError)
        else Ok(Window(apid, sd, sms, ed, ems))
  }

  /** A start of 1958-01-01 00:00:00 is day 0, millisecond 0. */
  lemma EpochStart()
    ensures Bound(Scanned(1958, 1, 1, 0, 0, 0), OpenStartDay, OpenStartMs) == Ok((0, 0))
  {
    EpochDayNumber();
  }
}
