/** The adapters between the retired day sheet (texts and hours) and the unified daily record (instants and
    minutes). Instants are nanoseconds of Asia/Shanghai wall-clock time, hours are exact numbers. */
module DailyAdapters {
  import opened AttendanceRecords
  import Intervals

  const MINUTE := Intervals.MINUTE
  const DAY := Intervals.DAY

  type MinuteOfDay = m: int | 0 <= m < 1440
  type NanoOfDay = n: int | 0 <= n < DAY witness 0

  /** What a time text says once trimmed. */
  datatype Body =
    | Blank
    | HourMinute(minute: MinuteOfDay)
    | HourMinuteSecond(nano: NanoOfDay)
    | DateMinute(day: int, minuteOfDate: MinuteOfDay)
    | DateSecond(dayOf: int, nanoOfDate: NanoOfDay)
    | Unreadable(text: int)

  datatype Text = Text(padded: bool, body: Body)

  const EMPTY_TEXT := Text(false, Blank)

  function Trim(t: Text): Text {
    t.(padded := false)
  }

  datatype Column = ShiftStart | ShiftEnd | ClockStart | ClockEnd | ShiftHours | DailyHours | ClockHours

  /** Keys of the free payload: the adapter's own, the source's three hour columns, any other. */
  datatype PayloadKey = Legacy(column: Column) | SourceHours(column: Column) | Other(name: int)

  /** A payload value; words may also read as a number. */
  datatype Value = Number(number: real) | Words(text: Text, parsed: Option<real>) | Opaque

  type Payload = map<PayloadKey, Value>

  datatype Summary = Summary(
    workDate: Option<int>,
    shiftStart: Text, shiftEnd: Text, clockStart: Text, clockEnd: Text,
    shiftHours: real, dailyHours: real, clockHours: real,
    payload: Payload)

  datatype Record = Record(
    workDate: Option<int>,
    scheduledStart: Option<int>, scheduledEnd: Option<int>, clockIn: Option<int>, clockOut: Option<int>,
    scheduledMinutes: int, requiredMinutes: int, workedMinutes: int,
    payload: Payload)

  function SummaryMinutes(hours: real): int {
    if hours <= 0.0 then 0 else (hours * 60.0 + 0.5).Floor
  }

  /** The instant a text means; a bare time of day belongs to the work date, if that is a date. */
  function SummaryTime(workDate: Option<int>, text: Text): Option<int> {
    match text.body
    case Blank => None
    case Unreadable(_) => None
    case DateSecond(d, n) => Some(d * DAY + n)
    case DateMinute(d, m) => Some(d * DAY + m * MINUTE)
    case HourMinuteSecond(n) => if workDate.Some? then Some(workDate.value * DAY + n) else None
    case HourMinute(m) => if workDate.Some? then Some(workDate.value * DAY + m * MINUTE) else None
  }

  function MinuteOf(t: int): MinuteOfDay {
    MinuteInRange(t);
    (t % DAY) / MINUTE
  }

  lemma MinuteInRange(t: int)
    ensures 0 <= (t % DAY) / MINUTE < 1440
  {
    assert DAY == 1440 * MINUTE;
  }

  function LegacyTime(payload: Payload, column: Column, value: Option<int>): Text {
    if Legacy(column) in payload && payload[Legacy(column)].Words? && payload[Legacy(column)].text.body != Blank then
      Trim(payload[Legacy(column)].text)
    else if value.None? then EMPTY_TEXT
    else Text(false, HourMinute(MinuteOf(value.value)))
  }

  function NumberAt(payload: Payload, key: PayloadKey): Option<real> {
    if key !in payload then None
    else match payload[key]
      case Number(x) => Some(x)
      case Words(_, parsed) => parsed
      case Opaque => None
  }

  function LegacyHours(payload: Payload, column: Column, minutes: int): real {
    var own, source := NumberAt(payload, Legacy(column)), NumberAt(payload, SourceHours(column));
    if own.Some? then own.value else if source.Some? then source.value else minutes as real / 60.0
  }

  function NextDay(t: Option<int>, move: bool): Option<int> {
    if t.Some? && move then Some(t.value + DAY) else t
  }

  method StampPayload(s: Summary) returns (payload: Payload)
    ensures payload == Stamped(s)
  {
    payload := s.payload;
    payload := payload[Legacy(ShiftStart) := Words(s.shiftStart, None)];
    payload := payload[Legacy(ShiftEnd) := Words(s.shiftEnd, None)];
    payload := payload[Legacy(ShiftHours) := Number(s.shiftHours)];
    payload := payload[Legacy(DailyHours) := Number(s.dailyHours)];
    payload := payload[Legacy(ClockHours) := Number(s.clockHours)];
    payload := payload[Legacy(ClockStart) := Words(s.clockStart, None)];
    payload := payload[Legacy(ClockEnd) := Words(s.clockEnd, None)];
  }

  method AttendanceDailyRecordFromSummary(s: Summary) returns (r: Record)
    ensures r == RecordFrom(s)
  {
    var payload := StampPayload(s);
    r := Record(s.workDate, None, None, None, None,
                SummaryMinutes(s.shiftHours), SummaryMinutes(s.dailyHours), SummaryMinutes(s.clockHours), payload);
    r := r.(scheduledStart := SummaryTime(s.workDate, s.shiftStart),
            scheduledEnd := SummaryTime(s.workDate, s.shiftEnd));
    r := r.(clockIn := SummaryTime(s.workDate, s.clockStart), clockOut := SummaryTime(s.workDate, s.clockEnd));
    if r.scheduledStart.Some? && r.scheduledEnd.Some? && r.scheduledEnd.value <= r.scheduledStart.value {
      r := r.(scheduledEnd := Some(r.scheduledEnd.value + DAY));
    }
    if r.clockIn.Some? && r.clockOut.Some? && r.clockOut.value < r.clockIn.value {
      r := r.(clockOut := Some(r.clockOut.value + DAY));
    }
  }

  function Stamped(s: Summary): Payload {
    s.payload + map[
      Legacy(ShiftStart) := Words(s.shiftStart, None), Legacy(ShiftEnd) := Words(s.shiftEnd, None),
      Legacy(ShiftHours) := Number(s.shiftHours), Legacy(DailyHours) := Number(s.dailyHours),
      Legacy(ClockHours) := Number(s.clockHours),
      Legacy(ClockStart) := Words(s.clockStart, None), Legacy(ClockEnd) := Words(s.clockEnd, None)]
  }

  function RecordFrom(s: Summary): Record {
    var start, end := SummaryTime(s.workDate, s.shiftStart), SummaryTime(s.workDate, s.shiftEnd);
    var clockIn, clockOut := SummaryTime(s.workDate, s.clockStart), SummaryTime(s.workDate, s.clockEnd);
    Record(s.workDate, start, NextDay(end, start.Some? && end.Some? && end.value <= start.value),
           clockIn, NextDay(clockOut, clockIn.Some? && clockOut.Some? && clockOut.value < clockIn.value),
           SummaryMinutes(s.shiftHours), SummaryMinutes(s.dailyHours), SummaryMinutes(s.clockHours), Stamped(s))
  }

  function SummaryFrom(r: Record): Summary {
    Summary(r.workDate,
            LegacyTime(r.payload, ShiftStart, r.scheduledStart), LegacyTime(r.payload, ShiftEnd, r.scheduledEnd),
            LegacyTime(r.payload, ClockStart, r.clockIn), LegacyTime(r.payload, ClockEnd, r.clockOut),
            LegacyHours(r.payload, ShiftHours, r.scheduledMinutes),
            LegacyHours(r.payload, DailyHours, r.requiredMinutes),
            LegacyHours(r.payload, ClockHours, r.workedMinutes), r.payload)
  }

  /** Day sheet to record and back: the texts return trimmed, even unreadable ones, the hours exactly. */
  lemma SummaryRoundTrip(s: Summary)
    ensures var back := SummaryFrom(RecordFrom(s));
      && back.shiftStart == Trim(s.shiftStart) && back.shiftEnd == Trim(s.shiftEnd)
      && back.clockStart == Trim(s.clockStart) && back.clockEnd == Trim(s.clockEnd)
      && back.shiftHours == s.shiftHours && back.dailyHours == s.dailyHours && back.clockHours == s.clockHours
      && back.workDate == s.workDate
  {
    var r := RecordFrom(s);
    TextReturns(s, ShiftStart, s.shiftStart, r.scheduledStart);
    TextReturns(s, ShiftEnd, s.shiftEnd, r.scheduledEnd);
    TextReturns(s, ClockStart, s.clockStart, r.clockIn);
    TextReturns(s, ClockEnd, s.clockEnd, r.clockOut);
  }

  lemma TextReturns(s: Summary, column: Column, text: Text, value: Option<int>)
    requires Legacy(column) in Stamped(s) && Stamped(s)[Legacy(column)] == Words(text, None)
    requires text.body == Blank ==> value.None?
    ensures LegacyTime(Stamped(s), column, value) == Trim(text)
  {
  }

  // ------------------------------------------------------- record and back

  /** None of the keys the adapter reads. */
  predicate PlainPayload(p: Payload) {
    forall key | key in p :: key.Other?
  }

  predicate OnMinute(t: int) {
    t % MINUTE == 0
  }

  predicate OnDay(t: int, day: int) {
    t / DAY == day
  }

  /** An instant and the one its time of day means on the work date are a whole number of days apart
      exactly when it is on a minute. */
  lemma Reparsed(day: int, t: int)
    ensures var back := day * DAY + MinuteOf(t) * MINUTE;
      && OnDay(back, day) && OnMinute(back) && back <= t - (t / DAY - day) * DAY < back + MINUTE
      && (OnMinute(t) <==> back == t - (t / DAY - day) * DAY)
  {
    MinuteInRange(t);
    var n := t % DAY;
    assert t == (t / DAY) * DAY + n;
    assert n == (n / MINUTE) * MINUTE + n % MINUTE;
    assert DAY == 1440 * MINUTE;
    WholeDays(t / DAY, n);
    WholeDays(day, MinuteOf(t) * MINUTE);
    assert 0 <= MinuteOf(t) * MINUTE < DAY;
  }

  lemma WholeDays(d: int, n: int)
    requires 0 <= n < DAY
    ensures (d * DAY + n) / DAY == d
    ensures (d * DAY + n) % MINUTE == n % MINUTE
  {
    WholeMinutes(1440 * d, n);
    assert d * DAY == (1440 * d) * MINUTE;
  }

  lemma WholeMinutes(k: int, n: int)
    ensures (k * MINUTE + n) % MINUTE == n % MINUTE
  {
    var q := n / MINUTE;
    assert n == q * MINUTE + n % MINUTE;
    assert k * MINUTE + n == (k + q) * MINUTE + n % MINUTE;
  }

  /** Between two instants less than a day apart a whole number of days is none. */
  lemma SameWithinADay(a: int, b: int, k: int)
    requires a == b + k * DAY && -DAY < a - b < DAY
    ensures k == 0
  {
  }

  /** Within the day after a start, which itself counts or not. */
  predicate Within(start: int, end: int, strict: bool) {
    if strict then start < end <= start + DAY else start <= end < start + DAY
  }

  /** When an end, read back after its start, is the one that went in: it is on a minute and within the
      day after the start. */
  lemma EndReturns(day: int, start: int, end: int, strict: bool)
    requires OnDay(start, day)
    ensures var e := day * DAY + MinuteOf(end) * MINUTE;
            var back := if (if strict then e <= start else e < start) then e + DAY else e;
      back == end <==> OnMinute(end) && Within(start, end, strict)
  {
    var e := day * DAY + MinuteOf(end) * MINUTE;
    Reparsed(day, end);
    var back := if (if strict then e <= start else e < start) then e + DAY else e;
    assert day * DAY <= start < day * DAY + DAY;
    assert day * DAY <= e < day * DAY + DAY;
    if OnMinute(end) && Within(start, end, strict) {
      var k := end / DAY - day;
      assert e == end - k * DAY;
      SameWithinADay(back, end, if back == e then -k else 1 - k);
    }
  }

  /** A start that is read back as it was. */
  predicate StartFits(day: Option<int>, t: Option<int>) {
    t.Some? ==> day.Some? && OnDay(t.value, day.value) && OnMinute(t.value)
  }

  /** An end, or a clock-out, that is read back as it was; without a start it must fit like one. */
  predicate EndFits(day: Option<int>, start: Option<int>, end: Option<int>, strict: bool) {
    if start.None? then StartFits(day, end)
    else end.None? || (day.Some? && OnMinute(end.value) && Within(start.value, end.value, strict))
  }

  lemma MinutesReturn(m: int)
    ensures SummaryMinutes(m as real / 60.0) == m <==> m >= 0
  {
    if m > 0 {
      assert (m as real / 60.0) * 60.0 == m as real;
      assert (m as real + 0.5).Floor == m;
    }
  }

  lemma StartReturns(day: Option<int>, t: Option<int>)
    ensures SummaryTime(day, LegacyTime(map[], ShiftStart, t)) == t <==> StartFits(day, t)
  {
    if t.Some? && day.Some? {
      Reparsed(day.value, t.value);
    }
  }

  /** Record to day sheet and back, exactly: for a record without the adapter's payload keys, all seven
      values return if and only if the minute counts are not negative, the starts are on a minute of the
      work date, the scheduled end is on a minute within the day after the start, and the clock-out on
      one within a day from the clock-in. */
  lemma RecordRoundTripExactly(r: Record)
    requires PlainPayload(r.payload)
    ensures var back := RecordFrom(SummaryFrom(r));
      && (back.scheduledMinutes == r.scheduledMinutes <==> r.scheduledMinutes >= 0)
      && (back.requiredMinutes == r.requiredMinutes <==> r.requiredMinutes >= 0)
      && (back.workedMinutes == r.workedMinutes <==> r.workedMinutes >= 0)
      && (back.scheduledStart == r.scheduledStart && back.scheduledEnd == r.scheduledEnd <==>
            StartFits(r.workDate, r.scheduledStart) && EndFits(r.workDate, r.scheduledStart, r.scheduledEnd, true))
      && (back.clockIn == r.clockIn && back.clockOut == r.clockOut <==>
            StartFits(r.workDate, r.clockIn) && EndFits(r.workDate, r.clockIn, r.clockOut, false))
  {
    MinutesReturn(r.scheduledMinutes);
    MinutesReturn(r.requiredMinutes);
    MinutesReturn(r.workedMinutes);
    PairReturns(r.workDate, r.scheduledStart, r.scheduledEnd, true);
    PairReturns(r.workDate, r.clockIn, r.clockOut, false);
  }

  function TextOf(t: Option<int>): Text {
    if t.None? then EMPTY_TEXT else Text(false, HourMinute(MinuteOf(t.value)))
  }

  lemma PairReturns(day: Option<int>, start: Option<int>, end: Option<int>, strict: bool)
    ensures var s, e := SummaryTime(day, TextOf(start)), SummaryTime(day, TextOf(end));
      var over := s.Some? && e.Some? && (if strict then e.value <= s.value else e.value < s.value);
      (s == start && NextDay(e, over) == end)
        <==> StartFits(day, start) && EndFits(day, start, end, strict)
  {
    StartReturns(day, start);
    if StartFits(day, start) {
      if start.None? {
        StartReturns(day, end);
      } else if end.Some? {
        EndReturns(day.value, start.value, end.value, strict);
      }
    }
  }

  // --------------------------------------------- what texts and hours mean

  /** Hours in minutes, to the nearest, halves up; none for a negative number. */
  lemma HoursExactly(hours: real)
    ensures var m := SummaryMinutes(hours);
      && (hours <= 0.0 ==> m == 0)
      && (hours > 0.0 ==> m as real - 0.5 <= hours * 60.0 < m as real + 0.5 && m >= 0)
  {
  }

  /** The instant a time text means: one that carries a date means that date whatever the work date; a bare
      time of day means the work date, and nothing without one; seconds are kept, padding does not matter. */
  lemma TimesExactly(day: Option<int>, text: Text, t: int)
    ensures var b := text.body;
      SummaryTime(day, text) == Some(t) <==>
        || (b.DateSecond? && t / DAY == b.dayOf && t % DAY == b.nanoOfDate)
        || (b.DateMinute? && t / DAY == b.day && t % DAY == b.minuteOfDate * MINUTE)
        || (b.HourMinuteSecond? && day == Some(t / DAY) && t % DAY == b.nano)
        || (b.HourMinute? && day == Some(t / DAY) && t % DAY == b.minute * MINUTE)
  {
    assert t == (t / DAY) * DAY + t % DAY && 0 <= t % DAY < DAY;
    match text.body
    case Blank =>
    case Unreadable(_) =>
    case DateSecond(d, n) => SplitInstant(d, n);
    case DateMinute(d, m) => SplitInstant(d, m * MINUTE);
    case HourMinuteSecond(n) => if day.Some? { SplitInstant(day.value, n); }
    case HourMinute(m) => if day.Some? { SplitInstant(day.value, m * MINUTE); }
  }

  lemma SplitInstant(day: int, n: int)
    requires 0 <= n < DAY
    ensures (day * DAY + n) / DAY == day && (day * DAY + n) % DAY == n
  {
  }

  /** The scheduled end falls within the day after the start, the clock-out within the day from the
      clock-in, whenever both are bare times of day. */
  lemma EndsFollow(s: Summary, day: int)
    requires s.workDate == Some(day)
    requires forall text | text in [s.shiftStart, s.shiftEnd, s.clockStart, s.clockEnd] ::
      text.body.HourMinute? || text.body.HourMinuteSecond?
    ensures var r := RecordFrom(s);
      && r.scheduledStart.Some? && r.scheduledEnd.Some? && r.clockIn.Some? && r.clockOut.Some?
      && r.scheduledStart.value < r.scheduledEnd.value <= r.scheduledStart.value + DAY
      && r.clockIn.value <= r.clockOut.value < r.clockIn.value + DAY
  {
    BareTime(day, s.shiftStart);
    BareTime(day, s.shiftEnd);
    BareTime(day, s.clockStart);
    BareTime(day, s.clockEnd);
  }

  lemma BareTime(day: int, text: Text)
    requires text.body.HourMinute? || text.body.HourMinuteSecond?
    ensures SummaryTime(Some(day), text).Some?
    ensures day * DAY <= SummaryTime(Some(day), text).value < day * DAY + DAY
  {
  }

  /** Nothing else of a payload is lost on the way to a record, and nothing at all on the way back. */
  lemma PayloadsKept(s: Summary, r: Record, key: PayloadKey)
    ensures !key.Legacy? ==> (key in RecordFrom(s).payload <==> key in s.payload)
    ensures !key.Legacy? && key in s.payload ==> RecordFrom(s).payload[key] == s.payload[key]
    ensures SummaryFrom(r).payload == r.payload && SummaryFrom(r).workDate == r.workDate
  {
  }

  /** Which hours a sheet shows: the ones stamped on the record, else the source's own column, else the
      record's minutes. */
  lemma HoursShownExactly(payload: Payload, column: Column, minutes: int)
    ensures var shown := LegacyHours(payload, column, minutes);
            var own, source := NumberAt(payload, Legacy(column)), NumberAt(payload, SourceHours(column));
      && (own != None ==> own == Some(shown))
      && (own == None && source != None ==> source == Some(shown))
      && (own == None && source == None ==> shown * 60.0 == minutes as real)
  {
  }

  /** Which time it shows: the stamped text without its padding unless that is blank, else the minute of the
      day of the record's instant, else nothing. */
  lemma TimeShownExactly(payload: Payload, column: Column, value: Option<int>)
    ensures var shown := LegacyTime(payload, column, value);
            var stamped := Legacy(column) in payload && payload[Legacy(column)].Words?
                           && payload[Legacy(column)].text.body != Blank;
      && !shown.padded
      && (stamped ==> shown.body == payload[Legacy(column)].text.body)
      && (!stamped && value == None ==> shown.body == Blank)
      && (!stamped && value != None ==>
            && shown.body.HourMinute?
            && shown.body.minute * MINUTE <= value.value % DAY < (shown.body.minute + 1) * MINUTE)
  {
    if value.Some? {
      MinuteInRange(value.value);
    }
  }
}
