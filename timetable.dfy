/** The teacher's "take attendance" page picks the current subject: the first of today's
    timetable slots whose `start`..`end` window (clock strings `HH:MM`) contains the time now. */
module Timetable {
  import opened Wrappers

  /** Microseconds in a minute: `datetime.time` compares to the microsecond. */
  const MicrosPerMinute: nat := 60_000_000

  /** The columns of a timetable row that the lookup reads. */
  datatype Slot = Slot(subject: string, start: string, end: string)

  /** The current subject and its `"start - end"` time range, or none. */
  datatype Current = NoCurrent | Now(index: nat, subject: string, slotTime: string)

  predicate IsDigit(c: char)
  {
    '0' <= c <= '9'
  }

  function DigitVal(c: char): nat
    requires IsDigit(c)
  {
    (c - '0') as nat
  }

  /** `%H`: one digit, or two digits from `00` to `23`. */
  function ParseHour(s: string): (r: Option<nat>)
    ensures r.Some? ==> r.value < 24
  {
    if |s| == 1 && IsDigit(s[0]) then Some(DigitVal(s[0]))
    else if |s| == 2 && IsDigit(s[0]) && IsDigit(s[1]) && 10 * DigitVal(s[0]) + DigitVal(s[1]) < 24 then
      Some(10 * DigitVal(s[0]) + DigitVal(s[1]))
    else None
  }

  /** `%M`: one digit, or two digits whose first is `0` to `5`. */
  function ParseMinute(s: string): (r: Option<nat>)
    ensures r.Some? ==> r.value < 60
  {
    if |s| == 1 && IsDigit(s[0]) then Some(DigitVal(s[0]))
    else if |s| == 2 && '0' <= s[0] <= '5' && IsDigit(s[1]) then Some(10 * DigitVal(s[0]) + DigitVal(s[1]))
    else None
  }

  /** `datetime.strptime(s, '%H:%M').time()` as minutes since midnight; `None` where
      `strptime` raises. The hour is one or two characters, so the colon is at index 1 or 2. */
  function ParseClock(s: string): (r: Option<nat>)
    ensures r.Some? ==> r.value < 24 * 60
  {
    if |s| >= 2 && s[1] == ':' then
      match (ParseHour(s[..1]), ParseMinute(s[2..]))
      case (Some(h), Some(m)) => Some(60 * h + m)
      case _ => None
    else if |s| >= 3 && s[2] == ':' then
      match (ParseHour(s[..2]), ParseMinute(s[3..]))
      case (Some(h), Some(m)) => Some(60 * h + m)
      case _ => None
    else None
  }

  function TwoDigits(n: nat): (s: string)
    requires n < 100
  {
    [(n / 10) as char + '0', (n % 10) as char + '0']
  }

  /** `time.strftime('%H:%M')`, the form the timetable stores. */
  function FormatClock(minutes: nat): (s: string)
    requires minutes < 24 * 60
  {
    TwoDigits(minutes / 60) + ":" + TwoDigits(minutes % 60)
  }

  /** Every stored clock string reads back as the time it was written from. */
  lemma ClockRoundTrip(minutes: nat)
    requires minutes < 24 * 60
    ensures ParseClock(FormatClock(minutes)) == Some(minutes)
  {
    var s := FormatClock(minutes);
    assert s[..2] == TwoDigits(minutes / 60);
    assert s[3..] == TwoDigits(minutes % 60);
  }

  /** Both ends of the slot parse. */
  predicate Parses(t: Slot)
  {
    ParseClock(t.start).Some? && ParseClock(t.end).Some?
  }

  /** `s <= nowt <= e` for a slot whose ends parse. */
  predicate InWindow(t: Slot, now: nat)
    requires Parses(t)
  {
    ParseClock(t.start).value * MicrosPerMinute <= now <= ParseClock(t.end).value * MicrosPerMinute
  }

  /** The first `i` slots are passed over: they parse and their windows miss `now`. */
  predicate PassedOver(todays: seq<Slot>, i: nat, now: nat)
    requires i <= |todays|
  {
    forall j :: 0 <= j < i ==> Parses(todays[j]) && !InWindow(todays[j], now)
  }

  /** The lookup loop: the first slot whose window contains `now`, with its time range; none when
      every slot is passed over; an error at the first slot whose start or end does not parse,
      since `strptime` raises there. */
  method CurrentSubject(todays: seq<Slot>, now: nat) returns (r: Result<Current, nat>)
    ensures r.Ok? && r.value.Now? ==>
      var i := r.value.index;
      && i < |todays| && PassedOver(todays, i, now)
      && Parses(todays[i]) && InWindow(todays[i], now)
      && r.value.subject == todays[i].subject
      && r.value.slotTime == todays[i].start + " - " + todays[i].end
    ensures r.Ok? && r.value.NoCurrent? ==> PassedOver(todays, |todays|, now)
    ensures r.Err? ==> r.error < |todays| && PassedOver(todays, r.error, now) && !Parses(todays[r.error])
  {
    var i := 0;
    while i < |todays|
      invariant 0 <= i <= |todays|
      invariant PassedOver(todays, i, now)
    {
      var t := todays[i];
      var s := ParseClock(t.start);
      if s.None? {
        return Err(i);
      }
      var e := ParseClock(t.end);
      if e.None? {
        return Err(i);
      }
      if s.value * MicrosPerMinute <= now <= e.value * MicrosPerMinute {
        return Ok(Now(i, t.subject, t.start + " - " + t.end));
      }
      i := i + 1;
    }
    r := Ok(NoCurrent);
  }
}
