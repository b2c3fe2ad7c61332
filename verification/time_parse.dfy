/** `parseTime`, shared by the daily dashboard and the employee calendar, and
    the `toTimeString().split(' ')[0]` rendering of its result.

    A parsed time is a JavaScript `Date` pinned to the day of the epoch: a
    `Stamp` on the millisecond timeline, or the Invalid Date object (which is
    truthy but fails every comparison). `null` is `None`. The host fixes the
    local time zone (a constant offset from UTC) and the engine's
    `new Date(str)` parser, of which only the UTC clock of the instant matters. */
module TimeParse {
  import opened Wrappers
  import opened JsText

  const MS_PER_SECOND: int := 1000
  const MS_PER_MINUTE: int := 60000
  const MS_PER_HOUR: int := 3600000
  const MS_PER_DAY: int := 86400000

  /** Clock components as `getUTCHours()`, `getUTCMinutes()`, `getUTCSeconds()` give them. */
  datatype Clock = Clock(hours: int, minutes: int, seconds: int)

  predicate ValidClock(c: Clock)
  {
    0 <= c.hours < 24 && 0 <= c.minutes < 60 && 0 <= c.seconds < 60
  }

  /** The JavaScript host: local time is UTC plus `utcOffsetMs`; `utcClockOf(s)` is the
      UTC clock of `new Date(s)`, or `None` when that date is NaN. */
  datatype Host = Host(utcOffsetMs: int, utcClockOf: string -> Option<Clock>)

  /** A `Date` value: an instant in milliseconds since the epoch, or Invalid Date. */
  datatype Stamp = InvalidDate | At(ms: int)

  function ClockMs(h: int, m: int, s: int): int
  {
    h * MS_PER_HOUR + m * MS_PER_MINUTE + s * MS_PER_SECOND
  }

  /** Where `new Date(0).setHours(0, 0, 0, 0)` lands: local midnight of the local
      day that contains the epoch. */
  function LocalMidnight(host: Host): (t: int)
    ensures (t + host.utcOffsetMs) % MS_PER_DAY == 0
    ensures -MS_PER_DAY < t <= 0
  {
    (host.utcOffsetMs / MS_PER_DAY) * MS_PER_DAY - host.utcOffsetMs
  }

  /** `Number(part)` as `setHours` coerces it: digit strings (the empty one reads as 0)
      have their decimal value; any other string is NaN, here `None`. */
  function NumberOf(part: string): (r: Option<int>)
    ensures r.Some? <==> AllDigits(part)
    ensures r.Some? ==> r.value >= 0
  {
    if AllDigits(part) then Some(DigitsValue(part)) else None
  }

  /** First branch of `parseTime`: `[h, m, s] = str.split(':')` then
      `new Date(0).setHours(h, m, s || 0, 0)`. A NaN component gives Invalid Date. */
  function BareTime(host: Host, s: string): (r: Stamp)
    requires ':' in s
    ensures var parts := Split(s, ':');
      |parts| >= 2
      && (r == InvalidDate <==>
            !AllDigits(parts[0]) || !AllDigits(parts[1]) || (|parts| > 2 && !AllDigits(parts[2])))
    ensures r.At? ==> r.ms >= LocalMidnight(host)
  {
    SplitCount(s, ':');
    var parts := Split(s, ':');
    var sec := if |parts| > 2 && parts[2] != "" then NumberOf(parts[2]) else Some(0);
    match (NumberOf(parts[0]), NumberOf(parts[1]), sec)
    case (Some(h), Some(m), Some(x)) => At(LocalMidnight(host) + ClockMs(h, m, x))
    case _ => InvalidDate
  }

  /** `parseTime`: a falsy value is `null`; a string of at most 8 characters holding
      a colon is read as local `H:M[:S]`; anything else goes through `new Date(str)`
      and keeps only its UTC clock, pinned to the epoch's UTC day. It never throws. */
  function ParseTime(host: Host, raw: Option<string>): (r: Option<Stamp>)
    ensures raw == None || raw == Some("") ==> r == None
    ensures raw.Some? && 0 < |raw.value| <= 8 && ':' in raw.value ==> r.Some?
    ensures r == Some(InvalidDate) ==> raw.Some? && |raw.value| <= 8 && ':' in raw.value
    ensures raw.Some? && !(|raw.value| <= 8 && ':' in raw.value) ==>
      (r == None <==> raw.value == "" || host.utcClockOf(raw.value) == None)
  {
    match raw
    case None => None
    case Some(s) =>
      if s == "" then None
      else if |s| <= 8 && ':' in s then Some(BareTime(host, s))
      else
        match host.utcClockOf(s)
        case None => None
        case Some(c) => Some(At(ClockMs(c.hours, c.minutes, c.seconds)))
  }

  /** The canonical `HH:MM:SS` text of a clock reading. */
  function ClockText(h: nat, m: nat, s: nat): string
  {
    Pad2(h) + ":" + Pad2(m) + ":" + Pad2(s)
  }

  /** Splitting on a separator that does not occur gives the whole string back. */
  lemma SplitNone(a: string, sep: char)
    requires sep !in a
    ensures Split(a, sep) == [a]
  {
    SplitJoin(a, sep);
  }

  lemma {:induction false} ClockTextSplit(h: nat, m: nat, s: nat)
    requires h < 100 && m < 100 && s < 100
    ensures |ClockText(h, m, s)| == 8 && ':' in ClockText(h, m, s)
    ensures Split(ClockText(h, m, s), ':') == [Pad2(h), Pad2(m), Pad2(s)]
  {
    Pad2RoundTrip(h);
    Pad2RoundTrip(m);
    Pad2RoundTrip(s);
    NoColonInDigits(Pad2(h));
    NoColonInDigits(Pad2(m));
    NoColonInDigits(Pad2(s));
    ThreeFieldSplit(Pad2(h), Pad2(m), Pad2(s));
    assert ClockText(h, m, s)[2] == ':';
  }

  lemma NoColonInDigits(a: string)
    requires AllDigits(a)
    ensures ':' !in a
  {
  }

  /** Three colon-free fields joined by colons split back into those fields. */
  lemma ThreeFieldSplit(a: string, b: string, c: string)
    requires ':' !in a && ':' !in b && ':' !in c
    ensures Split(a + ":" + b + ":" + c, ':') == [a, b, c]
  {
    var tail := b + [':'] + c;
    assert a + ":" + b + ":" + c == a + [':'] + tail;
    SplitNone(c, ':');
    SplitAfter(b, ':', c);
    SplitAfter(a, ':', tail);
  }

  lemma BareTimeOfParts(host: Host, text: string, a: string, b: string, c: string, x: int, y: int, z: int)
    requires ':' in text && Split(text, ':') == [a, b, c] && c != ""
    requires NumberOf(a) == Some(x) && NumberOf(b) == Some(y) && NumberOf(c) == Some(z)
    ensures BareTime(host, text) == At(LocalMidnight(host) + ClockMs(x, y, z))
  {
  }

  lemma BareTimeOfTwoParts(host: Host, text: string, a: string, b: string, x: int, y: int)
    requires ':' in text && Split(text, ':') == [a, b]
    requires NumberOf(a) == Some(x) && NumberOf(b) == Some(y)
    ensures BareTime(host, text) == At(LocalMidnight(host) + ClockMs(x, y, 0))
  {
  }

  lemma NumberOfPad2(n: nat)
    requires n < 100
    ensures NumberOf(Pad2(n)) == Some(n) && Pad2(n) != ""
  {
    Pad2RoundTrip(n);
  }

  /** A bare `H:M:S` string of digit fields is the local clock reading it spells. */
  lemma {:induction false} ParseBare(host: Host, h: nat, m: nat, s: nat)
    requires h < 100 && m < 100 && s < 100
    ensures ParseTime(host, Some(ClockText(h, m, s))) == Some(At(LocalMidnight(host) + ClockMs(h, m, s)))
  {
    var text := ClockText(h, m, s);
    ClockTextSplit(h, m, s);
    assert ParseTime(host, Some(text)) == Some(BareTime(host, text));
    NumberOfPad2(h);
    NumberOfPad2(m);
    NumberOfPad2(s);
    BareTimeOfParts(host, text, Pad2(h), Pad2(m), Pad2(s), h, m, s);
  }

  /** A bare `H:M` string without seconds reads the seconds as 0. */
  lemma {:induction false} ParseBareNoSeconds(host: Host, h: nat, m: nat)
    requires h < 100 && m < 100
    ensures ParseTime(host, Some(Pad2(h) + ":" + Pad2(m))) == Some(At(LocalMidnight(host) + ClockMs(h, m, 0)))
  {
    var text := Pad2(h) + ":" + Pad2(m);
    Pad2RoundTrip(h);
    Pad2RoundTrip(m);
    assert text == Pad2(h) + [':'] + Pad2(m);
    assert |text| == 5 && text[2] == ':';
    SplitNone(Pad2(m), ':');
    SplitAfter(Pad2(h), ':', Pad2(m));
    assert ParseTime(host, Some(text)) == Some(BareTime(host, text));
    NumberOfPad2(h);
    NumberOfPad2(m);
    BareTimeOfTwoParts(host, text, Pad2(h), Pad2(m), h, m);
  }

  /** The fixed comparison points `parseTime("11:00:00")`, `parseTime("10:30:00")`
      and `parseTime("17:30:00")`: by `ClockLiterals` and `ParseBare` (seconds 0)
      each is the local clock reading it spells. */
  function Threshold(host: Host, h: nat, m: nat): int
  {
    LocalMidnight(host) + ClockMs(h, m, 0)
  }

  lemma ClockLiterals()
    ensures ClockText(11, 0, 0) == "11:00:00"
    ensures ClockText(10, 30, 0) == "10:30:00"
    ensures ClockText(17, 30, 0) == "17:30:00"
  {
    assert Pad2(0) == "00";
    assert Pad2(11) == "11";
    assert Pad2(10) == "10";
    assert Pad2(30) == "30";
    assert Pad2(17) == "17";
  }

  /** The three literals of the tier cascade parse to the thresholds it compares against. */
  lemma ThresholdLiterals(host: Host)
    ensures ParseTime(host, Some("11:00:00")) == Some(At(Threshold(host, 11, 0)))
    ensures ParseTime(host, Some("10:30:00")) == Some(At(Threshold(host, 10, 30)))
    ensures ParseTime(host, Some("17:30:00")) == Some(At(Threshold(host, 17, 30)))
  {
    ClockLiterals();
    ThresholdText(host, "11:00:00", 11, 0);
    ThresholdText(host, "10:30:00", 10, 30);
    ThresholdText(host, "17:30:00", 17, 30);
  }

  lemma ThresholdText(host: Host, text: string, h: nat, m: nat)
    requires h < 24 && m < 60 && text == ClockText(h, m, 0)
    ensures ParseTime(host, Some(text)) == Some(At(Threshold(host, h, m)))
  {
    ParseBare(host, h, m, 0);
  }

  /** The two branches agree on a clock reading only on a host whose local
      midnight is UTC midnight: elsewhere a bare `09:15:00` and a timestamp whose
      stored UTC clock reads 09:15:00 parse to instants one zone offset apart. */
  lemma {:induction false} BranchesAgreeOnlyAtUtc(host: Host, ts: string, c: Clock)
    requires |ts| > 8 && host.utcClockOf(ts) == Some(c) && ValidClock(c)
    ensures ParseTime(host, Some(ts)) == Some(At(ClockMs(c.hours, c.minutes, c.seconds)))
    ensures ParseTime(host, Some(ClockText(c.hours, c.minutes, c.seconds))) == ParseTime(host, Some(ts))
      <==> host.utcOffsetMs % MS_PER_DAY == 0
  {
    TimestampParse(host, ts, c);
    ParseBare(host, c.hours, c.minutes, c.seconds);
    MidnightOffset(host);
  }

  lemma TimestampParse(host: Host, ts: string, c: Clock)
    requires |ts| > 8 && host.utcClockOf(ts) == Some(c)
    ensures ParseTime(host, Some(ts)) == Some(At(ClockMs(c.hours, c.minutes, c.seconds)))
  {
  }

  /** Local midnight lies behind UTC by the offset's remainder within a day. */
  lemma MidnightOffset(host: Host)
    ensures LocalMidnight(host) == -(host.utcOffsetMs % MS_PER_DAY)
  {
    var o := host.utcOffsetMs;
    assert o == (o / MS_PER_DAY) * MS_PER_DAY + o % MS_PER_DAY;
  }

  /** `toTimeString().split(' ')[0]`: the local `HH:MM:SS` of a valid date, and
      `"Invalid"` for Invalid Date. */
  function TimeText(host: Host, t: Stamp): (r: string)
    ensures r == "Invalid" <==> t == InvalidDate
    ensures t.At? ==> |r| == 8 && r[2] == ':' && r[5] == ':' && AllDigits(r[..2] + r[3..5] + r[6..])
  {
    match t
    case InvalidDate => "Invalid"
    case At(ms) =>
      var ofDay := (ms + host.utcOffsetMs) % MS_PER_DAY;
      var h, m, s := ofDay / MS_PER_HOUR, (ofDay / MS_PER_MINUTE) % 60, (ofDay / MS_PER_SECOND) % 60;
      ClockTextShape(h, m, s);
      ClockText(h, m, s)
  }

  /** Three fields below 100 make an 8-character `DD:DD:DD` text. */
  lemma ClockTextShape(h: nat, m: nat, s: nat)
    requires h < 100 && m < 100 && s < 100
    ensures var r := ClockText(h, m, s);
      |r| == 8 && r[2] == ':' && r[5] == ':' && AllDigits(r[..2] + r[3..5] + r[6..])
  {
    Pad2RoundTrip(h);
    Pad2RoundTrip(m);
    Pad2RoundTrip(s);
    var r := ClockText(h, m, s);
    assert r[..2] + r[3..5] + r[6..] == Pad2(h) + Pad2(m) + Pad2(s);
  }

  /** Displaying what a bare `HH:MM:SS` string parsed to gives the string back
      (`ParseBare` gives the parse). */
  lemma {:induction false} BareTextRoundTrip(host: Host, c: Clock)
    requires ValidClock(c)
    ensures TimeText(host, At(LocalMidnight(host) + ClockMs(c.hours, c.minutes, c.seconds)))
      == ClockText(c.hours, c.minutes, c.seconds)
  {
    var k := ClockMs(c.hours, c.minutes, c.seconds);
    LocalOfDay(host, k);
    ClockFields(c);
  }

  /** A local reading of `k` milliseconds after local midnight shows as `k` into the day. */
  lemma LocalOfDay(host: Host, k: int)
    requires 0 <= k < MS_PER_DAY
    ensures (LocalMidnight(host) + k + host.utcOffsetMs) % MS_PER_DAY == k
  {
    var q := host.utcOffsetMs / MS_PER_DAY;
    assert LocalMidnight(host) + k + host.utcOffsetMs == q * MS_PER_DAY + k;
    ModDayShift(q, k);
  }

  lemma ModDayShift(q: int, k: int)
    requires 0 <= k < MS_PER_DAY
    ensures (q * MS_PER_DAY + k) % MS_PER_DAY == k
  {
  }

  lemma ClockFields(c: Clock)
    requires ValidClock(c)
    ensures var k := ClockMs(c.hours, c.minutes, c.seconds);
      k / MS_PER_HOUR == c.hours && (k / MS_PER_MINUTE) % 60 == c.minutes
      && (k / MS_PER_SECOND) % 60 == c.seconds
  {
    var k := ClockMs(c.hours, c.minutes, c.seconds);
    assert k / MS_PER_SECOND == c.hours * 3600 + c.minutes * 60 + c.seconds;
    assert k / MS_PER_MINUTE == c.hours * 60 + c.minutes;
  }

  /** The value shown for an optional time: `'—'` when there is none. */
  function DisplayTime(host: Host, t: Option<Stamp>): (r: string)
    ensures t == None <==> r == "—"
  {
    match t
    case None => "—"
    case Some(s) => TimeText(host, s)
  }
}
