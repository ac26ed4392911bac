/**
 `human_uptime`: SNMP TimeTicks (hundredths of a second, section 7.1.8 of
 RFC 2578) rendered the way Python's `str(timedelta(seconds=n))` renders a
 non-negative duration: `H:MM:SS`, preceded by `D day, ` or `D days, ` once
 the duration reaches a whole day.
 */
module Uptime {
  import opened Wrappers
  import opened Decimal
  import opened Seqs

  const TicksPerSecond: nat := 100
  const SecondsPerDay: nat := 86400

  /** `%02d` of a number below 100. */
  function Pad2(n: nat): (r: string)
    requires n < 100
    ensures |r| == 2 && AllDigits(r) && DigitsValue(r) == n
    ensures DigitValue(r[0]) * 10 + DigitValue(r[1]) == n
  {
    var r := [DigitChar(n / 10), DigitChar(n % 10)];
    var hi := [DigitChar(n / 10)];
    assert r[..1] == hi && hi[..0] == [];
    assert DigitsValue(hi) == n / 10;
    assert DigitsValue(r) == DigitsValue(hi) * 10 + n % 10;
    r
  }

  /** `"%d:%02d:%02d" % (hh, mm, ss)` for the seconds within one day. */
  function Clock(n: nat): string
    requires n < SecondsPerDay
  {
    NatToDecimal(n / 3600) + ":" + Pad2(n / 60 % 60) + ":" + Pad2(n % 60)
  }

  /** The day part: empty for no whole day, "1 day, " for one, "D days, " otherwise. */
  function DayPrefix(days: nat): string {
    if days == 0 then "" else NatToDecimal(days) + DaySeparator(days)
  }

  /** What follows the day count: singular for exactly one day. */
  function DaySeparator(days: nat): (sep: string)
    ensures |sep| > 0 && sep[0] == ' '
  {
    if days == 1 then " day, " else " days, "
  }

  /** `str(timedelta(seconds=n))` for n >= 0. */
  function Duration(seconds: nat): string {
    DayPrefix(seconds / SecondsPerDay) + Clock(seconds % SecondsPerDay)
  }

  /** `human_uptime(timeticks)`: "n/a" when absent, else the duration of ticks // 100 seconds. */
  function HumanUptime(ticks: Option<nat>): string {
    match ticks
    case None => "n/a"
    case Some(t) => Duration(t / TicksPerSecond)
  }

  // ----- Reading a rendered duration back -----

  /** The first position of c in s, or |s| when c does not occur. */
  function IndexOf(s: string, c: char): (i: nat)
    ensures i <= |s|
    ensures forall j :: 0 <= j < i ==> s[j] != c
    ensures i < |s| ==> s[i] == c
  {
    if s == [] then 0 else if s[0] == c then 0 else 1 + IndexOf(s[1..], c)
  }

  /** The value of two decimal digits, if both are digits. */
  function TwoDigits(hi: char, lo: char): Option<nat> {
    if IsDigit(hi) && IsDigit(lo) then Some(DigitValue(hi) * 10 + DigitValue(lo)) else None
  }

  /** The seconds an `H:MM:SS` text with H < 24 and MM, SS < 60 stands for. */
  function ParseClock(c: string): Option<nat> {
    if |c| >= 7 && c[|c| - 6] == ':' && c[|c| - 3] == ':' then
      match (ParseNat(c[..|c| - 6]), TwoDigits(c[|c| - 5], c[|c| - 4]), TwoDigits(c[|c| - 2], c[|c| - 1]))
      case (Some(h), Some(m), Some(s)) =>
        if h < 24 && m < 60 && s < 60 then Some(h * 3600 + m * 60 + s) else None
      case _ => None
    else None
  }

  /** The seconds a day count followed by its separator and a clock stands for. */
  function ParseWithDays(count: string, rest: string): Option<nat> {
    match ParseNat(count)
    case None => None
    case Some(d) =>
      var sep := DaySeparator(d);
      if d > 0 && |sep| <= |rest| && rest[..|sep|] == sep then
        match ParseClock(rest[|sep|..])
        case Some(c) => Some(d * SecondsPerDay + c)
        case None => None
      else None
  }

  /** The seconds a `[D day(s), ]H:MM:SS` text stands for: the day part runs up to the first blank. */
  function ParseDuration(text: string): Option<nat> {
    var i := IndexOf(text, ' ');
    if i == |text| then ParseClock(text) else ParseWithDays(text[..i], text[i..])
  }

  /** Splitting the seconds of a day into hours, minutes and seconds loses nothing. */
  lemma ClockArithmetic(n: nat)
    requires n < SecondsPerDay
    ensures n / 3600 < 24 && n / 60 % 60 < 60 && n % 60 < 60
    ensures n / 3600 * 3600 + n / 60 % 60 * 60 + n % 60 == n
  {
    var q := n / 60;
    assert n == q * 60 + n % 60;
    assert q / 60 == n / 3600;
    assert q == q / 60 * 60 + q % 60;
  }

  lemma ClockShape(n: nat)
    requires n < SecondsPerDay
    ensures var c, h := Clock(n), NatToDecimal(n / 3600);
      && |c| == |h| + 6
      && c[..|h|] == h
      && c[|h|] == ':' && c[|h| + 3] == ':'
      && c[|h| + 1..|h| + 3] == Pad2(n / 60 % 60)
      && c[|h| + 4..] == Pad2(n % 60)
      && (forall j :: 0 <= j < |c| ==> c[j] != ' ')
  {
    var h := NatToDecimal(n / 3600);
    var c := Clock(n);
    assert c == h + ":" + Pad2(n / 60 % 60) + ":" + Pad2(n % 60);
    forall j | 0 <= j < |c| ensures c[j] != ' ' {
      if j < |h| { assert c[j] == h[j]; }
    }
  }

  /** Reading a rendered clock back gives the seconds it was rendered from. */
  lemma ClockRoundTrip(n: nat)
    requires n < SecondsPerDay
    ensures ParseClock(Clock(n)) == Some(n)
  {
    ClockShape(n);
    ClockArithmetic(n);
    var c := Clock(n);
    var h := NatToDecimal(n / 3600);
    var mm, ss := Pad2(n / 60 % 60), Pad2(n % 60);
    assert |c| - 6 == |h|;
    assert c[..|c| - 6] == h;
    assert c[|c| - 5] == mm[0] && c[|c| - 4] == mm[1];
    assert c[|c| - 2] == ss[0] && c[|c| - 1] == ss[1];
    assert TwoDigits(mm[0], mm[1]) == Some(n / 60 % 60);
    assert TwoDigits(ss[0], ss[1]) == Some(n % 60);
    ParseNatOfDecimal(n / 3600);
  }

  lemma IndexOfAbsent(s: string, c: char)
    requires forall j :: 0 <= j < |s| ==> s[j] != c
    ensures IndexOf(s, c) == |s|
  {
  }

  lemma IndexOfAfterDigits(digits: string, rest: string)
    requires AllDigits(digits) && |rest| > 0 && rest[0] == ' '
    ensures IndexOf(digits + rest, ' ') == |digits|
  {
    var s := digits + rest;
    assert s[|digits|] == ' ';
    assert forall j :: 0 <= j < |digits| ==> s[j] == digits[j];
  }

  /** A text that starts with digits and a blank is read as a day count and what follows it. */
  lemma ParseDurationAtBlank(digits: string, rest: string)
    requires AllDigits(digits) && |rest| > 0 && rest[0] == ' '
    ensures ParseDuration(digits + rest) == ParseWithDays(digits, rest)
  {
    var text := digits + rest;
    IndexOfAfterDigits(digits, rest);
    assert text[..|digits|] == digits;
    assert text[|digits|..] == rest;
  }

  lemma ParseWithDaysOfSeparator(digits: string, clock: string, d: nat, c: nat)
    requires d > 0 && ParseNat(digits) == Some(d)
    requires ParseClock(clock) == Some(c)
    ensures ParseWithDays(digits, DaySeparator(d) + clock) == Some(d * SecondsPerDay + c)
  {
    var sep := DaySeparator(d);
    var rest := sep + clock;
    assert rest[..|sep|] == sep;
    assert rest[|sep|..] == clock;
  }

  /** Below one day the duration is the bare clock. */
  lemma DurationBelowOneDay(n: nat)
    requires n < SecondsPerDay
    ensures Duration(n) == Clock(n)
  {
    assert n / SecondsPerDay == 0 && n % SecondsPerDay == n;
  }

  /** From one day on, the duration is the day count, its separator and the clock of the rest. */
  lemma DurationWithDays(n: nat)
    requires n >= SecondsPerDay
    ensures var d, r := n / SecondsPerDay, n % SecondsPerDay;
      && d > 0 && d * SecondsPerDay + r == n
      && Duration(n) == NatToDecimal(d) + DaySeparator(d) + Clock(r)
  {
  }

  /** A duration of at least one day reads back with its day part. */
  lemma DurationRoundTripDays(n: nat)
    requires n >= SecondsPerDay
    ensures ParseDuration(Duration(n)) == Some(n)
  {
    var d, r := n / SecondsPerDay, n % SecondsPerDay;
    var digits, clock := NatToDecimal(d), Clock(r);
    DurationWithDays(n);
    AppendAssoc(digits, DaySeparator(d), clock);
    ParseNatOfDecimal(d);
    ClockRoundTrip(r);
    ParseWithDaysOfSeparator(digits, clock, d, r);
    ParseDurationAtBlank(digits, DaySeparator(d) + clock);
  }

  /** Reading a rendered duration back gives the number of seconds rendered. */
  lemma DurationRoundTrip(n: nat)
    ensures ParseDuration(Duration(n)) == Some(n)
  {
    if n < SecondsPerDay {
      DurationBelowOneDay(n);
      ClockShape(n);
      IndexOfAbsent(Clock(n), ' ');
      ClockRoundTrip(n);
    } else {
      DurationRoundTripDays(n);
    }
  }

  /** `human_uptime` loses no whole second: the text reads back as ticks // 100. */
  lemma HumanUptimeRoundTrip(t: nat)
    ensures ParseDuration(HumanUptime(Some(t))) == Some(t / TicksPerSecond)
  {
    DurationRoundTrip(t / TicksPerSecond);
  }

  lemma HumanUptimeAbsent()
    ensures HumanUptime(None) == "n/a"
  {
  }

  /** Only whole seconds matter: ticks with the same quotient by 100 render alike. */
  lemma HumanUptimeWholeSeconds(t1: nat, t2: nat)
    requires t1 / TicksPerSecond == t2 / TicksPerSecond
    ensures HumanUptime(Some(t1)) == HumanUptime(Some(t2))
  {
  }

  /**
   Below one day there is no day part: the text is `H:MM:SS` with H the decimal
   text of n div 3600 and MM and SS two digits each, denoting the minutes and
   seconds (both below 60); it holds no blank and reads back as n.
   */
  lemma HumanUptimeBelowOneDay(t: nat)
    requires t / TicksPerSecond < SecondsPerDay
    ensures var n, text, h := t / TicksPerSecond, HumanUptime(Some(t)), NatToDecimal(t / TicksPerSecond / 3600);
      && |text| == |h| + 6
      && text[..|h|] == h && DigitsValue(h) == n / 3600 < 24
      && text[|h|] == ':' && text[|h| + 3] == ':'
      && AllDigits(text[|h| + 1..|h| + 3]) && DigitsValue(text[|h| + 1..|h| + 3]) == n / 60 % 60 < 60
      && AllDigits(text[|h| + 4..]) && DigitsValue(text[|h| + 4..]) == n % 60 < 60
      && (forall j :: 0 <= j < |text| ==> text[j] != ' ')
      && ParseDuration(text) == Some(n)
  {
    var n := t / TicksPerSecond;
    DurationBelowOneDay(n);
    ClockShape(n);
    ClockArithmetic(n);
    DurationRoundTrip(n);
  }

  lemma HumanUptimeZero()
    ensures HumanUptime(Some(0)) == "0:00:00"
  {
    DurationBelowOneDay(0);
  }

  lemma HumanUptimeOneHour()
    ensures HumanUptime(Some(360000)) == "1:00:00"
  {
    assert 360000 / TicksPerSecond == 3600;
    DurationBelowOneDay(3600);
    assert Pad2(0) == "00";
  }

  lemma HumanUptimeOneDay()
    ensures HumanUptime(Some(8640000)) == "1 day, 0:00:00"
  {
    assert 8640000 / TicksPerSecond == SecondsPerDay;
    DurationWithDays(SecondsPerDay);
    assert Clock(0) == "0:00:00";
  }

  /** From two days on, the day count is followed by the plural " days, ". */
  lemma HumanUptimeSeveralDays(t: nat)
    requires t / TicksPerSecond >= 2 * SecondsPerDay
    ensures var n := t / TicksPerSecond;
      HumanUptime(Some(t)) == NatToDecimal(n / SecondsPerDay) + " days, " + Clock(n % SecondsPerDay)
  {
    DurationWithDays(t / TicksPerSecond);
  }
}
