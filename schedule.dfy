/** The delay `scheduleNotification` arms its timer with: the configured
    "HH:MM" is split at ':', today's instance of that time is the target,
    and the target moves to tomorrow unless it is strictly in the future.
    Times are milliseconds since local midnight. */
module Schedule {
  import Decimal
  import opened Wrappers

  const SecondMs := 1000
  const MinuteMs := 60 * SecondMs
  const HourMs := 60 * MinuteMs
  /** `1000 * 60 * 60 * 24`, the divisor of the day gap as well. */
  const DayMs := 24 * HourMs

  /** The time stored when none is configured. */
  const DefaultTime := "09:00"

  /** Milliseconds from midnight to hours:minutes:00.000. */
  function TimeOfDay(hours: nat, minutes: nat): (t: nat)
    requires hours < 24 && minutes < 60
    ensures t < DayMs && t % MinuteMs == 0
  {
    hours * HourMs + minutes * MinuteMs
  }

  /** The text before the first ':' (all of it when there is none). */
  function BeforeColon(s: string): (r: string)
    ensures r <= s && ':' !in r
    ensures |r| < |s| ==> s[|r|] == ':'
  {
    if s == [] || s[0] == ':' then [] else [s[0]] + BeforeColon(s[1..])
  }

  /** The first two fields of `t.split(':')`, the minutes defaulting to "0"
      when there is no ':' at all. */
  function SplitTime(t: string): (string, string) {
    var hours := BeforeColon(t);
    if |hours| == |t| then (hours, "0") else (hours, BeforeColon(t[|hours| + 1..]))
  }

  /** The hours and minutes of a time string whose two fields are decimal
      numbers; None for any other string. */
  function ParseTime(t: string): Option<(nat, nat)> {
    var (hours, minutes) := SplitTime(t);
    if hours != [] && minutes != [] && Decimal.AllDigits(hours) && Decimal.AllDigits(minutes)
    then Some((Decimal.ParseNat(hours), Decimal.ParseNat(minutes)))
    else None
  }

  /** The split keeps the text before the first ':' as hours and the text
      up to the next ':' as minutes, ignoring any further fields. */
  lemma {:induction false} SplitTimeFields(hours: string, minutes: string, rest: string)
    requires ':' !in hours && ':' !in minutes
    ensures SplitTime(hours + ":" + minutes) == (hours, minutes)
    ensures SplitTime(hours + ":" + minutes + ":" + rest) == (hours, minutes)
  {
    var short, long := hours + ":" + minutes, hours + ":" + minutes + ":" + rest;
    assert short == hours + (":" + minutes);
    assert long == hours + (":" + minutes + ":" + rest);
    BeforeColonStops(hours, ":" + minutes);
    BeforeColonStops(hours, ":" + minutes + ":" + rest);
    assert short[|hours| + 1..] == minutes;
    BeforeColonWhole(minutes);
    assert long[|hours| + 1..] == minutes + (":" + rest);
    BeforeColonStops(minutes, ":" + rest);
  }

  /** A string without ':' is all hours; the minutes default to "0". */
  lemma SplitTimeNoColon(t: string)
    requires ':' !in t
    ensures SplitTime(t) == (t, "0")
  {
    BeforeColonWhole(t);
  }

  lemma {:induction false} BeforeColonWhole(s: string)
    requires ':' !in s
    ensures BeforeColon(s) == s
    decreases |s|
  {
    if s != [] {
      BeforeColonWhole(s[1..]);
      assert s == [s[0]] + s[1..];
    }
  }

  lemma {:induction false} BeforeColonStops(s: string, tail: string)
    requires ':' !in s && |tail| > 0 && tail[0] == ':'
    ensures BeforeColon(s + tail) == s
    decreases |s|
  {
    if s != [] {
      assert (s + tail)[1..] == s[1..] + tail;
      BeforeColonStops(s[1..], tail);
      assert s == [s[0]] + s[1..];
    } else {
      assert s + tail == tail;
    }
  }

  /** Two-digit rendering, as a time input writes hours and minutes. */
  function TwoDigits(n: nat): (s: string)
    requires n < 100
    ensures |s| == 2 && Decimal.AllDigits(s)
  {
    [Decimal.DigitChar(n / 10), Decimal.DigitChar(n % 10)]
  }

  function FormatTime(hours: nat, minutes: nat): string
    requires hours < 24 && minutes < 60
  {
    TwoDigits(hours) + ":" + TwoDigits(minutes)
  }

  lemma TwoDigitsRoundTrip(n: nat)
    requires n < 100
    ensures Decimal.ParseNat(TwoDigits(n)) == n
  {
    var s := TwoDigits(n);
    assert s[..1][..0] == [];
    assert Decimal.ParseNat(s[..1]) == n / 10;
    assert Decimal.ParseNat(s) == (n / 10) * 10 + n % 10;
  }

  /** Every "HH:MM" string is split and read back as the time it names. */
  lemma {:induction false} ParseFormatTime(hours: nat, minutes: nat)
    requires hours < 24 && minutes < 60
    ensures ParseTime(FormatTime(hours, minutes)) == Some((hours, minutes))
  {
    var h, m := TwoDigits(hours), TwoDigits(minutes);
    var t := FormatTime(hours, minutes);
    assert BeforeColon(m) == m by {
      assert BeforeColon(m[1..][1..]) == [];
      assert m[1..] == [m[1]];
    }
    assert BeforeColon(t) == h by {
      assert t[2..][0] == ':';
      assert t[1..][1..] == t[2..];
    }
    assert t[|h| + 1..] == m;
    TwoDigitsRoundTrip(hours);
    TwoDigitsRoundTrip(minutes);
  }

  /** An hour alone, as "HH" with no ':', reads as that hour and 0 minutes. */
  lemma ParseHoursOnly(hours: nat)
    requires hours < 24
    ensures ParseTime(TwoDigits(hours)) == Some((hours, 0))
  {
    var h := TwoDigits(hours);
    assert ':' !in h by {
      assert h == [h[0], h[1]];
    }
    SplitTimeNoColon(h);
    TwoDigitsRoundTrip(hours);
    assert Decimal.ParseNat("0") == 0 by {
      assert "0"[..0] == [];
    }
  }

  lemma DefaultTimeIsNine()
    ensures ParseTime(DefaultTime) == Some((9, 0))
  {
    assert DefaultTime == FormatTime(9, 0);
    ParseFormatTime(9, 0);
  }

  /** The delay from `now` until the next hours:minutes:00.000 that is
      strictly later than `now`. */
  function NextDelay(now: nat, hours: nat, minutes: nat): (delay: int)
    requires now < DayMs && hours < 24 && minutes < 60
    ensures 0 < delay <= DayMs
    // the timer fires exactly at the configured time of day
    ensures (now + delay) % DayMs == TimeOfDay(hours, minutes)
    // it fires tomorrow exactly when today's instance is not in the future
    ensures now + delay >= DayMs <==> TimeOfDay(hours, minutes) <= now
  {
    var scheduled := TimeOfDay(hours, minutes);
    var target := if scheduled <= now then scheduled + DayMs else scheduled;
    target - now
  }

  /** No earlier moment after `now` is at the configured time of day. */
  lemma NextDelayIsNext(now: nat, hours: nat, minutes: nat, k: int)
    requires now < DayMs && hours < 24 && minutes < 60
    requires 0 < k < NextDelay(now, hours, minutes)
    ensures (now + k) % DayMs != TimeOfDay(hours, minutes)
  {
  }

  /** When the timer fires at the configured time and re-arms itself, the next
      delay is exactly one day. */
  lemma RearmIsOneDay(hours: nat, minutes: nat)
    requires hours < 24 && minutes < 60
    ensures NextDelay(TimeOfDay(hours, minutes), hours, minutes) == DayMs
  {
  }

  /** The delay for a configured time string at `now`; None when the string
      does not name a time of day. */
  function DelayFor(time: string, now: nat): (delay: Option<int>)
    requires now < DayMs
    ensures delay.Some? ==> 0 < delay.value <= DayMs
  {
    match ParseTime(time)
    case Some((hours, minutes)) =>
      if hours < 24 && minutes < 60 then Some(NextDelay(now, hours, minutes)) else None
    case None => None
  }

  /** A configured "HH:MM" gets the delay to its next occurrence, with all
      that `NextDelay` promises about it. */
  lemma DelayForFormatted(hours: nat, minutes: nat, now: nat)
    requires hours < 24 && minutes < 60 && now < DayMs
    ensures DelayFor(FormatTime(hours, minutes), now) == Some(NextDelay(now, hours, minutes))
  {
    ParseFormatTime(hours, minutes);
  }
}
