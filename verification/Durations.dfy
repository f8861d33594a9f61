/**
  Durations in the configuration file (src/config.rs): a decimal number and a unit, printed back in seconds or
  milliseconds.
 */
module Durations {
  import opened Wrappers

  const U64_MAX: nat := 0xFFFF_FFFF_FFFF_FFFF

  /** `std::time::Duration`: whole seconds that fit in 64 bits, and nanoseconds of the next one. */
  datatype Duration = Duration(secs: nat, nanos: nat)

  predicate IsDuration(d: Duration) {
    d.secs <= U64_MAX && d.nanos < 1_000_000_000
  }

  /** `Duration::as_millis`, which truncates, in 128 bits. */
  function AsMillis(d: Duration): nat {
    d.secs * 1000 + d.nanos / 1_000_000
  }

  /** `Duration::from_millis`. */
  function FromMillis(ms: nat): (d: Duration)
    requires ms <= U64_MAX
    ensures IsDuration(d) && AsMillis(d) == ms && d.nanos % 1_000_000 == 0
  {
    Duration(ms / 1000, ms % 1000 * 1_000_000)
  }

  // ----- decimal numbers

  predicate IsDigit(c: char) {
    '0' <= c <= '9'
  }

  predicate AllDigits(s: string) {
    forall k :: 0 <= k < |s| ==> IsDigit(s[k])
  }

  function Digit(n: nat): (c: char)
    requires n < 10
    ensures IsDigit(c) && c as int - '0' as int == n
  {
    ('0' as int + n) as char
  }

  function Decimal(n: nat): (s: string)
    ensures s != "" && AllDigits(s)
  {
    if n < 10 then [Digit(n)] else Decimal(n / 10) + [Digit(n % 10)]
  }

  function Value(s: string): nat
    requires AllDigits(s)
  {
    if s == "" then 0 else Value(s[..|s| - 1]) * 10 + (s[|s| - 1] as int - '0' as int)
  }

  lemma {:induction false} DecimalHasItsValue(n: nat)
    ensures Value(Decimal(n)) == n
  {
    if n < 10 {
      assert [Digit(n)][..0] == "";
    } else {
      DecimalHasItsValue(n / 10);
      var s := Decimal(n / 10) + [Digit(n % 10)];
      assert s[..|s| - 1] == Decimal(n / 10);
    }
  }

  /** `str::parse::<u64>`, which here is only given digits: the sign it would also take cannot occur. */
  function ParseU64(s: string): Option<nat> {
    if s != "" && AllDigits(s) && Value(s) <= U64_MAX then Some(Value(s)) else None
  }

  // ----- parsing and printing

  /** Where the digits at the start end. */
  function DigitsEnd(s: string): (i: nat)
    ensures i <= |s|
  {
    if s == "" || !IsDigit(s[0]) then 0 else 1 + DigitsEnd(s[1..])
  }

  function Multiplier(unit: string): Option<nat> {
    if unit == "ms" then Some(1)
    else if unit == "s" then Some(1_000)
    else if unit == "m" then Some(60_000)
    else if unit == "h" then Some(3_600_000)
    else None
  }

  function ParseDuration(s: string): Option<Duration> {
    var i := DigitsEnd(s);
    var number, unit := s[..i], s[i..];
    if number == "" || unit == "" then None
    else
      match ParseU64(number)
      case None => None
      case Some(amount) =>
        match Multiplier(unit)
        case None => None
        case Some(multiplier) =>
          if amount * multiplier <= U64_MAX then Some(FromMillis(amount * multiplier)) else None
  }

  function FormatDuration(d: Duration): string {
    if AsMillis(d) % 1000 == 0 then Decimal(d.secs) + "s" else Decimal(AsMillis(d)) + "ms"
  }

  /** `s` is digits and a unit that come to `ms` milliseconds. */
  ghost predicate Denotes(s: string, ms: nat) {
    exists digits: string, unit: string, multiplier: nat ::
      && s == digits + unit && digits != "" && AllDigits(digits)
      && Multiplier(unit) == Some(multiplier)
      && ms == Value(digits) * multiplier
  }

  lemma {:induction false} DigitsEndIs(s: string, i: nat)
    requires i <= |s| && AllDigits(s[..i]) && (i < |s| ==> !IsDigit(s[i]))
    ensures DigitsEnd(s) == i
    decreases |s|
  {
    if i > 0 {
      assert s[..i][0] == s[0];
      assert s[1..][..i - 1] == s[..i][1..];
      DigitsEndIs(s[1..], i - 1);
    }
  }

  lemma DigitsEndAtUnit(digits: string, unit: string)
    requires AllDigits(digits) && Multiplier(unit).Some?
    ensures DigitsEnd(digits + unit) == |digits|
    ensures (digits + unit)[..|digits|] == digits && (digits + unit)[|digits|..] == unit
  {
    assert (digits + unit)[|digits|] == unit[0];
    assert (digits + unit)[..|digits|] == digits;
    DigitsEndIs(digits + unit, |digits|);
  }

  lemma DenotedTextParses(s: string, ms: nat)
    requires Denotes(s, ms) && ms <= U64_MAX
    ensures ParseDuration(s) == Some(FromMillis(ms))
  {
    hide Value, DigitsEnd;
    var digits: string, unit: string, multiplier: nat :|
      s == digits + unit && digits != "" && AllDigits(digits)
      && Multiplier(unit) == Some(multiplier) && ms == Value(digits) * multiplier;
    DigitsEndAtUnit(digits, unit);
    assert Value(digits) <= Value(digits) * multiplier;
  }

  lemma ParsedTextDenotes(s: string)
    requires ParseDuration(s).Some?
    ensures var d := ParseDuration(s).value;
            IsDuration(d) && d.nanos % 1_000_000 == 0 && AsMillis(d) <= U64_MAX && Denotes(s, AsMillis(d))
  {
    hide Value, DigitsEnd;
    var i := DigitsEnd(s);
    assert s == s[..i] + s[i..];
    assert AsMillis(ParseDuration(s).value) == Value(s[..i]) * Multiplier(s[i..]).value;
  }

  /** What parses, and to what: the texts that denote a number of milliseconds that fits in 64 bits. */
  lemma ParsesExactly(s: string, d: Duration)
    ensures ParseDuration(s) == Some(d) <==>
              IsDuration(d) && d.nanos % 1_000_000 == 0 && AsMillis(d) <= U64_MAX && Denotes(s, AsMillis(d))
  {
    hide Denotes, ParseDuration;
    if IsDuration(d) && d.nanos % 1_000_000 == 0 && AsMillis(d) <= U64_MAX && Denotes(s, AsMillis(d)) {
      DenotedTextParses(s, AsMillis(d));
      assert FromMillis(AsMillis(d)) == d;
    }
    if ParseDuration(s).Some? {
      ParsedTextDenotes(s);
    }
  }

  /** What printing and parsing make of any duration: its milliseconds if they fit in 64 bits, and nothing otherwise. */
  lemma PrintedDurationParses(d: Duration)
    requires IsDuration(d)
    ensures ParseDuration(FormatDuration(d)) == if AsMillis(d) <= U64_MAX then Some(FromMillis(AsMillis(d))) else None
  {
    hide Decimal, Value, DigitsEnd;
    var ms := AsMillis(d);
    if ms % 1000 == 0 {
      DigitsEndAtUnit(Decimal(d.secs), "s");
      DecimalHasItsValue(d.secs);
      assert d.nanos / 1_000_000 == 0 && ms == d.secs * 1000;
    } else {
      DigitsEndAtUnit(Decimal(ms), "ms");
      DecimalHasItsValue(ms);
    }
  }

  /** The round trip is exact exactly for whole milliseconds that fit in 64 bits. */
  lemma RoundTripsExactly(d: Duration)
    requires IsDuration(d)
    ensures ParseDuration(FormatDuration(d)) == Some(d) <==> d.nanos % 1_000_000 == 0 && AsMillis(d) <= U64_MAX
  {
    hide ParseDuration, FormatDuration;
    PrintedDurationParses(d);
    if d.nanos % 1_000_000 == 0 && AsMillis(d) <= U64_MAX {
      assert AsMillis(d) / 1000 == d.secs;
      assert FromMillis(AsMillis(d)) == d;
    }
  }

  /** So whatever parses is printed in a form that parses to the same duration. */
  lemma ParsedDurationsRoundTrip(s: string)
    ensures ParseDuration(s).Some? ==>
              && IsDuration(ParseDuration(s).value)
              && ParseDuration(FormatDuration(ParseDuration(s).value)) == ParseDuration(s)
  {
    hide FormatDuration, ParseDuration, Denotes;
    if ParseDuration(s).Some? {
      ParsedTextDenotes(s);
      RoundTripsExactly(ParseDuration(s).value);
    }
  }

  lemma UnitParses(digits: string, unit: string, multiplier: nat)
    requires digits != "" && AllDigits(digits) && Multiplier(unit) == Some(multiplier) && multiplier > 0
    ensures var ms := Value(digits) * multiplier;
            ParseDuration(digits + unit) == if ms <= U64_MAX then Some(FromMillis(ms)) else None
  {
    hide Value, DigitsEnd;
    DigitsEndAtUnit(digits, unit);
    assert Value(digits) <= Value(digits) * multiplier;
  }

  /** Seconds and milliseconds, as long as the milliseconds fit in 64 bits. */
  lemma UnitsParse(digits: string)
    requires digits != "" && AllDigits(digits)
    ensures var n := Value(digits);
            && ParseDuration(digits + "ms") == (if n <= U64_MAX then Some(FromMillis(n)) else None)
            && ParseDuration(digits + "s") == (if n * 1000 <= U64_MAX then Some(Duration(n, 0)) else None)
  {
    hide Value, ParseDuration;
    UnitParses(digits, "ms", 1);
    UnitParses(digits, "s", 1000);
  }

  /** Minutes are sixty seconds and hours sixty minutes. */
  lemma UnitsScale(digits: string)
    requires digits != "" && AllDigits(digits)
    ensures var n := Value(digits);
            && ParseDuration(digits + "m") == ParseDuration(Decimal(60 * n) + "s")
            && ParseDuration(digits + "h") == ParseDuration(Decimal(60 * n) + "m")
  {
    hide Value, ParseDuration, Decimal;
    var n := Value(digits);
    DecimalHasItsValue(60 * n);
    UnitParses(digits, "m", 60_000);
    UnitParses(digits, "h", 3_600_000);
    UnitParses(Decimal(60 * n), "s", 1000);
    UnitParses(Decimal(60 * n), "m", 60_000);
  }

  predicate IsInSeconds(s: string) {
    |s| >= 2 && s[|s| - 1] == 's' && IsDigit(s[|s| - 2])
  }

  /** A duration is printed in seconds exactly when it has no milliseconds beside them. */
  lemma PrintsSecondsExactly(d: Duration)
    requires IsDuration(d)
    ensures IsInSeconds(FormatDuration(d)) <==> d.nanos < 1_000_000
  {
    hide Decimal;
    var secs, ms := Decimal(d.secs), Decimal(AsMillis(d));
    assert (secs + "s")[|secs + "s"| - 2] == secs[|secs| - 1];
    assert (ms + "ms")[|ms + "ms"| - 2] == 'm';
    assert AsMillis(d) % 1000 == d.nanos / 1_000_000;
  }
}
