/** Durations and the short duration strings Consul speaks ("30s", "5m").
    A `java.time.Duration` is modelled as a whole number of nanoseconds. */
module TimeStrings {
  import opened Wrappers
  import opened JavaInt
  import opened Exceptions

  type Duration = int

  const NanosPerMilli: int := 1_000_000
  const NanosPerSecond: int := 1_000_000_000
  const NanosPerMinute: int := 60_000_000_000

  /** `Duration.toMillis`: whole milliseconds, truncated toward zero. */
  function ToMillis(d: Duration): (ms: int)
    ensures d >= 0 ==> 0 <= ms && ms * NanosPerMilli <= d < ms * NanosPerMilli + NanosPerMilli
    ensures d < 0 ==> ms <= 0 && d <= ms * NanosPerMilli < d + NanosPerMilli
  {
    TruncDivBounds(d, NanosPerMilli);
    TruncDiv(d, NanosPerMilli)
  }

  /** `Duration.getSeconds`: the floor of the duration in seconds. */
  function GetSeconds(d: Duration): (s: int)
    ensures s * NanosPerSecond <= d < s * NanosPerSecond + NanosPerSecond
  {
    d / NanosPerSecond
  }

  function EndsWith(s: string, c: char): bool {
    |s| > 0 && s[|s| - 1] == c
  }

  /** The string without its one-character unit suffix. */
  function Prefix(s: string): string
    requires |s| > 0
  {
    s[..|s| - 1]
  }

  function ParseError(str: string): Exc {
    Exc(RuntimeClass, "Could not parse: " + str)
  }

  /** `TimeStrings.toInt`: the integer in front of the unit suffix. */
  function ToInt(str: string): (r: Result<int, Exc>)
    requires |str| > 0
    ensures r.Success? ==> IsInt32(r.value)
    ensures r.Failure? ==> r.error == ParseError(str)
  {
    var p := ParseInt(Prefix(str));
    if p.Some? then Success(p.value) else Failure(ParseError(str))
  }

  /** `TimeStrings.parse`: "<int>s" is seconds, "<int>m" is minutes, and
      everything else is rejected with a RuntimeException. */
  function Parse(str: string): (r: Result<Duration, Exc>)
    ensures !EndsWith(str, 's') && !EndsWith(str, 'm') ==> r == Failure(ParseError(str))
    ensures r.Success? <==> (EndsWith(str, 's') || EndsWith(str, 'm')) && ParseInt(Prefix(str)).Some?
    ensures r.Success? && EndsWith(str, 's') ==> r.value == ParseInt(Prefix(str)).value * NanosPerSecond
    ensures r.Success? && EndsWith(str, 'm') ==> r.value == ParseInt(Prefix(str)).value * NanosPerMinute
  {
    if EndsWith(str, 's') then
      var n :- ToInt(str);
      Success(n * NanosPerSecond)
    else if EndsWith(str, 'm') then
      var n :- ToInt(str);
      Success(n * NanosPerMinute)
    else
      Failure(ParseError(str))
  }

  /** `TimeStrings.toSeconds`: whole seconds followed by "s". */
  function ToSeconds(d: Duration): (r: string)
    ensures EndsWith(r, 's')
    ensures d >= 0 ==> r == ToDecimal(d / NanosPerSecond) + "s"
  {
    ToDecimal(TruncDiv(ToMillis(d), 1000)) + "s"
  }

  /** `TimeStrings.toMinutes`: whole minutes followed by "m". */
  function ToMinutes(d: Duration): (r: string)
    ensures EndsWith(r, 'm')
    ensures d >= 0 ==> r == ToDecimal(d / NanosPerMinute) + "m"
  {
    ToDecimal(TruncDiv(GetSeconds(d), 60)) + "m"
  }

  /** "<n>s" parses to n seconds for every 32-bit n. */
  lemma ParseSecondsString(n: int)
    requires IsInt32(n)
    ensures Parse(ToDecimal(n) + "s") == Success(n * NanosPerSecond)
  {
    var str := ToDecimal(n) + "s";
    assert Prefix(str) == ToDecimal(n);
    ParseIntOfDecimal(n);
  }

  /** "<n>m" parses to n minutes for every 32-bit n. */
  lemma ParseMinutesString(n: int)
    requires IsInt32(n)
    ensures Parse(ToDecimal(n) + "m") == Success(n * NanosPerMinute)
  {
    var str := ToDecimal(n) + "m";
    assert Prefix(str) == ToDecimal(n);
    ParseIntOfDecimal(n);
  }

  /** Rendering a whole, non-negative number of seconds and parsing it back is the identity. */
  lemma SecondsRoundTrip(d: Duration)
    requires d >= 0 && d % NanosPerSecond == 0
    requires IsInt32(d / NanosPerSecond)
    ensures Parse(ToSeconds(d)) == Success(d)
  {
    ParseSecondsString(d / NanosPerSecond);
  }

  /** Rendering a whole, non-negative number of minutes and parsing it back is the identity. */
  lemma MinutesRoundTrip(d: Duration)
    requires d >= 0 && d % NanosPerMinute == 0
    requires IsInt32(d / NanosPerMinute)
    ensures Parse(ToMinutes(d)) == Success(d)
  {
    ParseMinutesString(d / NanosPerMinute);
  }

  /** "5ms" is not milliseconds: its suffix is 's' and its prefix "5m" is not an integer. */
  lemma MillisecondSuffixRejected()
    ensures Parse("5ms").Failure?
  {
    assert Prefix("5ms") == "5m";
    assert !AllDigits("5m") by { assert !IsDigit("5m"[1]); }
  }
}
