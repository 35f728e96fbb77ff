/** The Duration value type (src/Duration.ts): a non-zero millisecond count
    with rounded unit accessors. */
module Durations {
  import opened Results

  datatype Span = Span(ms: int)

  /** The constructor rejects every falsy count, so a Duration never holds 0. */
  type Duration = d: Span | d.ms != 0 witness Span(1)

  const DURATION_ERROR := "Cannot convert to duration"

  /** `new Duration(n)` for a number `n`. */
  function FromNumber(n: int): (r: Result<Duration, string>)
    ensures r.Ok? <==> n != 0
    ensures r.Ok? ==> r.value.ms == n
    ensures r.Err? ==> r.error == DURATION_ERROR
  {
    if n == 0 then Err(DURATION_ERROR) else Ok(Span(n))
  }

  /** `new Duration(s)` for a string `s`: the count is whatever the `ms`
      library resolves `s` to, given here as `resolve` (None stands for a
      result that is not a number). */
  function FromString(s: string, resolve: string -> Option<int>): (r: Result<Duration, string>)
    ensures r.Ok? <==> resolve(s).Some? && resolve(s).value != 0
    ensures r.Ok? ==> r.value.ms == resolve(s).value
    ensures r.Err? ==> r.error == DURATION_ERROR
  {
    match resolve(s)
    case None => Err(DURATION_ERROR)
    case Some(n) => FromNumber(n)
  }

  // Unit factors in milliseconds; a year is 365.25 days, a whole number of milliseconds.
  const SECOND: int := 1000
  const MINUTE: int := SECOND * 60
  const HOUR: int := MINUTE * 60
  const DAY: int := HOUR * 24
  const YEAR: int := DAY * 1461 / 4

  lemma YearIsExact()
    ensures 4 * YEAR == 1461 * DAY && YEAR == 31557600000
  {
  }

  /** `r` is what `Math.round(n / f)` gives: the integer nearest to n / f,
      where a value exactly halfway between two integers goes to the larger. */
  ghost predicate Nearest(n: int, f: int, r: int)
  {
    f * (2 * r - 1) <= 2 * n < f * (2 * r + 1)
  }

  /** `Math.round(n / f)` in integer arithmetic. */
  function RoundDiv(n: int, f: int): (r: int)
    requires f > 0
    ensures Nearest(n, f, r)
  {
    var q := (2 * n + f) / (2 * f);
    var m := (2 * n + f) % (2 * f);
    assert 2 * n + f == 2 * f * q + m && 0 <= m < 2 * f;
    assert f * (2 * q - 1) == 2 * f * q - f;
    assert f * (2 * q + 1) == 2 * f * q + f;
    q
  }

  /** The rounding the accessors promise leaves no choice. */
  lemma NearestUnique(n: int, f: int, r1: int, r2: int)
    requires f > 0 && Nearest(n, f, r1) && Nearest(n, f, r2)
    ensures r1 == r2
  {
    if r1 > r2 {
      MulMonotone(f, 2 * r2 + 1, 2 * r1 - 1);
    } else if r2 > r1 {
      MulMonotone(f, 2 * r1 + 1, 2 * r2 - 1);
    }
  }

  lemma MulMonotone(f: int, a: int, b: int)
    requires f > 0 && a <= b
    ensures f * a <= f * b
  {
    assert f * b - f * a == f * (b - a);
  }

  function AsMilliseconds(d: Duration): (r: int)
    ensures r == d.ms && r != 0
  {
    d.ms
  }

  function AsSeconds(d: Duration): (r: int)
    ensures Nearest(d.ms, SECOND, r)
  {
    RoundDiv(d.ms, SECOND)
  }

  function AsMinutes(d: Duration): (r: int)
    ensures Nearest(d.ms, MINUTE, r)
  {
    RoundDiv(d.ms, MINUTE)
  }

  function AsHours(d: Duration): (r: int)
    ensures Nearest(d.ms, HOUR, r)
  {
    RoundDiv(d.ms, HOUR)
  }

  function AsDays(d: Duration): (r: int)
    ensures Nearest(d.ms, DAY, r)
  {
    RoundDiv(d.ms, DAY)
  }

  function AsYears(d: Duration): (r: int)
    ensures Nearest(d.ms, YEAR, r)
  {
    RoundDiv(d.ms, YEAR)
  }

  /** Building from a count and reading it back in milliseconds is the identity. */
  lemma MillisecondsRoundTrip(n: int)
    requires n != 0
    ensures FromNumber(n).Ok? && AsMilliseconds(FromNumber(n).value) == n
  {
  }

  /** Two days in milliseconds, read in every unit up to days. */
  lemma TwoDays()
    ensures FromNumber(172800000).Ok?
    ensures var d := FromNumber(172800000).value;
      && AsMilliseconds(d) == 172800000 && AsSeconds(d) == 172800
      && AsMinutes(d) == 2880 && AsHours(d) == 48 && AsDays(d) == 2
  {
  }

  /** Two 365.25-day years: 730.5 days round up to 731 and the year count is 2,
      for any string the `ms` library resolves to that many milliseconds. */
  lemma TwoYears(s: string, resolve: string -> Option<int>)
    requires resolve(s) == Some(63115200000)
    ensures FromString(s, resolve).Ok?
    ensures AsDays(FromString(s, resolve).value) == 731
    ensures AsYears(FromString(s, resolve).value) == 2
  {
  }
}
