/** formatDuration: the elapsed time of a run, rounded to the second and
    split into hours, minutes and seconds. A Go time.Duration is a signed
    64-bit count of nanoseconds; its arithmetic wraps around, its integer
    division truncates toward zero, and Duration.Round saturates at the
    bounds. */
module Duration {

  const MinInt64: int := -0x8000_0000_0000_0000
  const MaxInt64: int := 0x7fff_ffff_ffff_ffff
  const Modulus64: int := 0x1_0000_0000_0000_0000

  type Int64 = x: int | -0x8000_0000_0000_0000 <= x <= 0x7fff_ffff_ffff_ffff

  const Second: Int64 := 1_000_000_000
  const Minute: Int64 := 60_000_000_000
  const Hour: Int64 := 3_600_000_000_000

  /** Go's integer /: the quotient truncated toward zero. */
  function Quo(a: int, b: int): (q: int)
    requires b > 0
    ensures 0 <= a ==> 0 <= a - q * b < b
    ensures a <= 0 ==> -b < a - q * b <= 0
  {
    if a >= 0 then DivBounds(a, b); a / b
    else DivBounds(-a, b); -((-a) / b)
  }

  lemma DivBounds(a: nat, b: int)
    requires b > 0
    ensures 0 <= a - (a / b) * b < b
  {
    assert a == (a / b) * b + a % b;
  }

  /** Go's integer %: the remainder has the sign of the dividend. */
  function Rem(a: int, b: int): (r: int)
    requires b > 0
    ensures a == Quo(a, b) * b + r
    ensures 0 <= a ==> 0 <= r < b
    ensures a <= 0 ==> -b < r <= 0
  {
    a - Quo(a, b) * b
  }

  /** Two's complement wrap-around of an int64 result. */
  function Wrap(x: int): (r: Int64)
    ensures MinInt64 <= x <= MaxInt64 ==> r == x
    ensures MaxInt64 < x < MaxInt64 + Modulus64 ==> r == x - Modulus64
    ensures MinInt64 - Modulus64 < x < MinInt64 ==> r == x + Modulus64
  {
    (x - MinInt64) % Modulus64 + MinInt64
  }

  function Clamp(x: int): (r: Int64)
    ensures MinInt64 <= x <= MaxInt64 ==> r == x
    ensures x > MaxInt64 ==> r == MaxInt64
    ensures x < MinInt64 ==> r == MinInt64
  {
    if x > MaxInt64 then MaxInt64 else if x < MinInt64 then MinInt64 else x
  }

  /** The whole number of seconds nearest to d nanoseconds, halfway cases
      away from zero, in unbounded integers: the reference for rounding. */
  function NearestSecond(d: int): int {
    if d >= 0 then (2 * d + Second) / (2 * Second) else -((-2 * d + Second) / (2 * Second))
  }

  /** NearestSecond is at most half a second away from d; a halfway d goes
      away from zero. */
  lemma NearestSecondIsNearest(d: int)
    ensures var n := NearestSecond(d) * Second;
      && (d >= 0 ==> n >= 0 && 2 * (n - d) <= Second && 2 * (d - n) < Second)
      && (d < 0 ==> n <= 0 && 2 * (d - n) <= Second && 2 * (n - d) < Second)
  {
  }

  /** uint64(x)+uint64(x) < uint64(y); the sum cannot wrap for the
      remainders Round passes, which lie below 2^63. */
  predicate LessThanHalf(x: int, y: int) {
    x + x < y
  }

  /** d.Round(time.Second) as Duration.Round computes it: take the
      remainder, round half away from zero, and saturate when the rounded
      value does not fit (detected by the wrapped sum moving the wrong way). */
  function RoundToSecond(d: Int64): (r: Int64)
    ensures r == Clamp(NearestSecond(d) * Second)
  {
    var m := Second;
    var r0 := Rem(d, m);
    if d < 0 then
      var r := -r0;
      RoundsHalfAway(-(d as int), r);
      if LessThanHalf(r, m) then d + r
      else
        var d1 := Wrap(d - m + r);
        if d1 < d then d1 else MinInt64
    else
      RoundsHalfAway(d, r0);
      if LessThanHalf(r0, m) then d - r0
      else
        var d1 := Wrap(d + m - r0);
        if d1 > d then d1 else MaxInt64
  }

  /** Rounding e >= 0 nanoseconds whose remainder of a second is r: down
      to the second below when r is less than half a second, else up. */
  lemma RoundsHalfAway(e: int, r: int)
    requires 0 <= e && r == Rem(e, Second)
    ensures 2 * r < Second ==> e - r == NearestSecond(e) * Second
    ensures 2 * r >= Second ==> e + Second - r == NearestSecond(e) * Second
  {
    var k := Quo(e, Second);
    assert e == k * Second + r;
    assert 2 * e + Second == 2 * Second * k + (2 * r + Second);
  }

  /** The three numbers formatDuration prints. */
  datatype Hms = Hms(hours: int, mins: int, secs: int)

  /** formatDuration before the Sprintf: round to the second, then peel off
      the hours and the minutes with Go's truncating division. The parts add
      up to the rounded duration in whole seconds, and the minutes and the
      seconds stay below sixty. */
  function FormatDuration(d: Int64): (t: Hms)
    ensures t.hours * 3600 + t.mins * 60 + t.secs == Quo(RoundToSecond(d), Second)
    ensures -60 < t.mins < 60 && -60 < t.secs < 60
  {
    var d0 := RoundToSecond(d);
    var h := Quo(d0, Hour);
    var d1 := d0 - h * Hour;
    var m := Quo(d1, Minute);
    var d2 := d1 - m * Minute;
    var s := Quo(d2, Second);
    SplitSum(d0, h, d1, m, d2, s);
    Hms(h, m, s)
  }

  /** The parts add up to the rounded duration in whole seconds, the minutes
      and the seconds stay below sixty, and all three parts have the sign of
      the duration. */
  lemma FormatDurationSplits(d: Int64)
    ensures var t := FormatDuration(d);
      var total := Quo(RoundToSecond(d), Second);
      && t.hours * 3600 + t.mins * 60 + t.secs == total
      && -60 < t.mins < 60 && -60 < t.secs < 60
      && (total >= 0 ==> t.hours >= 0 && t.mins >= 0 && t.secs >= 0)
      && (total <= 0 ==> t.hours <= 0 && t.mins <= 0 && t.secs <= 0)
  {
    FormatDurationSigns(d);
  }

  /** Peeling off hours, minutes and seconds by truncating division loses
      nothing but the fraction of a second. */
  lemma SplitSum(d0: Int64, h: int, d1: int, m: int, d2: int, s: int)
    requires h == Quo(d0, Hour) && d1 == d0 - h * Hour
    requires m == Quo(d1, Minute) && d2 == d1 - m * Minute
    requires s == Quo(d2, Second)
    ensures h * 3600 + m * 60 + s == Quo(d0, Second)
    ensures -60 < m < 60 && -60 < s < 60
  {
    assert d2 == s * Second + Rem(d2, Second);
    assert d1 == m * Minute + d2;
    assert d0 == h * Hour + d1;
    assert d0 == (h * 3600 + m * 60 + s) * Second + Rem(d2, Second);
    assert -Minute < d1 < Minute ==> -60 < m < 60 by {
      if d1 >= 0 { assert m == d1 / Minute; } else { assert -m == (-d1) / Minute; }
    }
    QuoUnique(d0, h * 3600 + m * 60 + s, Rem(d2, Second));
  }

  lemma FormatDurationSigns(d: Int64)
    ensures var t := FormatDuration(d);
      var total := Quo(RoundToSecond(d), Second);
      && (total >= 0 ==> t.hours >= 0 && t.mins >= 0 && t.secs >= 0)
      && (total <= 0 ==> t.hours <= 0 && t.mins <= 0 && t.secs <= 0)
  {
    var d0 := RoundToSecond(d);
    var h := Quo(d0, Hour);
    var d1 := d0 - h * Hour;
    var m := Quo(d1, Minute);
    var d2 := d1 - m * Minute;
    if d0 < 0 && Quo(d0, Second) >= 0 {
      assert -Second < d0;
      assert h == 0 && m == 0;
    }
  }

  /** The quotient and remainder of Go's division by a second are the only
      pair with the remainder below a second and the sign of the dividend. */
  lemma QuoUnique(a: int, q: int, r: int)
    requires a == q * Second + r
    requires (0 <= a ==> 0 <= r < Second) && (a <= 0 ==> -Second < r <= 0)
    ensures q == Quo(a, Second)
  {
    var q0 := Quo(a, Second);
    assert (q - q0) * Second == Rem(a, Second) - r;
  }

  /** For a duration from zero up to the last one that rounds up without
      saturating, formatDuration prints the duration to the nearest second
      (halfway rounds up) as hours, minutes below sixty and seconds below
      sixty. */
  lemma FormatDurationOfElapsed(d: Int64)
    requires 0 <= d <= MaxInt64 - Second
    ensures var t := FormatDuration(d);
      && 0 <= t.hours && 0 <= t.mins < 60 && 0 <= t.secs < 60
      && t.hours * 3600 + t.mins * 60 + t.secs == NearestSecond(d)
  {
    FormatDurationSplits(d);
  }

  /** The longest representable duration does not round up to the next
      second: the rounding saturates at the int64 maximum, so its fraction of
      a second is dropped by the truncating division instead. */
  lemma FormatDurationOfMax()
    ensures FormatDuration(MaxInt64) == Hms(2562047, 47, 16)
  {
    assert RoundToSecond(MaxInt64) == MaxInt64;
  }

  function DigitChar(n: int): (c: char)
    requires 0 <= n < 10
    ensures '0' <= c <= '9' && c as int - '0' as int == n
  {
    (n + '0' as int) as char
  }

  /** The decimal digits of n, most significant first, as %d prints them. */
  function Digits(n: nat): (s: string)
    ensures |s| >= 1
    ensures forall i :: 0 <= i < |s| ==> '0' <= s[i] <= '9'
  {
    if n < 10 then [DigitChar(n)] else Digits(n / 10) + [DigitChar(n % 10)]
  }

  /** %d of a signed integer: a minus sign before the digits of its
      magnitude. */
  function Decimal(n: int): (s: string)
    ensures |s| >= 1 && (s[0] == '-' <==> n < 0)
  {
    if n < 0 then "-" + Digits(-n) else Digits(n)
  }

  /** The number a string of decimal digits denotes. */
  function DigitsValue(s: string): int {
    if s == [] then 0 else DigitsValue(s[..|s| - 1]) * 10 + (s[|s| - 1] as int - '0' as int)
  }

  /** The digits printed for n read back as n. */
  lemma {:induction false} DigitsRoundTrip(n: nat)
    ensures DigitsValue(Digits(n)) == n
  {
    if n >= 10 {
      DigitsRoundTrip(n / 10);
      var s := Digits(n);
      assert s[..|s| - 1] == Digits(n / 10);
    }
  }

  /** The number a %d string denotes. */
  function DecimalValue(s: string): int {
    if s != [] && s[0] == '-' then -DigitsValue(s[1..]) else DigitsValue(s)
  }

  /** The printed number reads back as n. */
  lemma DecimalRoundTrip(n: int)
    ensures DecimalValue(Decimal(n)) == n
  {
    if n < 0 {
      DigitsRoundTrip(-n);
      assert Decimal(n)[1..] == Digits(-n);
    } else {
      DigitsRoundTrip(n);
    }
  }

  /** The line formatDuration returns: each part in %d followed by its unit,
      and each printed number reads back as its part. */
  function FormatDurationText(d: Int64): (r: string)
    ensures var t := FormatDuration(d);
      var h, m, s := Decimal(t.hours), Decimal(t.mins), Decimal(t.secs);
      && r == h + " hours " + m + " mins " + s + " secs"
      && DecimalValue(h) == t.hours && DecimalValue(m) == t.mins && DecimalValue(s) == t.secs
  {
    var t := FormatDuration(d);
    DecimalRoundTrip(t.hours);
    DecimalRoundTrip(t.mins);
    DecimalRoundTrip(t.secs);
    Decimal(t.hours) + " hours " + Decimal(t.mins) + " mins " + Decimal(t.secs) + " secs"
  }

  /** One hour, two minutes and three seconds print as such. */
  lemma FormatDurationTextExample()
    ensures FormatDurationText(3_723_000_000_000) == "1 hours 2 mins 3 secs"
  {
    FormatDurationExample();
    assert Digits(1) == "1" && Digits(2) == "2" && Digits(3) == "3";
  }

  lemma FormatDurationExample()
    ensures FormatDuration(3_723_000_000_000) == Hms(1, 2, 3)
  {
    assert RoundToSecond(3_723_000_000_000) == 3_723_000_000_000;
  }

  /** Half a second rounds away from zero, for a negative duration too. */
  lemma HalfSecondRoundsAway()
    ensures FormatDuration(1_500_000_000) == Hms(0, 0, 2)
    ensures FormatDuration(-1_500_000_000) == Hms(0, 0, -2)
  {
    assert RoundToSecond(1_500_000_000) == 2_000_000_000;
    assert RoundToSecond(-1_500_000_000) == -2_000_000_000;
  }
}
