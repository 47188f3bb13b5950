/** `format_timestamp` of scripts/transcribe.py: a number of seconds as
    zero-padded `HH:MM:SS`, with the fraction of a second dropped. Seconds are
    real numbers; Python's `//` and `%` on floats round toward minus infinity
    and are modelled that way, so negative inputs are covered too. */
module Timestamps {
  import opened Text
  import opened Optional

  /** `x // d` on a float and a positive divisor: the floor of the quotient,
      as a float. */
  function FloorDiv(x: real, d: int): real
    requires d > 0
  {
    (x / d as real).Floor as real
  }

  /** `x % d` on a float and a positive divisor: `x - d * (x // d)`, which
      lies in `[0, d)`. */
  function FloorMod(x: real, d: int): real
    requires d > 0
  {
    x - d as real * FloorDiv(x, d)
  }

  /** `int(x)`: truncation toward zero. */
  function Trunc(x: real): int {
    if x >= 0.0 then x.Floor else -((-x).Floor)
  }

  lemma DivideBounds(x: real, d: real, lo: real, hi: real)
    requires d > 0.0 && lo * d <= x < hi * d
    ensures lo <= x / d < hi
  {
    var y := x / d;
    assert x == y * d;
  }

  /** Dividing a real by a positive whole number and rounding down is the
      same as rounding down first and dividing whole numbers. */
  lemma FloorOfQuotient(x: real, d: int)
    requires d > 0
    ensures (x / d as real).Floor == x.Floor / d
  {
    var n := x.Floor;
    var q := n / d;
    assert q * d <= n < q * d + d;
    assert (q * d) as real <= x < (q * d + d) as real;
    assert (q * d) as real == q as real * d as real;
    assert (q * d + d) as real == (q + 1) as real * d as real;
    DivideBounds(x, d as real, q as real, (q + 1) as real);
  }

  /** Python's float remainder rounds down to the whole-number remainder. */
  lemma FloorOfRemainder(x: real, d: int)
    requires d > 0
    ensures FloorMod(x, d) >= 0.0
    ensures FloorMod(x, d).Floor == x.Floor % d
  {
    FloorOfQuotient(x, d);
    var q := x.Floor / d;
    assert FloorMod(x, d) == x - (d * q) as real;
    assert (x - (d * q) as real).Floor == x.Floor - d * q;
  }

  /** The three fields `format_timestamp` prints. */
  datatype Clock = Clock(hours: int, minutes: int, secs: int)

  /** `hours = int(seconds // 3600)`, `minutes = int((seconds % 3600) // 60)`,
      `secs = int(seconds % 60)`: together they are the whole number of
      seconds, minutes and seconds are each below 60, and hours are
      unbounded. */
  function ClockOf(seconds: real): (c: Clock)
    ensures 3600 * c.hours + 60 * c.minutes + c.secs == seconds.Floor
    ensures 0 <= c.minutes < 60 && 0 <= c.secs < 60
    ensures c.hours == seconds.Floor / 3600
  {
    var c := Clock(Trunc(FloorDiv(seconds, 3600)),
                   Trunc(FloorDiv(FloorMod(seconds, 3600), 60)),
                   Trunc(FloorMod(seconds, 60)));
    ClockFields(seconds);
    WholeSeconds(seconds.Floor);
    c
  }

  /** Each field is the whole-number counterpart of the float computation. */
  lemma ClockFields(seconds: real)
    ensures Trunc(FloorDiv(seconds, 3600)) == seconds.Floor / 3600
    ensures Trunc(FloorDiv(FloorMod(seconds, 3600), 60)) == (seconds.Floor % 3600) / 60
    ensures Trunc(FloorMod(seconds, 60)) == seconds.Floor % 60
  {
    FloorOfQuotient(seconds, 3600);
    FloorOfRemainder(seconds, 3600);
    FloorOfQuotient(FloorMod(seconds, 3600), 60);
    FloorOfRemainder(seconds, 60);
  }

  /** A whole number of seconds splits into hours, minutes below 60 and
      seconds below 60. */
  lemma WholeSeconds(n: int)
    ensures 3600 * (n / 3600) + 60 * ((n % 3600) / 60) + n % 60 == n
    ensures 0 <= (n % 3600) / 60 < 60
  {
    var q, r := n / 3600, n % 3600;
    assert n == 3600 * q + r && 0 <= r < 3600;
    var m, s := r / 60, r % 60;
    assert r == 60 * m + s && 0 <= s < 60;
    assert n == 60 * (60 * q + m) + s;
    ModSixty(n, 60 * q + m, s);
  }

  /** The remainder by 60 is the one remainder between 0 and 59. */
  lemma ModSixty(n: int, q: int, s: int)
    requires n == 60 * q + s && 0 <= s < 60
    ensures n % 60 == s
  {
    var q', s' := n / 60, n % 60;
    assert n == 60 * q' + s' && 0 <= s' < 60;
    assert 60 * (q - q') == s' - s;
  }

  /** `f"{hours:02d}:{minutes:02d}:{secs:02d}"`. */
  function FormatTimestamp(seconds: real): (r: string)
    ensures 0.0 <= seconds < 360000.0 ==> |r| == 8
    ensures |r| >= 8 && r[|r| - 3] == ':' && r[|r| - 6] == ':'
    ensures forall k :: 0 <= k < |r| ==> IsDigit(r[k]) || r[k] == ':' || r[k] == '-'
  {
    var c := ClockOf(seconds);
    PadTwo(c.hours) + ":" + PadTwo(c.minutes) + ":" + PadTwo(c.secs)
  }

  /** A timestamp is printed on one line: it holds no newline. */
  lemma TimestampOneLine(seconds: real)
    ensures '\n' !in FormatTimestamp(seconds)
  {
    var r := FormatTimestamp(seconds);
    forall k | 0 <= k < |r| ensures r[k] != '\n' {
      assert IsDigit(r[k]) || r[k] == ':' || r[k] == '-';
    }
  }

  /** Reads `H...H:MM:SS` (two or more hour digits, minutes and seconds below
      60) back into a whole number of seconds. */
  function ParseTimestamp(t: string): Option<int> {
    if |t| < 8 || t[|t| - 3] != ':' || t[|t| - 6] != ':' then None
    else
      var h, m, s := t[..|t| - 6], t[|t| - 5..|t| - 3], t[|t| - 2..];
      if AllDigits(h) && AllDigits(m) && AllDigits(s) && ParseDigits(m) < 60 && ParseDigits(s) < 60
      then Some(3600 * ParseDigits(h) + 60 * ParseDigits(m) + ParseDigits(s))
      else None
  }

  /** For a non-negative number of seconds the printed timestamp reads back
      as the whole number of seconds: the sub-second part, and nothing else,
      is lost. */
  lemma FormatTimestampReadsBack(seconds: real)
    requires seconds >= 0.0
    ensures ParseTimestamp(FormatTimestamp(seconds)) == Some(seconds.Floor)
  {
    var c := ClockOf(seconds);
    var hh, mm, ss := PadTwo(c.hours), PadTwo(c.minutes), PadTwo(c.secs);
    var t := hh + ":" + mm + ":" + ss;
    assert FormatTimestamp(seconds) == t;
    TimestampFields(hh, mm, ss);
    assert c.hours >= 0;
    assert AllDigits(hh) && AllDigits(mm) && AllDigits(ss);
    assert ParseTimestamp(t) == Some(3600 * ParseDigits(hh) + 60 * ParseDigits(mm) + ParseDigits(ss));
  }

  /** The hours field of a non-negative timestamp is the whole number of
      hours in plain decimal: two digits below 100 hours, and otherwise no
      leading zero. */
  lemma TimestampHoursField(seconds: real)
    requires seconds >= 0.0
    ensures var r := FormatTimestamp(seconds);
            var h := r[..|r| - 6];
            && AllDigits(h) && ParseDigits(h) == seconds.Floor / 3600
            && (if seconds.Floor / 3600 < 100 then |h| == 2 else h[0] != '0')
  {
    var c := ClockOf(seconds);
    var hh, mm, ss := PadTwo(c.hours), PadTwo(c.minutes), PadTwo(c.secs);
    assert FormatTimestamp(seconds) == hh + ":" + mm + ":" + ss;
    TimestampFields(hh, mm, ss);
  }

  /** The three fields of a timestamp sit where `ParseTimestamp` looks for
      them. */
  lemma TimestampFields(hh: string, mm: string, ss: string)
    requires |hh| >= 2 && |mm| == 2 && |ss| == 2
    ensures var t := hh + ":" + mm + ":" + ss;
            && |t| >= 8 && t[|t| - 3] == ':' && t[|t| - 6] == ':'
            && t[..|t| - 6] == hh && t[|t| - 5..|t| - 3] == mm && t[|t| - 2..] == ss
  {
  }

  /** Two timestamps print the same exactly when they fall in the same whole
      second (for non-negative inputs). */
  lemma SameTimestampSameSecond(a: real, b: real)
    requires a >= 0.0 && b >= 0.0
    ensures FormatTimestamp(a) == FormatTimestamp(b) <==> a.Floor == b.Floor
  {
    FormatTimestampReadsBack(a);
    FormatTimestampReadsBack(b);
    if a.Floor == b.Floor {
      ClockFields(a);
      ClockFields(b);
      assert ClockOf(a) == ClockOf(b);
    }
  }
}
