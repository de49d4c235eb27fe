/**
 * SubRip timestamps (hours, minutes, seconds, milliseconds held as u8, u8,
 * u8 and u16) and their conversion to and from a signed millisecond
 * duration. Converting back takes the absolute value of the duration and
 * truncates the hour count to eight bits, as the `as u8` cast does.
 */
module Timestamp {

  type U8 = x: int | 0 <= x < 256
  type U16 = x: int | 0 <= x < 65536

  datatype SrtTimestamp = SrtTimestamp(hours: U8, minutes: U8, seconds: U8, milliseconds: U16)

  const MillisPerSecond: int := 1000
  const MillisPerMinute: int := 60 * 1000
  const MillisPerHour: int := 60 * 60 * 1000

  /** Fields in their clock ranges: minutes and seconds below 60, milliseconds below 1000. */
  predicate ValidFields(t: SrtTimestamp) {
    t.minutes < 60 && t.seconds < 60 && t.milliseconds < 1000
  }

  /** `srt_to_chrono`: the total number of milliseconds the fields denote. */
  function SrtToChrono(t: SrtTimestamp): (d: int)
    ensures d >= 0
  {
    t.hours * MillisPerHour + t.minutes * MillisPerMinute + t.seconds * MillisPerSecond + t.milliseconds
  }

  function Abs(d: int): nat {
    if d < 0 then -d else d
  }

  /** `chrono_to_srt`: splits |d| into fields, the hour count reduced modulo 256. */
  function ChronoToSrt(d: int): (t: SrtTimestamp)
    ensures ValidFields(t)
  {
    var total := Abs(d);
    SrtTimestamp(
      (total / MillisPerHour) % 256,
      (total / MillisPerMinute) % 60,
      (total / MillisPerSecond) % 60,
      total % 1000)
  }

  /** Division by a positive divisor of q * n + r, 0 <= r < n, gives back q and r. */
  lemma DivModOf(q: int, n: int, r: int)
    requires n > 0 && 0 <= r < n
    ensures (q * n + r) / n == q && (q * n + r) % n == r
  {
    var x := q * n + r;
    var k := q - x / n;
    assert k * n == q * n - (x / n) * n;
    assert k * n == x % n - r;
    MulSign(k, n);
  }

  /** A nonzero multiple of n is at least n away from zero. */
  lemma MulSign(k: int, n: int)
    requires n > 0
    ensures k >= 1 ==> k * n >= n
    ensures k <= -1 ==> k * n <= -n
  {
  }

  /**
   * The hours, minutes, seconds and milliseconds of a duration, read from
   * its absolute value: this is what ChronoToSrt keeps, before the 8-bit
   * truncation of the hours.
   */
  lemma FieldsOfTotal(h: nat, m: nat, s: nat, ms: nat)
    requires m < 60 && s < 60 && ms < 1000
    ensures var total := h * MillisPerHour + m * MillisPerMinute + s * MillisPerSecond + ms;
      && total / MillisPerHour == h
      && (total / MillisPerMinute) % 60 == m
      && (total / MillisPerSecond) % 60 == s
      && total % 1000 == ms
  {
    var secs := (h * 60 + m) * 60 + s;
    var total := h * MillisPerHour + m * MillisPerMinute + s * MillisPerSecond + ms;
    assert total == secs * 1000 + ms;
    DivModOf(secs, 1000, ms);
    var mins := h * 60 + m;
    assert secs == mins * 60 + s;
    DivModOf(mins, 60, s);
    // total / 60000 == mins
    assert total == mins * MillisPerMinute + (s * 1000 + ms);
    DivModOf(mins, MillisPerMinute, s * 1000 + ms);
    DivModOf(h, 60, m);
    assert total == h * MillisPerHour + (m * MillisPerMinute + s * 1000 + ms);
    DivModOf(h, MillisPerHour, m * MillisPerMinute + s * 1000 + ms);
  }

  /** Round trip: fields in their clock ranges survive a trip through milliseconds. */
  lemma RoundTrip(t: SrtTimestamp)
    requires ValidFields(t)
    ensures ChronoToSrt(SrtToChrono(t)) == t
  {
    FieldsOfTotal(t.hours, t.minutes, t.seconds, t.milliseconds);
  }

  /** The sign of a duration is dropped, and zero gives all-zero fields. */
  lemma SignDropped(d: int)
    ensures ChronoToSrt(-d) == ChronoToSrt(d)
    ensures ChronoToSrt(0) == SrtTimestamp(0, 0, 0, 0)
  {
  }

  /**
   * The fields of ChronoToSrt(d) denote |d| exactly while |d| is below 256
   * hours; past that, the hours wrap modulo 256.
   */
  lemma ChronoToSrtDenotes(d: int)
    ensures SrtToChrono(ChronoToSrt(d)) == Abs(d) % (256 * MillisPerHour)
  {
    var total := Abs(d);
    var h := total / MillisPerHour;
    var rest := total % MillisPerHour;
    var m := rest / MillisPerMinute;
    var r2 := rest % MillisPerMinute;
    var s := r2 / 1000;
    var ms := r2 % 1000;
    assert rest == m * MillisPerMinute + s * 1000 + ms;
    assert total == h * MillisPerHour + rest;
    FieldsOfTotal(h, m, s, ms);
    DivModOf(h / 256, 256, h % 256);
    assert total == (h / 256) * (256 * MillisPerHour) + ((h % 256) * MillisPerHour + rest);
    DivModOf(h / 256, 256 * MillisPerHour, (h % 256) * MillisPerHour + rest);
    FieldsOfTotal(h % 256, m, s, ms);
  }

  /** A millisecond offset applied the way the SubRip transform does it. */
  function Shift(t: SrtTimestamp, offset: int): (r: SrtTimestamp)
    ensures ValidFields(r)
  {
    ChronoToSrt(SrtToChrono(t) + offset)
  }

  /** A zero offset changes no timestamp whose fields are in range. */
  lemma ShiftZero(t: SrtTimestamp)
    requires ValidFields(t)
    ensures Shift(t, 0) == t
  {
    RoundTrip(t);
  }

  /** A shift that keeps the time between zero and 256 hours moves it by exactly the offset. */
  lemma ShiftInRange(t: SrtTimestamp, d: int)
    requires 0 <= SrtToChrono(t) + d < 256 * MillisPerHour
    ensures SrtToChrono(Shift(t, d)) == SrtToChrono(t) + d
  {
    var x := SrtToChrono(t) + d;
    ChronoToSrtDenotes(x);
    DivModOf(0, 256 * MillisPerHour, x);
  }

  /**
   * Shifting by d and then by -d restores the timestamp, as long as the
   * intermediate time stays between zero and 256 hours.
   */
  lemma ShiftUndo(t: SrtTimestamp, d: int)
    requires ValidFields(t)
    requires 0 <= SrtToChrono(t) + d < 256 * MillisPerHour
    ensures Shift(Shift(t, d), -d) == t
  {
    ShiftInRange(t, d);
    assert SrtToChrono(Shift(t, d)) + -d == SrtToChrono(t);
    RoundTrip(t);
  }

  /** A shift that drives the time below zero lands on its mirror image instead. */
  lemma ShiftBelowZero(t: SrtTimestamp, d: int)
    requires SrtToChrono(t) + d < 0
    ensures Shift(t, d) == ChronoToSrt(-(SrtToChrono(t) + d))
    ensures SrtToChrono(Shift(t, d)) == (-(SrtToChrono(t) + d)) % (256 * MillisPerHour)
  {
    ChronoToSrtDenotes(SrtToChrono(t) + d);
  }

  /** The cases of the source's tests: 1:23:45.678 round-trips, and -3723678 ms reads 1:02:03.678. */
  lemma SourceExamples()
    ensures ChronoToSrt(SrtToChrono(SrtTimestamp(1, 23, 45, 678))) == SrtTimestamp(1, 23, 45, 678)
    ensures ChronoToSrt(-3723678) == SrtTimestamp(1, 2, 3, 678)
  {
    RoundTrip(SrtTimestamp(1, 23, 45, 678));
    var t := SrtTimestamp(1, 2, 3, 678);
    assert SrtToChrono(t) == 3723678;
    RoundTrip(t);
    SignDropped(3723678);
  }
}
