/** Time-of-day strings "HH:MM" as the plotter receives them on its command
    line, and `get_diff_h_m`, the split of a time difference into hours and
    minutes. */
module Clock {
  import opened Decimal

  /** The value of two digit characters, `int` of a two-character digit string. */
  function TwoDigitValue(hi: char, lo: char): nat
    requires IsDigit(hi) && IsDigit(lo)
  {
    DigitValue(hi) * 10 + DigitValue(lo)
  }

  /** A zero-padded "HH:MM" that `strptime(_, '%H:%M')` accepts and that the
      slices `[:2]` and `[3:]` cut into hour and minute text. */
  predicate WellFormed(s: string) {
    && |s| == 5
    && s[2] == ':'
    && IsDigit(s[0]) && IsDigit(s[1]) && IsDigit(s[3]) && IsDigit(s[4])
    && TwoDigitValue(s[0], s[1]) <= 23
    && TwoDigitValue(s[3], s[4]) <= 59
  }

  lemma ParseTwoDigits(t: string)
    requires |t| == 2 && IsDigits(t)
    ensures ParseNat(t) == TwoDigitValue(t[0], t[1])
  {
    assert t[..1][..0] == [];
    assert ParseNat(t[..1]) == DigitValue(t[0]);
  }

  /** `s[3:]`, the minute text, kept as text ("05", not "5"). */
  function MinuteText(s: string): (t: string)
    requires WellFormed(s)
    ensures |t| == 2 && IsDigits(t)
  {
    s[3..]
  }

  /** `int(s[:2])` */
  function Hour(s: string): (h: nat)
    requires WellFormed(s)
    ensures h <= 23
    ensures h == ParseNat(s[..2])
  {
    ParseTwoDigits(s[..2]);
    TwoDigitValue(s[0], s[1])
  }

  /** `int(s.split(':')[-1])`, which for a well-formed time is `int(s[3:])`. */
  function Minute(s: string): (m: nat)
    requires WellFormed(s)
    ensures m <= 59
    ensures m == ParseNat(MinuteText(s))
  {
    ParseTwoDigits(s[3..]);
    TwoDigitValue(s[3], s[4])
  }

  function MinuteOfDay(s: string): (m: nat)
    requires WellFormed(s)
    ensures m < 24 * 60
  {
    Hour(s) * 60 + Minute(s)
  }

  /** The minute text is "00" exactly when the minute is zero. */
  lemma MinuteTextZero(s: string)
    requires WellFormed(s)
    ensures MinuteText(s) == "00" <==> Minute(s) == 0
  {
    var t := MinuteText(s);
    if Minute(s) == 0 {
      assert t[0] == '0' && t[1] == '0';
      assert t == "00";
    }
  }

  /** `get_diff_h_m(start, end)`: the difference end - start, both read as
      times on the same day, as floor-divided hours and the minutes left over.
      `total_seconds() // 3600` and `% 3600 // 60` floor towards minus infinity,
      so an end before the start gives a negative hour and minutes in [0, 60). */
  function DiffHM(start: string, end: string): (r: (int, int))
    requires WellFormed(start) && WellFormed(end)
    ensures r.0 * 60 + r.1 == MinuteOfDay(end) - MinuteOfDay(start)
    ensures 0 <= r.1 < 60
    ensures -24 <= r.0 <= 23
    ensures r.0 >= 0 <==> MinuteOfDay(start) <= MinuteOfDay(end)
  {
    var seconds := (MinuteOfDay(end) - MinuteOfDay(start)) * 60;
    (seconds / 3600, (seconds % 3600) / 60)
  }
}
