/** `get_xy_vec`: the synthetic x axis of "hour:minute-text" labels between a start and an
    end time, and the zero-filled value vector that goes with it. */
module TimeAxis {
  import opened Arith
  import opened Decimal
  import opened Clock
  import opened Results

  const HOUR := 60

  /** Intervals for which `HOUR // interval` is positive, so that the hour
      pattern is non-empty and `min()` has something to pick from. */
  predicate ValidInterval(interval: int) {
    1 <= interval <= HOUR
  }

  /** The minute that slot k of the un-reversed hour pattern stands for. */
  function SlotMinute(k: nat, interval: int, startMinute: nat): nat
    requires ValidInterval(interval)
  {
    if k == 0 then (if interval == HOUR then startMinute else 0) else k * interval
  }

  /** `x_list` before reversal: slot 0 is "00" (or the start's own minute text
      when the interval is a whole hour), slot k > 0 is `str(k * interval)`,
      unpadded. Nothing checks that the interval divides 60. */
  function BasePattern(start: string, interval: int): (p: seq<string>)
    requires WellFormed(start) && ValidInterval(interval)
    ensures |p| == HOUR / interval
    ensures p[0] == (if interval == HOUR then MinuteText(start) else "00")
    ensures forall k :: 0 < k < |p| ==> p[k] == NatToString(k * interval)
    ensures forall k :: 0 <= k < |p| ==> IsDigits(p[k]) && ParseNat(p[k]) == SlotMinute(k, interval, Minute(start))
  {
    var timeUnit := if interval == HOUR then MinuteText(start) else "00";
    var p := seq(HOUR / interval, k requires 0 <= k => if k != 0 then NatToString(k * interval) else timeUnit);
    assert "00"[..1] == "0";
    forall k | 0 < k < |p|
      ensures ParseNat(p[k]) == k * interval
    {
      ParseNatToString(k * interval);
    }
    p
  }

  /** Within one hour the un-reversed pattern names strictly increasing minutes. */
  lemma BasePatternAscending(start: string, interval: int, j: nat, k: nat)
    requires WellFormed(start) && ValidInterval(interval)
    requires j < k < |BasePattern(start, interval)|
    ensures SlotMinute(j, interval, Minute(start)) < SlotMinute(k, interval, Minute(start))
  {
    if j > 0 {
      assert k * interval == j * interval + (k - j) * interval;
      MulAtLeast(k - j, interval);
    } else {
      MulAtLeast(k, interval);
    }
  }

  /** `x_list[::-1]` */
  function Reverse<T>(s: seq<T>): (r: seq<T>)
    ensures |r| == |s|
    ensures forall k :: 0 <= k < |s| ==> r[k] == s[|s| - 1 - k]
  {
    if |s| == 0 then [] else Reverse(s[1..]) + [s[0]]
  }

  /** The pattern is reversed when the span is a whole number of hours, the
      interval is not 15 and the start is not on the hour; the test on the
      minute text is a test on the minute's value. */
  predicate Reverses(diffMinutes: int, interval: int, start: string)
    requires WellFormed(start)
    ensures Reverses(diffMinutes, interval, start) <==> diffMinutes == 0 && interval != 15 && Minute(start) != 0
  {
    MinuteTextZero(start);
    diffMinutes == 0 && interval != 15 && MinuteText(start) != "00"
  }

  /** `x_list` as `get_xy_vec` uses it, after the optional reversal. */
  function Pattern(start: string, end: string, interval: int): (p: seq<string>)
    requires WellFormed(start) && WellFormed(end) && ValidInterval(interval)
    ensures |p| == HOUR / interval
    ensures forall k :: 0 <= k < |p| ==> IsDigits(p[k])
  {
    var base := BasePattern(start, interval);
    if Reverses(DiffHM(start, end).1, interval, start) then Reverse(base) else base
  }

  predicate AllDigits(p: seq<string>) {
    forall k :: 0 <= k < |p| ==> IsDigits(p[k])
  }

  /** The slots name strictly increasing minutes. */
  predicate Ascending(p: seq<string>)
    requires AllDigits(p)
  {
    forall j, k :: 0 <= j < k < |p| ==> ParseNat(p[j]) < ParseNat(p[k])
  }

  /** The slots name strictly decreasing minutes. */
  predicate Descending(p: seq<string>)
    requires AllDigits(p)
  {
    forall j, k :: 0 <= j < k < |p| ==> ParseNat(p[j]) > ParseNat(p[k])
  }

  /** Every slot of the pattern in use is digit text naming a minute of the
      un-reversed pattern, read from the other end exactly when the pattern
      is reversed. */
  lemma PatternSlots(start: string, end: string, interval: int)
    requires WellFormed(start) && WellFormed(end) && ValidInterval(interval)
    ensures |Pattern(start, end, interval)| == HOUR / interval
    ensures forall k :: 0 <= k < |Pattern(start, end, interval)| ==>
      var rev := Reverses(DiffHM(start, end).1, interval, start);
      var p := Pattern(start, end, interval);
      && IsDigits(p[k])
      && ParseNat(p[k]) == SlotMinute(if rev then |p| - 1 - k else k, interval, Minute(start))
  {
  }

  /** No element occurs twice. */
  predicate Distinct<T(==)>(s: seq<T>) {
    forall j, k :: 0 <= j < k < |s| ==> s[j] != s[k]
  }

  /** No minute text occurs twice in the pattern in use, reversed or not. */
  lemma PatternDistinct(start: string, end: string, interval: int)
    requires WellFormed(start) && WellFormed(end) && ValidInterval(interval)
    ensures Distinct(Pattern(start, end, interval))
  {
    var base := BasePattern(start, interval);
    BasePatternSorted(start, interval);
    AscendingDistinct(base);
    ReverseDistinct(base);
  }

  lemma AscendingDistinct(p: seq<string>)
    requires AllDigits(p) && Ascending(p)
    ensures Distinct(p)
  {
    forall j, k | 0 <= j < k < |p|
      ensures p[j] != p[k]
    {
      assert ParseNat(p[j]) < ParseNat(p[k]);
    }
  }

  /** Reversal keeps a sequence free of repeats. */
  lemma ReverseDistinct<T>(s: seq<T>)
    requires Distinct(s)
    ensures Distinct(Reverse(s))
  {
    var r := Reverse(s);
    forall j, k | 0 <= j < k < |r|
      ensures r[j] != r[k]
    {
      assert r[j] == s[|s| - 1 - j] && r[k] == s[|s| - 1 - k];
    }
  }

  /** The un-reversed pattern names strictly increasing minutes. */
  lemma BasePatternSorted(start: string, interval: int)
    requires WellFormed(start) && ValidInterval(interval)
    ensures AllDigits(BasePattern(start, interval)) && Ascending(BasePattern(start, interval))
  {
    var base := BasePattern(start, interval);
    forall j, k | 0 <= j < k < |base|
      ensures ParseNat(base[j]) < ParseNat(base[k])
    {
      BasePatternAscending(start, interval, j, k);
    }
  }

  /** The pattern in use is in ascending minute order exactly when it was not
      reversed, and in descending order exactly when it was (given at least
      two slots, so that the two orders differ). */
  lemma PatternOrder(start: string, end: string, interval: int)
    requires WellFormed(start) && WellFormed(end) && ValidInterval(interval)
    requires |Pattern(start, end, interval)| >= 2
    ensures AllDigits(Pattern(start, end, interval))
    ensures Ascending(Pattern(start, end, interval)) <==> !Reverses(DiffHM(start, end).1, interval, start)
    ensures Descending(Pattern(start, end, interval)) <==> Reverses(DiffHM(start, end).1, interval, start)
  {
    var base := BasePattern(start, interval);
    BasePatternSorted(start, interval);
    AscendingNotDescending(base);
    ReverseOfAscending(base);
  }

  lemma AscendingNotDescending(p: seq<string>)
    requires AllDigits(p) && |p| >= 2 && Ascending(p)
    ensures !Descending(p)
  {
    assert ParseNat(p[0]) < ParseNat(p[1]);
  }

  /** Reversing an ascending pattern gives a descending one, which is then
      not ascending. */
  lemma ReverseOfAscending(p: seq<string>)
    requires AllDigits(p) && |p| >= 2 && Ascending(p)
    ensures AllDigits(Reverse(p)) && Descending(Reverse(p)) && !Ascending(Reverse(p))
  {
    var r := Reverse(p);
    forall j, k | 0 <= j < k < |r|
      ensures ParseNat(r[j]) > ParseNat(r[k])
    {
      assert r[j] == p[|p| - 1 - j] && r[k] == p[|p| - 1 - k];
    }
    assert ParseNat(r[0]) > ParseNat(r[1]);
  }

  /** `x_diff`: how far each slot's minute is from the start minute. */
  function Distance(slot: string, startMinute: nat): (d: nat)
    requires IsDigits(slot)
    ensures d == 0 <==> ParseNat(slot) == startMinute
    ensures ParseNat(slot) == startMinute + d || ParseNat(slot) + d == startMinute
  {
    Abs(ParseNat(slot) - startMinute)
  }

  function Distances(p: seq<string>, startMinute: nat): (d: seq<nat>)
    requires forall k :: 0 <= k < |p| ==> IsDigits(p[k])
    ensures |d| == |p|
    ensures forall k :: 0 <= k < |p| ==> d[k] == Distance(p[k], startMinute)
  {
    seq(|p|, k requires 0 <= k < |p| => Distance(p[k], startMinute))
  }

  /** Python's `min` on a non-empty list. */
  function Min(d: seq<nat>): (m: nat)
    requires |d| > 0
    ensures m in d
    ensures forall k :: 0 <= k < |d| ==> m <= d[k]
  {
    if |d| == 1 then d[0]
    else
      var rest := Min(d[1..]);
      if d[0] <= rest then d[0] else rest
  }

  /** Python's `list.index`: the first position holding v. */
  function IndexOf(d: seq<nat>, v: nat): (k: nat)
    requires v in d
    ensures k < |d| && d[k] == v
    ensures forall j :: 0 <= j < k ==> d[j] != v
  {
    if d[0] == v then 0 else 1 + IndexOf(d[1..], v)
  }

  /** `x_index = x_diff.index(min(x_diff))`: the first slot whose minute is
      nearest to the start minute. */
  function Anchor(p: seq<string>, startMinute: nat): (k: nat)
    requires |p| > 0 && forall j :: 0 <= j < |p| ==> IsDigits(p[j])
    ensures k < |p|
    ensures forall j :: 0 <= j < |p| ==> Distance(p[k], startMinute) <= Distance(p[j], startMinute)
    ensures forall j :: 0 <= j < k ==> Distance(p[j], startMinute) > Distance(p[k], startMinute)
  {
    var d := Distances(p, startMinute);
    IndexOf(d, Min(d))
  }

  /** `x_range`; `range` of a value below one yields no slots at all. When
      the interval divides the hour it is one more than the number of whole
      intervals in the span. */
  function SlotCount(diffHour: int, diffMinutes: int, patternLen: nat, interval: int): (n: int)
    requires ValidInterval(interval)
    ensures patternLen * interval == HOUR ==> n == (diffHour * HOUR + diffMinutes) / interval + 1
  {
    if patternLen * interval == HOUR then
      WholeHoursDivide(diffHour, diffMinutes, patternLen, interval);
      diffHour * patternLen + diffMinutes / interval + 1
    else
      diffHour * patternLen + diffMinutes / interval + 1
  }

  lemma WholeHoursDivide(diffHour: int, diffMinutes: int, patternLen: nat, interval: int)
    requires interval > 0 && patternLen * interval == HOUR
    ensures (diffHour * HOUR + diffMinutes) / interval == diffHour * patternLen + diffMinutes / interval
  {
    assert diffHour * HOUR == (diffHour * patternLen) * interval;
    DivModUnique(diffHour * HOUR + diffMinutes, interval,
      diffHour * patternLen + diffMinutes / interval, diffMinutes % interval);
  }

  /** One x-axis label, `':'.join((str(hour), minuteText))`: its first ':'
      separates the hour text from the minute text. */
  function Label(hour: nat, minuteText: string): (s: string)
    ensures var h := NatToString(hour);
      && ColonAt(s) == |h| < |s|
      && s[..|h|] == h
      && s[|h| + 1..] == minuteText
  {
    var h := NatToString(hour);
    var s := h + ":" + minuteText;
    assert s[..|h|] == h;
    assert s[|h| + 1..] == minuteText;
    ColonAtFirst(s, |h|);
    s
  }

  /** A ':' at position k with none before it is the first ':'. */
  lemma ColonAtFirst(s: string, k: nat)
    requires k < |s| && s[k] == ':' && forall j :: 0 <= j < k ==> s[j] != ':'
    ensures ColonAt(s) == k
  {
  }

  /** A label read back as its hour and its minute text. */
  datatype Slot = Slot(hour: nat, minuteText: string)

  /** The position of the first ':' in s, or |s| when there is none. */
  function ColonAt(s: string): (k: nat)
    ensures k <= |s|
    ensures k < |s| ==> s[k] == ':'
    ensures forall j :: 0 <= j < k ==> s[j] != ':'
  {
    if |s| == 0 || s[0] == ':' then 0 else 1 + ColonAt(s[1..])
  }

  /** Reads a label "hour:minute-text" back: the digits before the first ':' as the hour
      and everything after it as the minute text. */
  function ParseLabel(s: string): Option<Slot> {
    var k := ColonAt(s);
    if k == 0 || k == |s| || !IsDigits(s[..k]) then None
    else Some(Slot(ParseNat(s[..k]), s[k + 1..]))
  }

  /** Every label reads back as the hour and minute text it was made from. */
  lemma ParseLabelOfLabel(hour: nat, minuteText: string)
    ensures ParseLabel(Label(hour, minuteText)) == Some(Slot(hour, minuteText))
  {
    ParseNatToString(hour);
  }

  /** The hour shown on label i when the walk starts at slot `anchor` of a
      pattern of `len` slots: one more for every wrap back to slot 0. */
  function HourAt(startHour: nat, anchor: nat, len: nat, i: nat): nat
    requires len > 0
  {
    startHour + (i + anchor) / len
  }

  /** Label i of a walk over pattern p that starts at slot `anchor`: slot
      (i + anchor) mod |p| under the hour HourAt gives. */
  function SlotLabel(p: seq<string>, anchor: nat, startHour: nat, i: nat): string
    requires |p| > 0
  {
    Label(HourAt(startHour, anchor, |p|, i), p[(i + anchor) % |p|])
  }

  /** The closed form of the label loop: `count` labels (none if `count` is
      below one), label i being SlotLabel(p, anchor, startHour, i). */
  function Walk(p: seq<string>, anchor: nat, startHour: nat, count: int): (labels: seq<string>)
    requires |p| > 0
    ensures |labels| == Max0(count)
    ensures forall i :: 0 <= i < |labels| ==> labels[i] == SlotLabel(p, anchor, startHour, i)
  {
    seq(Max0(count), i requires 0 <= i => SlotLabel(p, anchor, startHour, i))
  }

  /** The reference axis for a start, an end and an interval. */
  function AxisOf(start: string, end: string, interval: int): seq<string>
    requires WellFormed(start) && WellFormed(end) && ValidInterval(interval)
  {
    var diff := DiffHM(start, end);
    var p := Pattern(start, end, interval);
    Walk(p, Anchor(p, Minute(start)), Hour(start), SlotCount(diff.0, diff.1, |p|, interval))
  }

  lemma AxisOfIsWalk(start: string, end: string, interval: int, p: seq<string>, anchor: nat, count: int)
    requires WellFormed(start) && WellFormed(end) && ValidInterval(interval)
    requires p == Pattern(start, end, interval) && anchor == Anchor(p, Minute(start))
    requires count == SlotCount(DiffHM(start, end).0, DiffHM(start, end).1, |p|, interval)
    ensures AxisOf(start, end, interval) == Walk(p, anchor, Hour(start), count)
  {
  }

  /** One turn of the label loop keeps the hour counter on its closed form. */
  lemma HourStep(startHour: nat, anchor: nat, len: nat, i: nat)
    requires len > 0
    ensures HourAt(startHour, anchor, len, i)
      == startHour + (i + anchor - 1) / len + (if ((i + anchor) % len) % len == 0 then 1 else 0)
  {
    ModIdempotent(i + anchor, len);
    DivStep(i + anchor, len);
  }

  /** The label loop of `get_xy_vec`, following the source step by step: the
      hour counter starts one below the start hour when the anchor is slot 0
      and goes up whenever the walk reaches slot 0. The closed form HourAt is
      its invariant, so the first label always carries the start hour. */
  method WalkPattern(xList: seq<string>, xIndex: nat, startHour: nat, xRange: int) returns (xVec: seq<string>)
    requires xIndex < |xList|
    ensures |xVec| == Max0(xRange)
    ensures forall i :: 0 <= i < |xVec| ==> xVec[i] == SlotLabel(xList, xIndex, startHour, i)
  {
    var len := |xList|;
    var xHour: int := startHour + (if xIndex != 0 then 0 else -1);
    assert xHour == startHour + (xIndex - 1) / len by {
      if xIndex == 0 {
        DivModUnique(-1, len, -1, len - 1);
      } else {
        DivModUnique(xIndex - 1, len, 0, xIndex - 1);
      }
    }

    xVec := [];
    var i := 0;
    while i < xRange
      invariant 0 <= i <= Max0(xRange)
      invariant |xVec| == i
      invariant xHour == startHour + (i + xIndex - 1) / len
      invariant forall j :: 0 <= j < i ==> xVec[j] == SlotLabel(xList, xIndex, startHour, j)
    {
      var front := (i + xIndex) % len;
      HourStep(startHour, xIndex, len, i);
      if front % len == 0 {
        xHour := xHour + 1;
      }
      xVec := xVec + [Label(xHour, xList[front])];
      i := i + 1;
    }
  }

  /** `get_xy_vec(start, end, interval)`: the labels of the reference axis and
      a value vector of zeros of the same length. */
  method GetXyVec(start: string, end: string, interval: int) returns (xVec: seq<string>, yVec: seq<int>)
    requires WellFormed(start) && WellFormed(end) && ValidInterval(interval)
    ensures var diff := DiffHM(start, end);
      |xVec| == Max0(SlotCount(diff.0, diff.1, HOUR / interval, interval))
    ensures xVec == AxisOf(start, end, interval)
    ensures |yVec| == |xVec|
    ensures forall i :: 0 <= i < |yVec| ==> yVec[i] == 0
  {
    var diff := DiffHM(start, end);
    var diffHour, diffMinutes := diff.0, diff.1;

    var xList := BasePattern(start, interval);
    if Reverses(diffMinutes, interval, start) {
      xList := Reverse(xList);
    }
    assert xList == Pattern(start, end, interval);

    var xRange := SlotCount(diffHour, diffMinutes, |xList|, interval);
    var xIndex := Anchor(xList, Minute(start));
    xVec := WalkPattern(xList, xIndex, Hour(start), xRange);
    AxisOfIsWalk(start, end, interval, xList, xIndex, xRange);
    yVec := seq(|xVec|, _ => 0);
  }
}
