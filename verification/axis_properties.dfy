/** What the labels of `get_xy_vec` look like, proved of the reference axis
    that the label loop computes. */
module AxisProperties {
  import opened Arith
  import opened Decimal
  import opened Clock
  import opened Results
  import opened TimeAxis

  /** A start no later than the end gives at least one label: the trailing
      `+ 1` of the slot count keeps the end's own slot. */
  lemma AxisNonEmpty(start: string, end: string, interval: int)
    requires WellFormed(start) && WellFormed(end) && ValidInterval(interval)
    requires MinuteOfDay(start) <= MinuteOfDay(end)
    ensures |AxisOf(start, end, interval)| >= 1
  {
    var diff := DiffHM(start, end);
    var p := Pattern(start, end, interval);
    SlotCountAtLeastOne(diff.0, diff.1, |p|, interval);
  }

  lemma SlotCountAtLeastOne(diffHour: int, diffMinutes: int, len: nat, interval: int)
    requires ValidInterval(interval) && diffHour >= 0 && diffMinutes >= 0
    ensures SlotCount(diffHour, diffMinutes, len, interval) >= 1
  {
    assert diffHour * len >= 0;
  }

  /** When the interval divides 60, an end before the start gives no labels
      at all (and `main` then divides by zero). */
  lemma AxisEmptyWhenEndBeforeStart(start: string, end: string, interval: int)
    requires WellFormed(start) && WellFormed(end) && ValidInterval(interval)
    requires HOUR % interval == 0
    requires MinuteOfDay(end) < MinuteOfDay(start)
    ensures |AxisOf(start, end, interval)| == 0
  {
    var diff := DiffHM(start, end);
    var p := Pattern(start, end, interval);
    SlotCountAtMostZero(diff.0, diff.1, |p|, interval);
  }

  lemma SlotCountAtMostZero(diffHour: int, diffMinutes: int, len: nat, interval: int)
    requires ValidInterval(interval) && HOUR % interval == 0 && len == HOUR / interval
    requires diffHour < 0 && 0 <= diffMinutes < HOUR
    ensures SlotCount(diffHour, diffMinutes, len, interval) <= 0
  {
    assert HOUR == len * interval;
    var q := diffMinutes / interval;
    if q >= len {
      assert false;
    }
    MulAtLeast(-diffHour, len);
    assert diffHour * len + len <= 0;
  }

  /** The first label always carries the start hour: the `- 1` applied when
      the anchor is slot 0 is undone by the roll-over on the first step. */
  lemma FirstLabelHour(start: string, end: string, interval: int)
    requires WellFormed(start) && WellFormed(end) && ValidInterval(interval)
    requires |AxisOf(start, end, interval)| > 0
    ensures var p := Pattern(start, end, interval);
      AxisOf(start, end, interval)[0] == Label(Hour(start), p[Anchor(p, Minute(start))])
  {
    var p := Pattern(start, end, interval);
    WalkFirst(p, Anchor(p, Minute(start)), Hour(start));
  }

  lemma WalkFirst(p: seq<string>, anchor: nat, startHour: nat)
    requires anchor < |p|
    ensures SlotLabel(p, anchor, startHour, 0) == Label(startHour, p[anchor])
  {
    DivModUnique(anchor, |p|, 0, anchor);
  }

  /** Every label reads back as the hour HourAt gives and the minute text of
      the pattern slot the walk has reached. */
  lemma LabelsReadBack(start: string, end: string, interval: int)
    requires WellFormed(start) && WellFormed(end) && ValidInterval(interval)
    ensures var p := Pattern(start, end, interval);
      var a := Anchor(p, Minute(start));
      var axis := AxisOf(start, end, interval);
      forall i :: 0 <= i < |axis| ==>
        ParseLabel(axis[i]) == Some(Slot(HourAt(Hour(start), a, |p|, i), p[(i + a) % |p|]))
  {
    var diff := DiffHM(start, end);
    var p := Pattern(start, end, interval);
    var anchor, count := Anchor(p, Minute(start)), SlotCount(diff.0, diff.1, |p|, interval);
    AxisOfIsWalk(start, end, interval, p, anchor, count);
    WalkLabelsReadBack(p, anchor, Hour(start), count);
  }

  lemma WalkLabelsReadBack(p: seq<string>, anchor: nat, startHour: nat, count: int)
    requires |p| > 0
    ensures var labels := Walk(p, anchor, startHour, count);
      forall i :: 0 <= i < |labels| ==>
        ParseLabel(labels[i]) == Some(Slot(HourAt(startHour, anchor, |p|, i), p[(i + anchor) % |p|]))
  {
    var labels := Walk(p, anchor, startHour, count);
    forall i | 0 <= i < |labels|
      ensures ParseLabel(labels[i]) == Some(Slot(HourAt(startHour, anchor, |p|, i), p[(i + anchor) % |p|]))
    {
      ParseLabelOfLabel(HourAt(startHour, anchor, |p|, i), p[(i + anchor) % |p|]);
    }
  }

  /** No label occurs twice on the axis (so in particular no two consecutive
      labels are equal): two labels with the same text have the same hour and
      the same slot, hence the same position. */
  lemma AxisDistinct(start: string, end: string, interval: int)
    requires WellFormed(start) && WellFormed(end) && ValidInterval(interval)
    ensures Distinct(AxisOf(start, end, interval))
  {
    var diff := DiffHM(start, end);
    var p := Pattern(start, end, interval);
    var anchor, count := Anchor(p, Minute(start)), SlotCount(diff.0, diff.1, |p|, interval);
    AxisOfIsWalk(start, end, interval, p, anchor, count);
    PatternDistinct(start, end, interval);
    WalkDistinct(p, anchor, Hour(start), count);
  }

  /** A walk over a pattern without repeated slots never repeats a label. */
  lemma WalkDistinct(p: seq<string>, anchor: nat, startHour: nat, count: int)
    requires |p| > 0 && Distinct(p)
    ensures Distinct(Walk(p, anchor, startHour, count))
  {
    var labels := Walk(p, anchor, startHour, count);
    var len := |p|;
    forall i, j | 0 <= i < j < |labels|
      ensures labels[i] != labels[j]
    {
      var ri, rj := (i + anchor) % len, (j + anchor) % len;
      ParseLabelOfLabel(HourAt(startHour, anchor, len, i), p[ri]);
      ParseLabelOfLabel(HourAt(startHour, anchor, len, j), p[rj]);
      if ri == rj {
        SameRemainderApart(i + anchor, j + anchor, len);
      } else {
        assert p[ri] != p[rj];
      }
    }
  }

  /** Along the walk the hour never drops below the start hour and never goes
      down; when the walk starts inside the pattern, its first hour is the
      start hour. */
  lemma WalkHoursOrdered(p: seq<string>, anchor: nat, startHour: nat)
    requires |p| > 0
    ensures anchor < |p| ==> HourAt(startHour, anchor, |p|, 0) == startHour
    ensures forall i :: 0 <= i ==> HourAt(startHour, anchor, |p|, i) >= startHour
    ensures forall i, j :: 0 <= i < j ==> HourAt(startHour, anchor, |p|, i) <= HourAt(startHour, anchor, |p|, j)
  {
    if anchor < |p| {
      DivModUnique(anchor, |p|, 0, anchor);
    }
    forall i, j | 0 <= i < j
      ensures HourAt(startHour, anchor, |p|, i) <= HourAt(startHour, anchor, |p|, j)
    {
      DivMonotone(i + anchor, j + anchor, |p|);
    }
  }

  /** Every label of the axis reads back as an hour and a minute text; the
      first label shows the start hour, and the hours never go down along
      the axis (the minutes can, when the pattern is reversed). */
  lemma AxisHoursOrdered(start: string, end: string, interval: int)
    requires WellFormed(start) && WellFormed(end) && ValidInterval(interval)
    ensures var axis := AxisOf(start, end, interval);
      && (forall i :: 0 <= i < |axis| ==> ParseLabel(axis[i]).Some?)
      && (|axis| > 0 ==> ParseLabel(axis[0]).value.hour == Hour(start))
      && (forall i, j :: 0 <= i < j < |axis| ==>
            ParseLabel(axis[i]).value.hour <= ParseLabel(axis[j]).value.hour)
  {
    var p := Pattern(start, end, interval);
    var a := Anchor(p, Minute(start));
    LabelsReadBack(start, end, interval);
    WalkHoursOrdered(p, a, Hour(start));
  }

  /** 10:00 to 14:00 every 30 minutes: nine labels, in time order. */
  lemma TenToFourteenByHalfHours()
    ensures AxisOf("10:00", "14:00", 30)
      == ["10:00", "10:30", "11:00", "11:30", "12:00", "12:30", "13:00", "13:30", "14:00"]
  {
    var start, end := "10:00", "14:00";
    assert start[..2] == "10" && start[3..] == "00";
    assert end[..2] == "14" && end[3..] == "00";
    assert "10"[..1] == "1" && "14"[..1] == "1" && "00"[..1] == "0";
    assert Hour(start) == 10 && Minute(start) == 0 && Hour(end) == 14 && Minute(end) == 0;
    assert DiffHM(start, end) == (4, 0);
    var base := BasePattern(start, 30);
    assert NatToString(30) == "30";
    assert base == ["00", "30"];
    assert Pattern(start, end, 30) == base;
    assert "30"[..1] == "3";
    assert Distance(base[0], 0) == 0 && Distance(base[1], 0) == 30;
    assert Anchor(base, 0) == 0;
    var axis := Walk(base, 0, 10, SlotCount(4, 0, 2, 30));
    assert AxisOf(start, end, 30) == axis;
    assert |axis| == 9;
    HalfHourLabels();
  }

  /** Label text for the hours 10 to 19. */
  lemma LabelInTens(hour: nat, minuteText: string)
    requires 10 <= hour <= 19
    ensures Label(hour, minuteText) == ['1', DigitChar(hour - 10), ':'] + minuteText
  {
    assert hour / 10 == 1 && hour % 10 == hour - 10;
    assert NatToString(1) == ['1'];
  }

  /** Label i of a walk from slot 0 of a two-slot pattern, starting at hour 10. */
  lemma HalfHourLabel(p: seq<string>, i: nat)
    requires |p| == 2 && i < 20
    ensures SlotLabel(p, 0, 10, i) == ['1', DigitChar(i / 2), ':'] + p[i % 2]
  {
    LabelInTens(10 + i / 2, p[i % 2]);
  }

  /** Labels of the walk over ["00", "30"] from slot 0, at hour 10, nine labels. */
  lemma HalfHourLabels()
    ensures Walk(["00", "30"], 0, 10, 9)
      == ["10:00", "10:30", "11:00", "11:30", "12:00", "12:30", "13:00", "13:30", "14:00"]
  {
    var w := Walk(["00", "30"], 0, 10, 9);
    var expected := ["10:00", "10:30", "11:00", "11:30", "12:00", "12:30", "13:00", "13:30", "14:00"];
    forall i | 0 <= i < 9
      ensures w[i] == expected[i]
    {
      HalfHourLabel(["00", "30"], i);
    }
  }

  /** 10:30 to 12:30 every 30 minutes: the span is whole hours and the start
      is off the hour, so the pattern is reversed and the labels are not in
      time order. */
  lemma HalfPastReversed()
    ensures AxisOf("10:30", "12:30", 30) == ["10:30", "10:00", "11:30", "11:00", "12:30"]
  {
    var start, end := "10:30", "12:30";
    assert Hour(start) == 10 && Minute(start) == 30 && Hour(end) == 12 && Minute(end) == 30;
    assert DiffHM(start, end) == (2, 0);
    var base := BasePattern(start, 30);
    assert NatToString(30) == "30";
    assert base == ["00", "30"];
    assert MinuteText(start) == "30";
    var p := Pattern(start, end, 30);
    assert p == ["30", "00"];
    assert "30"[..1] == "3" && "00"[..1] == "0";
    assert Distance(p[0], 30) == 0;
    assert Anchor(p, 30) == 0;
    assert SlotCount(2, 0, 2, 30) == 5;
    assert AxisOf(start, end, 30) == Walk(["30", "00"], 0, 10, 5);
    ReversedHalfHourLabels();
  }

  /** Labels of the walk over ["30", "00"] from slot 0, at hour 10, five labels. */
  lemma ReversedHalfHourLabels()
    ensures Walk(["30", "00"], 0, 10, 5) == ["10:30", "10:00", "11:30", "11:00", "12:30"]
  {
    var w := Walk(["30", "00"], 0, 10, 5);
    var expected := ["10:30", "10:00", "11:30", "11:00", "12:30"];
    forall i | 0 <= i < 5
      ensures w[i] == expected[i]
    {
      HalfHourLabel(["30", "00"], i);
    }
  }

  /** An interval that does not divide 60 can still give a label for an end
      one minute before the start. */
  lemma SevenMinutesEndBeforeStart()
    ensures AxisOf("10:01", "10:00", 7) == ["10:00"]
  {
    assert AxisOf("10:01", "10:00", 7) == [Label(10, "00")] by {
      SevenMinuteWalk();
      OneLabelAxis("10:01", "10:00", 7);
    }
    assert Label(10, "00") == "10:00" by {
      LabelInTens(10, "00");
      assert DigitChar(0) == '0';
    }
  }

  /** An axis of one label anchored at slot 0 is that slot under the start hour. */
  lemma OneLabelAxis(start: string, end: string, interval: int)
    requires WellFormed(start) && WellFormed(end) && ValidInterval(interval)
    requires Anchor(Pattern(start, end, interval), Minute(start)) == 0
    requires SlotCount(DiffHM(start, end).0, DiffHM(start, end).1, |Pattern(start, end, interval)|, interval) == 1
    ensures AxisOf(start, end, interval) == [Label(Hour(start), Pattern(start, end, interval)[0])]
  {
    var p := Pattern(start, end, interval);
    AxisOfIsWalk(start, end, interval, p, 0, 1);
    SingleLabel(p, Hour(start));
  }

  /** The pieces of the 10:01 to 10:00 axis: an 8-slot pattern starting with
      "00", anchor 0, start hour 10, one label. */
  lemma SevenMinuteWalk()
    ensures var p := Pattern("10:01", "10:00", 7);
      && |p| == 8 && p[0] == "00"
      && Minute("10:01") == 1 && Hour("10:01") == 10
      && Anchor(p, 1) == 0
      && SlotCount(DiffHM("10:01", "10:00").0, DiffHM("10:01", "10:00").1, |p|, 7) == 1
  {
    var start, end := "10:01", "10:00";
    assert Hour(start) == 10 && Minute(start) == 1 && Hour(end) == 10 && Minute(end) == 0;
    assert DiffHM(start, end) == (-1, 59);
    var p := Pattern(start, end, 7);
    assert p == BasePattern(start, 7);
    SevenMinuteAnchor(p);
  }

  /** Slot 0 ("00") is the slot nearest minute 1 in the 7-minute pattern. */
  lemma SevenMinuteAnchor(p: seq<string>)
    requires |p| == 8 && p[0] == "00"
    requires forall k :: 0 <= k < |p| ==> IsDigits(p[k]) && ParseNat(p[k]) == SlotMinute(k, 7, 1)
    ensures Anchor(p, 1) == 0
  {
    assert "00"[..1] == "0";
    assert Distance(p[0], 1) == 1;
    var a := Anchor(p, 1);
    assert ParseNat(p[a]) == SlotMinute(a, 7, 1);
    if a != 0 {
      assert false;
    }
  }

  /** A walk of one label from slot 0 is the first slot under the start hour. */
  lemma SingleLabel(p: seq<string>, startHour: nat)
    requires |p| > 0
    ensures Walk(p, 0, startHour, 1) == [Label(startHour, p[0])]
  {
    DivModUnique(0, |p|, 0, 0);
  }
}
