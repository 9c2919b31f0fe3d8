# live_plotter time axis, downsampling and playback in Dafny

This project models the computational core of `live_plotter.py`, a script that replays a file of integer samples as a "live" chart against a synthetic time axis. It covers:

- `get_diff_h_m`: the span between two "HH:MM" times, as floor-divided hours and leftover minutes (module `Clock`).
- `get_xy_vec`: the x-axis labels "hour:minute-text" and the zero-filled value vector. Minute texts other than slot 0 are unpadded `str(k*interval)`, so intervals below 10 give labels such as "10:5" (modules `TimeAxis` and `AxisProperties`). The steps are:
  - build the hour pattern of minute texts from the interval;
  - reverse the pattern in one case;
  - pick the anchor slot nearest the start minute;
  - compute the slot count;
  - walk the pattern with a rolling hour counter.
- The downsampling and playback part of `main`, as module `DataFeed` and method `Playback.Run`:
  - `step = len(samples) // len(x_vec)`;
  - keep the samples at multiples of `step`;
  - write one sample into the value buffer per frame.
- The stacked-bar complement `y2_data` of `bar_plotter` (`Playback.StackedComplement`).

Times are strings, and labels are strings built with `Decimal.NatToString`, a model of Python's `str` on naturals. `Decimal.ParseNat` models `int` on digit strings, and the two are proved inverse to each other. The label loop is modelled as the method `TimeAxis.WalkPattern`, written literally. It keeps the source's quirks:
- the hour counter starts one below the start hour when the anchor is slot 0;
- the counter goes up whenever the walk reaches slot 0.

Its loop invariant is the closed form `TimeAxis.HourAt`: hour of label i = start hour + (i + anchor) div (pattern length). `TimeAxis.AxisOf` is the reference axis built from that closed form. The labels are not always in time order. `AxisProperties.HalfPastReversed` proves that 10:30 to 12:30 every 30 minutes gives `10:30, 10:00, 11:30, 11:00, 12:30`.

Each place where the Python code raises becomes one of two things:
- a precondition:
  - `Clock.WellFormed`: a zero-padded "HH:MM" with hour at most 23 and minute at most 59;
  - `TimeAxis.ValidInterval`: 1 to 60. Below 1 the code divides by zero or `min()` gets an empty list; above 60 `min()` gets an empty list.
- an error value, `DataFeed.Failure`:
  - `EmptyAxis`: `len(x_vec) == 0` makes the step computation divide by zero;
  - `TooFewSamples`: fewer samples than labels makes `i % step` divide by zero.

With no samples at all the comprehension never evaluates `i % step`, so that case does not fail.

The model follows the code where it departs from the idealised behaviour its comments and help text suggest:
- **Hour bookkeeping.** The hour counter starts one below the start hour when the anchor is slot 0 (line 106). It goes up each time the walk reaches slot 0 (lines 111-113). The two cancel, so the first label shows the start hour (`AxisProperties.FirstLabelHour`).
- **Reversal.** The commented-out rule at lines 92-93 reversed only for interval 30 with a start at half past. The live condition at line 90 reverses whenever the span is a whole number of hours, the interval is not 15 and the start is off the hour.
- **Unchecked inputs.** The `--interval` help text (line 31) names 15, 30 and 60, but nothing checks the interval. Nothing checks that the end is after the start either. An end before the start usually gives an empty axis (`AxisProperties.AxisEmptyWhenEndBeforeStart`). It can give a one-label axis with an interval such as 7 (`AxisProperties.SevenMinutesEndBeforeStart`).
- **Downsampling.** Playback does not pick exactly one sample per label. It keeps ⌈N/step⌉ samples and stops at the last label (line 143). The failure conditions are the ones described above.

Labels never repeat: the pattern's minute texts are pairwise distinct, and two labels with the same slot lie a whole number of pattern lengths apart and so carry different hours (`AxisProperties.AxisDistinct`).

## Model

| member | source | states |
|---|---|---|
| Decimal.ParseNat | live_plotter.py:100 | `int(s)` of a k-digit string (leading zeros allowed) is below 10^k; its value is fixed by the round trips `Decimal.ParseNatToString` and `Decimal.NatToStringOfParse` and by `Clock.ParseTwoDigits` |
| Decimal.NatToString | live_plotter.py:89 | `str(n)` is a non-empty digit string with no leading zero and no ':' |
| Decimal.ParseNatToString | live_plotter.py:100 | `int(str(n)) == n` for every natural n |
| Decimal.NatToStringOfParse | live_plotter.py:89 | `str(int(s)) == s` for every canonical digit string s |
| Clock.MinuteText | live_plotter.py:88-90 | `start[3:]` of a well-formed time is two digit characters |
| Clock.Hour | live_plotter.py:106 | the hour of a well-formed time is `int(s[:2])` and at most 23 |
| Clock.Minute | live_plotter.py:100 | the minute of a well-formed time is `int` of the minute text `s[3:]` and at most 59 |
| Clock.MinuteTextZero | live_plotter.py:90 | the minute text is "00" exactly when the minute is 0 |
| Clock.DiffHM | live_plotter.py:69-81 | hours*60 + minutes equals end minus start in minutes, 0 <= minutes < 60 (floor semantics, also for end before start), hours nonnegative exactly when start <= end |
| TimeAxis.BasePattern | live_plotter.py:88-89 | the pattern has 60 div interval slots; slot 0 is "00", or the start's minute text when interval is 60; slot k > 0 is unpadded `str(k*interval)`; each slot reads back as the minute it names |
| TimeAxis.BasePatternSorted | live_plotter.py:89 | the unreversed pattern names strictly increasing minutes |
| TimeAxis.Reverse | live_plotter.py:91 | `x_list[::-1]` keeps the length and puts element |s|-1-k at k |
| TimeAxis.Reverses | live_plotter.py:90 | the reversal test on the minute text "00" is the test that the start minute is nonzero, with a whole-hour span and an interval other than 15 |
| TimeAxis.Pattern | live_plotter.py:88-91 | `x_list` as used has 60 div interval slots, each digit text |
| TimeAxis.PatternSlots | live_plotter.py:88-91 | each slot of the pattern in use is digit text naming the minute of the unreversed slot, counted from the other end exactly when reversed |
| TimeAxis.PatternOrder | live_plotter.py:90-91 | with two or more slots, the pattern ascends exactly when not (diff_minutes == 0 and interval != 15 and minute text != "00"), and descends exactly when that condition holds |
| TimeAxis.PatternDistinct | live_plotter.py:89-91 | no minute text occurs twice in `x_list`, reversed or not |
| TimeAxis.Distance | live_plotter.py:100 | one entry of `x_diff`: zero exactly when the slot names the start minute, otherwise the gap between the two in either direction |
| TimeAxis.Distances | live_plotter.py:100 | `x_diff` has one entry per slot, entry k being the distance of slot k from the start minute |
| TimeAxis.Min | live_plotter.py:102 | `min` returns an element no greater than any other |
| TimeAxis.IndexOf | live_plotter.py:102 | `list.index` returns the first position holding the value |
| TimeAxis.Anchor | live_plotter.py:100-102 | the anchor is the smallest slot index minimising the distance between the slot's minute and the start minute |
| TimeAxis.SlotCount | live_plotter.py:96 | when the interval divides the hour, `x_range` is one more than the number of whole intervals in the span (floor division, also for a negative span) |
| TimeAxis.Label | live_plotter.py:114 | in `':'.join((str(hour), text))` the first ':' sits right after `str(hour)`, with the minute text after it |
| TimeAxis.ParseLabelOfLabel | live_plotter.py:114 | a label `str(h) + ":" + t` reads back as hour h and minute text t |
| TimeAxis.HourStep | live_plotter.py:111-113 | one loop turn, adding 1 when the walk reaches slot 0, moves the hour counter from its closed form at i-1 to its closed form at i |
| TimeAxis.WalkPattern | live_plotter.py:106-115 | the literal label loop, started one hour early when the anchor is 0, yields max(0, x_range) labels, label i being hour start+(i+anchor) div len with slot (i+anchor) mod len |
| TimeAxis.GetXyVec | live_plotter.py:83-118 | the axis has max(0, diff_hour*(60 div interval) + diff_minutes div interval + 1) labels, equals the closed-form axis, and the value vector is all zeros of the same length |
| AxisProperties.AxisNonEmpty | live_plotter.py:96 | a start no later than the end gives at least one label |
| AxisProperties.AxisEmptyWhenEndBeforeStart | live_plotter.py:96 | with an interval dividing 60, an end before the start gives no label |
| AxisProperties.FirstLabelHour | live_plotter.py:106-113 | the first label always carries the start hour and the anchor's slot: the -1 for anchor 0 is cancelled by the first roll-over |
| AxisProperties.LabelsReadBack | live_plotter.py:109-115 | every label reads back as hour start+(i+anchor) div len and the minute text of slot (i+anchor) mod len |
| AxisProperties.WalkDistinct | live_plotter.py:109-115 | a walk over a pattern without repeated slots produces no repeated label |
| AxisProperties.AxisDistinct | live_plotter.py:83-118 | no two labels of the axis are equal, so in particular no two consecutive ones |
| AxisProperties.WalkHoursOrdered | live_plotter.py:110-113 | the closed-form hour counter is never below the start hour and never decreases; it equals the start hour at step 0 when the anchor lies inside the pattern |
| AxisProperties.AxisHoursOrdered | live_plotter.py:106-115 | every label of the axis reads back as an hour and minute text, the first label shows the start hour, and label hours never decrease along the axis |
| AxisProperties.TenToFourteenByHalfHours | live_plotter.py:83-118 | 10:00 to 14:00 every 30 minutes gives exactly 10:00, 10:30, ..., 14:00 (9 labels) |
| AxisProperties.HalfPastReversed | live_plotter.py:88-115 | 10:30 to 12:30 every 30 minutes gives 10:30, 10:00, 11:30, 11:00, 12:30 |
| AxisProperties.SevenMinutesEndBeforeStart | live_plotter.py:89-96 | 10:01 to 10:00 every 7 minutes gives the single label 10:00 |
| DataFeed.KeepMultiples | live_plotter.py:135 | the kept samples are, in order, those at indices 0, step, 2*step, ..., ⌈N/step⌉ of them; the first sample is always kept |
| DataFeed.KeepMultiplesComplete | live_plotter.py:135 | every sample whose index is a multiple of step is kept, at position index div step |
| DataFeed.Downsample | live_plotter.py:134-135 | fails with EmptyAxis exactly when there are no labels and with TooFewSamples exactly when 0 < N < labels; no samples give no kept samples; otherwise step >= 1, ⌈N/step⌉ >= labels samples are kept, j-th being sample j*step |
| DataFeed.NinetySamplesNineLabels | live_plotter.py:134-135 | 90 samples on 9 labels keep exactly samples 0, 10, ..., 80 |
| Playback.Play | live_plotter.py:142-145 | min(kept, labels) frames; in frame i positions 0..i hold kept samples and later positions are unchanged; the final buffer is the last frame |
| Playback.FrameStep | live_plotter.py:144 | consecutive frames differ only at the position written, which receives the kept sample |
| Playback.Run | live_plotter.py:132-145 | fails with EmptyAxis exactly when the axis is empty and TooFewSamples exactly when 0 < N < axis length; otherwise one frame per label (none without samples), frame i holding samples j*step at positions j <= i and 0 after |
| Playback.StackedComplement | live_plotter.py:49 | same length; each non-zero bar plus its complement reaches n; zero bars get complement 0 |
| Playback.StackedComplementTwice | live_plotter.py:49 | the complement taken twice gives the bars back when no bar equals n |

## Left out

- Drawing: `draw_plot`, the matplotlib calls of `bar_plotter` and `line_plotter`, the global style and figure-size settings, `plt.ion`, `plt.pause` and `plt.clf`. These are rendering side effects in an external library. A frame of `Playback.Play` stands for one plotter call.
- `fm.FontProperties` and the font argument: an external library, passed through to the drawing only.
- `parse_arguments`: command-line parsing. The model receives start, end, interval and samples directly.
- The `int(...)` coercions of command-line values: the model receives them as integers.
- `args.number`: handed to `bar_plotter` as given. It is a string whenever the flag is supplied, which would make `N - data` raise. `Playback.StackedComplement` takes the ceiling as an integer.
- `load_data`: file I/O. The samples are an input sequence of integers.
- `datetime.strptime` and `total_seconds()`: replaced by the precondition `Clock.WellFormed` and exact integer minutes. The precondition demands the zero-padded "HH:MM" form.
  - It excludes malformed times, on which `strptime` raises; these are not modelled as an error value.
  - It also excludes one-digit fields, which `strptime('%H:%M')` accepts. With a one-digit minute the program runs on. For "10:0", `start[3:]` is "0", not "00", so line 90 can reverse the pattern: "10:0" to "12:0" every 30 minutes gives 10:00, 11:30, 11:00, 12:30, 12:00.
  - A one-digit hour such as "9:05" passes `strptime` but then makes `int(start[:2])` raise at line 106.
- Intervals outside 1 to 60: excluded by the precondition `TimeAxis.ValidInterval` rather than modelled as the exception they raise.
- `_check_time`: never called. Its assertions are inverted and it swallows every exception, so it has no observable effect.
- The debug `print` calls at lines 97, 101 and 103: output only.
- Plot-kind dispatch (lines 138-140): it only chooses which drawing function a frame goes to.
- Timing of playback (the pause between frames): a clock, not logic.
