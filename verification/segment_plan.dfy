/** The segment planner of `segmentVideo`: from the probed duration, the
    file size and the chosen mode it lays out the `{startTime, endTime,
    index}` windows that are later extracted. Times are exact reals, so
    the floating-point drift of the size-based accumulation is not
    modelled. */
module SegmentPlan {
  import opened Formatting

  datatype SegmentMethod = ByTime | BySize

  datatype Window = Window(startTime: Seconds, endTime: Seconds, index: nat)

  /** Bytes in one megabyte of the size option (`value * 1024 * 1024`). */
  const BytesPerMB: real := 1048576.0

  /** `Math.ceil` of a real. */
  function Ceil(x: real): (c: int)
    ensures c as real - 1.0 < x <= c as real
  {
    if x == x.Floor as real then x.Floor else x.Floor + 1
  }

  function RMin(a: Seconds, b: Seconds): Seconds {
    if a <= b then a else b
  }

  /** Time mode: as many windows as `value`-second steps needed to pass the duration. */
  function TimeCount(duration: real, seconds: real): (n: nat)
    requires duration > 0.0 && seconds > 0.0
    ensures n >= 1
  {
    Ceil(duration / seconds)
  }

  /** `i * step`, the start of the `i`-th step. */
  function Offset(i: nat, step: real): (r: real)
    ensures step >= 0.0 ==> r >= 0.0
  {
    i as real * step
  }

  lemma OffsetSucc(i: nat, step: real)
    ensures Offset(i + 1, step) == Offset(i, step) + step
  {
  }

  lemma OffsetZero(step: real)
    ensures Offset(0, step) == 0.0
  {
  }

  /** Steps taken before the quotient `d / step` end before `d`. */
  lemma OffsetBelow(i: nat, step: real, d: real)
    requires step > 0.0 && (i as real) < d / step
    ensures Offset(i, step) < d
  {
    MulStrict(i as real, d / step, step);
    assert (d / step) * step == d;
  }

  lemma MulStrict(a: real, b: real, c: real)
    requires a < b && c > 0.0
    ensures a * c < b * c
  {
  }

  /** Steps taken up to the quotient `d / step` reach `d`. */
  lemma OffsetReaches(n: nat, step: real, d: real)
    requires step > 0.0 && d / step <= n as real
    ensures d <= Offset(n, step)
  {
    MulMonotone(d / step, n as real, step);
    assert (d / step) * step == d;
  }

  lemma MulMonotone(a: real, b: real, c: real)
    requires a <= b && c > 0.0
    ensures a * c <= b * c
  {
  }

  lemma OffsetWhole(n: nat, d: real)
    requires n >= 1
    ensures Offset(n, d / n as real) == d
  {
  }

  /** Time mode: window `i` is `[i * value, min((i + 1) * value, duration)]`. */
  function TimePlan(duration: Seconds, seconds: real): seq<Window>
    requires duration > 0.0 && seconds > 0.0
  {
    seq(TimeCount(duration, seconds), i requires 0 <= i =>
      Window(Offset(i, seconds), RMin(Offset(i + 1, seconds), duration), i))
  }

  /** Size mode: `Math.ceil(file.size / (value * 1024 * 1024))` windows. */
  function SizeCount(fileSize: nat, megabytes: real): (n: nat)
    requires megabytes > 0.0
    ensures fileSize == 0 <==> n == 0
  {
    var c := Ceil(fileSize as real / (megabytes * BytesPerMB));
    assert fileSize > 0 ==> fileSize as real / (megabytes * BytesPerMB) > 0.0;
    c
  }

  /** The size-mode loop from window `i` on: each window starts where the
      previous one ended and lasts `step` seconds, clipped at the duration. */
  function SizeWindowsFrom(current: Seconds, i: nat, n: nat, step: Seconds, duration: Seconds): seq<Window>
    decreases n - i
  {
    if i >= n then []
    else
      var end := RMin(current + step, duration);
      [Window(current, end, i)] + SizeWindowsFrom(end, i + 1, n, step, duration)
  }

  /** Size mode: `n` windows of `duration / n` seconds from time 0 (none for an empty file). */
  function SizePlan(duration: Seconds, fileSize: nat, megabytes: real): seq<Window>
    requires megabytes > 0.0
  {
    var n := SizeCount(fileSize, megabytes);
    if n == 0 then [] else SizeWindowsFrom(0.0, 0, n, duration / n as real, duration)
  }

  /** `totalSegments`: `Math.ceil` of the duration over the step in time
      mode, of the file size over the byte target in size mode. A
      negative option value makes it zero or negative. */
  function TotalSegments(mode: SegmentMethod, duration: real, fileSize: nat, value: real): int
    requires value != 0.0
  {
    match mode
    case ByTime => Ceil(duration / value)
    case BySize => Ceil(fileSize as real / (value * BytesPerMB))
  }

  /** The window definitions; the loops do not run for a non-positive total. */
  function Plan(mode: SegmentMethod, duration: real, fileSize: nat, value: real): seq<Window>
    requires duration > 0.0 && value != 0.0
  {
    if value < 0.0 then []
    else
      match mode
      case ByTime => TimePlan(duration, value)
      case BySize => SizePlan(duration, fileSize, value)
  }

  /** Every window is a non-empty interval. */
  ghost predicate Forward(ws: seq<Window>) {
    forall i :: 0 <= i < |ws| ==> ws[i].startTime < ws[i].endTime
  }

  /** Window `i` sits at position `i`, and its interval is non-empty. */
  ghost predicate Indexed(ws: seq<Window>) {
    && Forward(ws)
    && forall i :: 0 <= i < |ws| ==> ws[i].index == i
  }

  /** The windows are contiguous: each starts where the previous one ends. */
  ghost predicate Contiguous(ws: seq<Window>) {
    forall i :: 0 < i < |ws| ==> ws[i - 1].endTime == ws[i].startTime
  }

  /** The windows tile `[0, duration]`: they start at 0, end at the
      duration, and are indexed, non-empty and contiguous. */
  ghost predicate Tiles(ws: seq<Window>, duration: real) {
    && |ws| >= 1
    && ws[0].startTime == 0.0
    && ws[|ws| - 1].endTime == duration
    && Indexed(ws)
    && Contiguous(ws)
  }

  /** The plan the segmentation uses is indexed, and tiles the whole
      duration unless it is empty, which happens only for an empty file
      in size mode. */
  ghost predicate PlanShape(ws: seq<Window>, duration: real) {
    Indexed(ws) && (|ws| > 0 ==> Tiles(ws, duration))
  }

  /** Time mode: `ceil(D / v)` windows of exactly `v` seconds except the
      last, which is at most `v`; together they tile `[0, D]`. */
  lemma TimePlanTiles(duration: real, seconds: real)
    requires duration > 0.0 && seconds > 0.0
    ensures Tiles(TimePlan(duration, seconds), duration)
    ensures |TimePlan(duration, seconds)| == Ceil(duration / seconds)
    ensures forall i :: 0 <= i < |TimePlan(duration, seconds)| - 1 ==>
      TimePlan(duration, seconds)[i].endTime - TimePlan(duration, seconds)[i].startTime == seconds
    ensures var ws := TimePlan(duration, seconds);
      0.0 < ws[|ws| - 1].endTime - ws[|ws| - 1].startTime <= seconds
  {
    var ws := TimePlan(duration, seconds);
    var n := |ws|;
    forall i | 0 <= i < n
      ensures ws[i].index == i && ws[i].startTime < ws[i].endTime
      ensures i < n - 1 ==> ws[i].endTime == ws[i + 1].startTime
      ensures i < n - 1 ==> ws[i].endTime - ws[i].startTime == seconds
    {
      TimeWindow(duration, seconds, i);
    }
    TimePlanEnds(duration, seconds);
  }

  /** Window `i` of the time plan: non-empty, `v` long and touching the
      next one unless it is the last. */
  lemma TimeWindow(duration: real, seconds: real, i: nat)
    requires duration > 0.0 && seconds > 0.0 && i < |TimePlan(duration, seconds)|
    ensures var ws := TimePlan(duration, seconds);
      && ws[i].index == i && ws[i].startTime < ws[i].endTime
      && (i < |ws| - 1 ==> ws[i].endTime == ws[i + 1].startTime)
      && (i < |ws| - 1 ==> ws[i].endTime - ws[i].startTime == seconds)
  {
    var n := |TimePlan(duration, seconds)|;
    assert (n - 1) as real < duration / seconds;
    OffsetBelow(i, seconds, duration);
    OffsetSucc(i, seconds);
    if i < n - 1 {
      OffsetBelow(i + 1, seconds, duration);
    }
  }

  /** The time plan starts at 0 and its last window ends at the duration,
      at most `v` after it starts. */
  lemma TimePlanEnds(duration: real, seconds: real)
    requires duration > 0.0 && seconds > 0.0
    ensures var ws := TimePlan(duration, seconds);
      && |ws| > 0 && ws[0].startTime == 0.0 && ws[|ws| - 1].endTime == duration
      && ws[|ws| - 1].endTime - ws[|ws| - 1].startTime <= seconds
  {
    var n := |TimePlan(duration, seconds)|;
    assert (n - 1) as real < duration / seconds <= n as real;
    OffsetZero(seconds);
    OffsetReaches(n, seconds, duration);
    OffsetSucc(n - 1, seconds);
  }

  /** The size-mode loop keeps `current = i * step` while `i <= n`, so
      window `i + j` is `[(i + j) * step, (i + j + 1) * step]`. */
  lemma {:induction false} SizeWindowsClosedForm(current: Seconds, i: nat, n: nat, step: Seconds, duration: Seconds)
    requires step > 0.0 && i <= n && Offset(n, step) == duration && current == Offset(i, step)
    ensures |SizeWindowsFrom(current, i, n, step, duration)| == n - i
    ensures forall j :: 0 <= j < n - i ==>
      SizeWindowsFrom(current, i, n, step, duration)[j]
        == Window(Offset(i + j, step), Offset(i + j + 1, step), i + j)
    decreases n - i
  {
    if i < n {
      OffsetSucc(i, step);
      OffsetMonotone(i + 1, n, step);
      var next := Offset(i + 1, step);
      var rest := SizeWindowsFrom(next, i + 1, n, step, duration);
      SizeWindowsClosedForm(next, i + 1, n, step, duration);
      var ws := SizeWindowsFrom(current, i, n, step, duration);
      assert ws == [Window(current, next, i)] + rest;
      forall j | 0 < j < n - i
        ensures ws[j] == Window(Offset(i + j, step), Offset(i + j + 1, step), i + j)
      {
        assert ws[j] == rest[j - 1];
        assert i + 1 + (j - 1) == i + j;
      }
    }
  }

  lemma {:induction false} OffsetMonotone(i: nat, j: nat, step: real)
    requires i <= j && step >= 0.0
    ensures Offset(i, step) <= Offset(j, step)
    decreases j - i
  {
    if i < j {
      OffsetMonotone(i, j - 1, step);
      OffsetSucc(j - 1, step);
    }
  }

  /** Size mode: a non-empty file gives `ceil(size / (value MB))` windows
      of equal length `D / n` tiling `[0, D]`; an empty file gives none. */
  lemma SizePlanTiles(duration: real, fileSize: nat, megabytes: real)
    requires duration > 0.0 && megabytes > 0.0
    ensures fileSize == 0 ==> SizePlan(duration, fileSize, megabytes) == []
    ensures |SizePlan(duration, fileSize, megabytes)| == SizeCount(fileSize, megabytes)
    ensures fileSize > 0 ==> Tiles(SizePlan(duration, fileSize, megabytes), duration)
    ensures forall i :: 0 <= i < |SizePlan(duration, fileSize, megabytes)| ==>
      SizePlan(duration, fileSize, megabytes)[i].endTime - SizePlan(duration, fileSize, megabytes)[i].startTime
        == duration / SizeCount(fileSize, megabytes) as real
  {
    var n := SizeCount(fileSize, megabytes);
    if n > 0 {
      var step := duration / n as real;
      OffsetWhole(n, duration);
      OffsetZero(step);
      SizeWindowsClosedForm(0.0, 0, n, step, duration);
      var ws := SizePlan(duration, fileSize, megabytes);
      forall i | 0 <= i < n
        ensures ws[i] == Window(Offset(i, step), Offset(i + 1, step), i)
        ensures ws[i].endTime - ws[i].startTime == step
      {
        assert 0 + i == i;
        OffsetSucc(i, step);
      }
      assert n - 1 + 1 == n;
    }
  }

  /** Either mode yields a plan of the expected shape, with one window
      per segment of the reported total, or none when the total is not
      positive; a non-empty plan needs a positive value, and an empty one
      comes only from a negative value or an empty file in size mode. */
  lemma PlanWellShaped(mode: SegmentMethod, duration: real, fileSize: nat, value: real)
    requires duration > 0.0 && value != 0.0
    ensures PlanShape(Plan(mode, duration, fileSize, value), duration)
    ensures |Plan(mode, duration, fileSize, value)| ==
      if TotalSegments(mode, duration, fileSize, value) > 0 then TotalSegments(mode, duration, fileSize, value) else 0
    ensures |Plan(mode, duration, fileSize, value)| == 0 <==> value < 0.0 || (mode == BySize && fileSize == 0)
  {
    if value < 0.0 {
      assert duration / value < 0.0;
      assert fileSize as real / (value * BytesPerMB) <= 0.0;
    } else {
      match mode
      case ByTime => TimePlanTiles(duration, value);
      case BySize => SizePlanTiles(duration, fileSize, value);
    }
  }

  /** Contiguous non-empty windows are ordered: an earlier window ends no
      later than a later one starts. */
  lemma {:induction false} TilesOrdered(ws: seq<Window>, duration: real, i: nat, j: nat)
    requires Tiles(ws, duration) && i < j < |ws|
    ensures ws[i].endTime <= ws[j].startTime
    decreases j - i
  {
    if j > i + 1 {
      TilesOrdered(ws, duration, i, j - 1);
    }
  }

  /** Coverage: every instant of `[0, D)` lies in exactly one window
      `[startTime, endTime)`. */
  lemma TilesCover(ws: seq<Window>, duration: real, t: real)
    requires Tiles(ws, duration) && 0.0 <= t < duration
    ensures exists i :: 0 <= i < |ws| && ws[i].startTime <= t < ws[i].endTime
    ensures forall i, j ::
      (0 <= i < |ws| && 0 <= j < |ws| && ws[i].startTime <= t < ws[i].endTime && ws[j].startTime <= t < ws[j].endTime)
      ==> i == j
  {
    CoverFrom(ws, duration, t, 0);
    forall i, j | 0 <= i < |ws| && 0 <= j < |ws| &&
      ws[i].startTime <= t < ws[i].endTime && ws[j].startTime <= t < ws[j].endTime
      ensures i == j
    {
      if i < j {
        TilesOrdered(ws, duration, i, j);
      } else if j < i {
        TilesOrdered(ws, duration, j, i);
      }
    }
  }

  lemma {:induction false} CoverFrom(ws: seq<Window>, duration: real, t: real, k: nat)
    requires Tiles(ws, duration) && k < |ws| && ws[k].startTime <= t < duration
    ensures exists i :: k <= i < |ws| && ws[i].startTime <= t < ws[i].endTime
    decreases |ws| - k
  {
    if t >= ws[k].endTime {
      CoverFrom(ws, duration, t, k + 1);
    }
  }
}
