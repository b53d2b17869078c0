/** `segmentVideo`: probe the duration, plan the windows, extract them in
    consecutive batches of at most `maxParallelProcessing`, keep the
    successes, sort them by the numeric suffix of their id, fall back to
    the whole file when none succeeded, and report progress along the
    way. The duration probe and the per-window extraction are the
    browser's; they enter as a `Probe` value and an oracle that yields
    the recorded byte size or fails. */
module Segmentation {
  import opened Outcomes
  import opened Strings
  import opened Sorting
  import opened Chunking
  import opened Formatting
  import opened SegmentPlan
  import opened Codec

  datatype VideoFile = VideoFile(name: string, mimeType: string, size: nat)

  /** `maxParallel` is `None` when the option is absent. */
  datatype Options = Options(mode: SegmentMethod, value: real, maxParallel: Option<nat>)

  datatype Status = Idle | Loading | Processing | Complete | Failed

  datatype Progress = Progress(percent: real, current: int, total: int, status: Status, error: Option<string>)

  datatype Blob = Blob(size: nat, mimeType: string)

  datatype Segment = Segment(
    id: string, blob: Blob, startTime: real, endTime: real, duration: real, size: nat, name: string)

  /** What loading the metadata yields: an error, or the duration. */
  datatype Probe = ProbeFailed | Probed(duration: Seconds)

  const MetadataError: string := "Error loading video metadata"
  const DurationError: string := "Could not determine video duration"

  /** The number `video.duration` reports: a finite non-negative value,
      NaN when no duration is known, or +Infinity for a stream that
      records no duration (as WebM files written by `MediaRecorder`
      commonly do). */
  datatype MediaDuration = Finite(seconds: Seconds) | NotANumber | Infinite

  /** The check `!videoDuration` as written: 0 and NaN are refused with
      the duration error; every other value, +Infinity included, goes on
      to planning. */
  function CheckDurationAsWritten(d: MediaDuration): (r: Result<MediaDuration>)
    ensures r.Err? <==> d.NotANumber? || d == Finite(0.0)
    ensures r.Err? ==> r.message == DurationError
    ensures r.Ok? ==> r.value == d
  {
    match d
    case NotANumber => Err(DurationError)
    case Finite(x) => if x == 0.0 then Err(DurationError) else Ok(d)
    case Infinite => Ok(d)
  }

  /** A loop bound as JavaScript computes it: a whole number, or +Infinity. */
  datatype LoopBound = Bounded(n: int) | Unbounded

  /** `totalSegments = Math.ceil(videoDuration / segmentDuration)` in time
      mode, for a duration that passed the check. */
  function TimeCountAsWritten(d: MediaDuration, value: real): (b: LoopBound)
    requires !d.NotANumber? && value > 0.0
    ensures d.Infinite? <==> b.Unbounded?
    ensures d.Finite? && d.seconds > 0.0 ==> b == Bounded(TimeCount(d.seconds, value))
  {
    match d
    case Finite(x) => Bounded(Ceil(x / value))
    case Infinite => Unbounded
  }

  /** The time-mode loop test `i < totalSegments`. */
  predicate LoopContinues(b: LoopBound, i: nat) {
    b.Unbounded? || i < b.n
  }

  /** An infinite duration passes the check as written, and the time-mode
      planning loop then never ends: its test holds for every `i`. */
  lemma InfiniteDurationHangs(value: real)
    requires value > 0.0
    ensures CheckDurationAsWritten(Infinite) == Ok(Infinite)
    ensures forall i: nat :: LoopContinues(TimeCountAsWritten(Infinite, value), i)
  {
  }

  /** The check as evidently intended: only a finite, positive duration
      goes on to planning. */
  function CheckDuration(d: MediaDuration): (r: Result<Seconds>)
    ensures r.Ok? <==> d.Finite? && d.seconds > 0.0
    ensures r.Ok? ==> r.value == d.seconds
    ensures r.Err? ==> r.message == DurationError
  {
    if d.Finite? && d.seconds > 0.0 then Ok(d.seconds) else Err(DurationError)
  }

  /** The intended check refuses everything the check as written refuses,
      and more exactly the infinite duration; whatever it lets through
      gives a planning loop that stops after `ceil(duration / value)`
      rounds. */
  lemma CheckDurationCorrects(d: MediaDuration, value: real)
    requires value > 0.0
    ensures CheckDurationAsWritten(d).Err? ==> CheckDuration(d).Err?
    ensures CheckDuration(d).Err? && CheckDurationAsWritten(d).Ok? <==> d.Infinite?
    ensures CheckDuration(d).Ok? ==>
      var b := TimeCountAsWritten(d, value);
      b.Bounded? && b.n >= 1 && !LoopContinues(b, b.n) && forall i: nat :: i < b.n ==> LoopContinues(b, i)
  {
  }

  /** `options.maxParallelProcessing || 2`. */
  function Parallelism(maxParallel: Option<nat>): (p: nat)
    ensures p >= 1
    ensures maxParallel.Some? && maxParallel.value != 0 ==> p == maxParallel.value
    ensures maxParallel.None? || maxParallel == Some(0) ==> p == 2
  {
    match maxParallel
    case None => 2
    case Some(v) => if v == 0 then 2 else v
  }

  function SegmentId(index: nat): string {
    "segment-" + NatToString(index)
  }

  /** `parseInt(id.split('-')[1])`: the digits that start the second
      dash-separated field. */
  function IdKey(id: string): int {
    var field := BeforeFirst(AfterFirst(id, '-').GetOr(""), '-');
    ParseDigits(DigitPrefix(field))
  }

  function SegmentKey(s: Segment): int {
    IdKey(s.id)
  }

  /** The sort key read back from an id is the index it was built from. */
  lemma IdKeyOfSegmentId(index: nat)
    ensures IdKey(SegmentId(index)) == index
  {
    var id := SegmentId(index);
    var digits := NatToString(index);
    assert id == "segment" + ['-'] + digits;
    assert BeforeFirst(id, '-') == "segment";
    assert AfterFirst(id, '-') == Some(digits);
    assert '-' !in digits by {
      forall c | c in digits ensures IsDigit(c) { }
    }
    ParseNatToString(index);
  }

  /** The display name of the segment of window `index`, whose bracketed
      detail is its time range or its size. */
  function SegmentName(index: nat, detail: string): (r: string)
    ensures StartsWith(r, "Segment " + NatToString(index + 1) + " (") && EndsWith(r, ")")
    ensures |detail| < |r| && r[|r| - |detail| - 1..|r| - 1] == detail
  {
    var head := "Segment " + NatToString(index + 1) + " (";
    var r := head + detail + ")";
    assert r[..|head|] == head;
    assert r[|r| - |detail| - 1..|r| - 1] == detail;
    r
  }

  /** The bracketed part of a segment name: its time range or its size. */
  function SegmentDetail(mode: SegmentMethod, w: Window, size: nat): string {
    match mode
    case ByTime => FormatTime(w.startTime) + " - " + FormatTime(w.endTime)
    case BySize => FormatSize(size)
  }

  /** The segment built from window `w` when its extraction recorded `size` bytes. */
  function MakeSegment(w: Window, size: nat, mode: SegmentMethod, blobType: string): Segment {
    Segment(SegmentId(w.index), Blob(size, blobType), w.startTime, w.endTime,
            w.endTime - w.startTime, size, SegmentName(w.index, SegmentDetail(mode, w, size)))
  }

  /** A built segment sorts by its window's index, spans the window, and
      carries the recorded size under the recording's blob type. */
  lemma MakeSegmentFields(w: Window, size: nat, mode: SegmentMethod, blobType: string)
    ensures var s := MakeSegment(w, size, mode, blobType);
      && SegmentKey(s) == w.index
      && s.startTime == w.startTime && s.endTime == w.endTime
      && s.duration == w.endTime - w.startTime
      && s.size == size && s.blob == Blob(size, blobType)
  {
    IdKeyOfSegmentId(w.index);
  }

  /** No extracted segment shares the fallback's id. */
  lemma SegmentIdNotOriginal(index: nat)
    ensures SegmentId(index) != "segment-original"
  {
    var digits := NatToString(index);
    assert SegmentId(index)[8] == digits[0];
    assert IsDigit(digits[0]);
  }

  /** A window whose extraction succeeded, with the recorded byte size. */
  datatype Extracted = Extracted(window: Window, size: nat)

  /** A batch mapped through the extraction oracle with the failures
      (`null` results) dropped, order kept. */
  function Successes(ws: seq<Window>, extract: Window -> Option<nat>): seq<Extracted> {
    if ws == [] then []
    else
      var rest := Successes(ws[1..], extract);
      match extract(ws[0])
      case None => rest
      case Some(size) => [Extracted(ws[0], size)] + rest
  }

  /** `xs.map(f)`. */
  function MapSeq<A, B>(f: A -> B, xs: seq<A>): (r: seq<B>)
    ensures |r| == |xs|
    ensures forall j :: 0 <= j < |xs| ==> r[j] == f(xs[j])
  {
    seq(|xs|, j requires 0 <= j < |xs| => f(xs[j]))
  }

  lemma MapAppend<A, B>(f: A -> B, a: seq<A>, b: seq<A>)
    ensures MapSeq(f, a + b) == MapSeq(f, a) + MapSeq(f, b)
  {
    var l, r := MapSeq(f, a + b), MapSeq(f, a) + MapSeq(f, b);
    forall j | 0 <= j < |l| ensures l[j] == r[j] {
      if j < |a| {
        assert (a + b)[j] == a[j];
      } else {
        assert (a + b)[j] == b[j - |a|];
      }
    }
  }

  /** The segment built from one success. */
  function Builder(mode: SegmentMethod, blobType: string): Extracted -> Segment {
    (x: Extracted) => MakeSegment(x.window, x.size, mode, blobType)
  }

  /** The segment objects of the successes, in the same order. */
  function ToSegments(xs: seq<Extracted>, mode: SegmentMethod, blobType: string): (r: seq<Segment>)
    ensures |r| == |xs|
  {
    MapSeq(Builder(mode, blobType), xs)
  }

  /** The `j`-th segment is built from the `j`-th success. */
  lemma ToSegmentsAt(xs: seq<Extracted>, mode: SegmentMethod, blobType: string)
    ensures forall j :: 0 <= j < |xs| ==>
      ToSegments(xs, mode, blobType)[j] == MakeSegment(xs[j].window, xs[j].size, mode, blobType)
  {
  }

  lemma ToSegmentsAppend(a: seq<Extracted>, b: seq<Extracted>, mode: SegmentMethod, blobType: string)
    ensures ToSegments(a + b, mode, blobType) == ToSegments(a, mode, blobType) + ToSegments(b, mode, blobType)
  {
    MapAppend(Builder(mode, blobType), a, b);
  }

  /** Extracting batch by batch extracts the whole. */
  lemma {:induction false} SuccessesAppend(a: seq<Window>, b: seq<Window>, extract: Window -> Option<nat>)
    ensures Successes(a + b, extract) == Successes(a, extract) + Successes(b, extract)
    decreases |a|
  {
    if a == [] {
      assert a + b == b;
    } else {
      SuccessesAppend(a[1..], b, extract);
      assert (a + b)[0] == a[0];
      assert (a + b)[1..] == a[1..] + b;
    }
  }

  /** The successes are exactly the windows whose extraction succeeded,
      each with the size the extraction recorded. */
  lemma {:induction false} SuccessesMembers(ws: seq<Window>, extract: Window -> Option<nat>)
    ensures forall j :: 0 <= j < |Successes(ws, extract)| ==>
      Successes(ws, extract)[j].window in ws
      && extract(Successes(ws, extract)[j].window) == Some(Successes(ws, extract)[j].size)
    ensures forall i :: 0 <= i < |ws| && extract(ws[i]).Some? ==>
      Extracted(ws[i], extract(ws[i]).value) in Successes(ws, extract)
    decreases |ws|
  {
    if ws != [] {
      SuccessesMembers(ws[1..], extract);
      var rest := Successes(ws[1..], extract);
      var r := Successes(ws, extract);
      forall j | 0 <= j < |r|
        ensures r[j].window in ws && extract(r[j].window) == Some(r[j].size)
      {
        if extract(ws[0]).Some? && j > 0 {
          assert r[j] == rest[j - 1];
        }
      }
      forall i | 0 <= i < |ws| && extract(ws[i]).Some?
        ensures Extracted(ws[i], extract(ws[i]).value) in r
      {
        if i > 0 {
          assert ws[i] == ws[1..][i - 1];
        }
      }
    }
  }

  /** Window indices strictly increase along the list. */
  ghost predicate IncreasingIndices(ws: seq<Window>) {
    forall a, b :: 0 <= a < b < |ws| ==> ws[a].index < ws[b].index
  }

  /** Segment keys strictly increase along the list. */
  ghost predicate IncreasingKeys(ss: seq<Segment>) {
    forall a, b :: 0 <= a < b < |ss| ==> SegmentKey(ss[a]) < SegmentKey(ss[b])
  }

  /** The successes keep the order of their windows' indices, and start
      no earlier than the first window. */
  lemma {:induction false} SuccessesOrdered(ws: seq<Window>, extract: Window -> Option<nat>)
    requires IncreasingIndices(ws)
    ensures forall a, b :: 0 <= a < b < |Successes(ws, extract)| ==>
      Successes(ws, extract)[a].window.index < Successes(ws, extract)[b].window.index
    ensures ws != [] ==> forall j :: 0 <= j < |Successes(ws, extract)| ==>
      ws[0].index <= Successes(ws, extract)[j].window.index
    decreases |ws|
  {
    if ws != [] {
      var tail := ws[1..];
      assert IncreasingIndices(tail) by {
        forall a, b | 0 <= a < b < |tail| ensures tail[a].index < tail[b].index {
          assert tail[a] == ws[a + 1] && tail[b] == ws[b + 1];
        }
      }
      SuccessesOrdered(tail, extract);
      RestAfterFirst(ws, extract);
    }
  }

  /** The successes of the later windows all come after the first window. */
  lemma RestAfterFirst(ws: seq<Window>, extract: Window -> Option<nat>)
    requires ws != [] && IncreasingIndices(ws)
    ensures forall j :: 0 <= j < |Successes(ws[1..], extract)| ==>
      ws[0].index < Successes(ws[1..], extract)[j].window.index
  {
    var tail := ws[1..];
    SuccessesMembers(tail, extract);
    var rest := Successes(tail, extract);
    forall j | 0 <= j < |rest|
      ensures ws[0].index < rest[j].window.index
    {
      var i :| 0 <= i < |tail| && tail[i] == rest[j].window;
      assert ws[0].index < ws[i + 1].index;
    }
  }

  /** The single whole-file segment used when no extraction succeeded. */
  function Fallback(file: VideoFile, duration: Seconds): (s: Segment)
    ensures s.startTime == 0.0 && s.endTime == duration && s.duration == duration
    ensures s.size == file.size && s.blob == Blob(file.size, file.mimeType)
    ensures StartsWith(s.name, "Full Video (")
  {
    var name := "Full Video (" + FormatSize(file.size) + ")";
    assert name[..12] == "Full Video (";
    Segment("segment-original", Blob(file.size, file.mimeType), 0.0, duration, duration, file.size, name)
  }

  /** The segments returned for a file whose duration was probed: the
      segments of the successful extractions in plan order, or the
      whole-file fallback. */
  function Assemble(file: VideoFile, duration: Seconds, opts: Options,
                    extract: Window -> Option<nat>, isSupported: string -> bool): seq<Segment>
    requires duration > 0.0 && opts.value != 0.0
  {
    var plan := Plan(opts.mode, duration, file.size, opts.value);
    var found := ToSegments(Successes(plan, extract), opts.mode, BlobType(ChooseMimeType(isSupported)));
    if found == [] then [Fallback(file, duration)] else found
  }

  /** No window of `ws` was extracted. */
  ghost predicate NoneExtracted(ws: seq<Window>, extract: Window -> Option<nat>) {
    forall i :: 0 <= i < |ws| ==> extract(ws[i]).None?
  }

  /** Nothing is extracted exactly when no window's extraction succeeds. */
  lemma SuccessesEmpty(ws: seq<Window>, extract: Window -> Option<nat>)
    ensures Successes(ws, extract) == [] <==> NoneExtracted(ws, extract)
  {
    SuccessesMembers(ws, extract);
    var xs := Successes(ws, extract);
    if xs != [] {
      var i :| 0 <= i < |ws| && ws[i] == xs[0].window;
    }
  }

  /** The result is never empty, and it is the lone whole-file fallback
      exactly when no window of the plan was extracted. */
  lemma AssembleFallback(file: VideoFile, duration: Seconds, opts: Options,
                         extract: Window -> Option<nat>, isSupported: string -> bool)
    requires duration > 0.0 && opts.value != 0.0
    ensures |Assemble(file, duration, opts, extract, isSupported)| >= 1
    ensures Assemble(file, duration, opts, extract, isSupported) == [Fallback(file, duration)]
      <==> NoneExtracted(Plan(opts.mode, duration, file.size, opts.value), extract)
  {
    var plan := Plan(opts.mode, duration, file.size, opts.value);
    var xs := Successes(plan, extract);
    SuccessesEmpty(plan, extract);
    if xs != [] {
      SegmentIdNotOriginal(xs[0].window.index);
      ToSegmentsAt(xs, opts.mode, BlobType(ChooseMimeType(isSupported)));
      assert Assemble(file, duration, opts, extract, isSupported)[0].id == SegmentId(xs[0].window.index);
    }
  }

  /** A plan laid out window by window has increasing indices. */
  lemma IndexedIncreasing(ws: seq<Window>)
    requires Indexed(ws)
    ensures IncreasingIndices(ws)
  {
  }

  /** The segments collected from windows of increasing index have
      strictly increasing sort keys. */
  lemma SegmentsIncreasing(ws: seq<Window>, extract: Window -> Option<nat>, mode: SegmentMethod, blobType: string)
    requires IncreasingIndices(ws)
    ensures IncreasingKeys(ToSegments(Successes(ws, extract), mode, blobType))
  {
    var xs := Successes(ws, extract);
    var r := ToSegments(xs, mode, blobType);
    ToSegmentsAt(xs, mode, blobType);
    SuccessesOrdered(ws, extract);
    forall j | 0 <= j < |r| ensures SegmentKey(r[j]) == xs[j].window.index {
      MakeSegmentFields(xs[j].window, xs[j].size, mode, blobType);
    }
  }

  /** Otherwise the segments come in strictly increasing index order. */
  lemma AssembleOrdered(file: VideoFile, duration: Seconds, opts: Options,
                        extract: Window -> Option<nat>, isSupported: string -> bool)
    requires duration > 0.0 && opts.value != 0.0
    ensures IncreasingKeys(Assemble(file, duration, opts, extract, isSupported))
      || Assemble(file, duration, opts, extract, isSupported) == [Fallback(file, duration)]
  {
    var plan := Plan(opts.mode, duration, file.size, opts.value);
    PlanWellShaped(opts.mode, duration, file.size, opts.value);
    var blobType := BlobType(ChooseMimeType(isSupported));
    IndexedIncreasing(plan);
    SegmentsIncreasing(plan, extract, opts.mode, blobType);
  }

  /** Otherwise the result holds exactly the segments of the extracted
      windows: each one is built from a window whose extraction succeeded,
      and every such window's segment is present. */
  lemma AssembleMembers(file: VideoFile, duration: Seconds, opts: Options,
                        extract: Window -> Option<nat>, isSupported: string -> bool)
    requires duration > 0.0 && opts.value != 0.0
    requires !NoneExtracted(Plan(opts.mode, duration, file.size, opts.value), extract)
    ensures var r, plan := Assemble(file, duration, opts, extract, isSupported), Plan(opts.mode, duration, file.size, opts.value);
      forall j :: 0 <= j < |r| ==>
        (exists i :: (0 <= i < |plan| && extract(plan[i]).Some?
          && r[j] == MakeSegment(plan[i], extract(plan[i]).value, opts.mode, BlobType(ChooseMimeType(isSupported)))))
    ensures var r, plan := Assemble(file, duration, opts, extract, isSupported), Plan(opts.mode, duration, file.size, opts.value);
      forall i :: 0 <= i < |plan| && extract(plan[i]).Some? ==>
        MakeSegment(plan[i], extract(plan[i]).value, opts.mode, BlobType(ChooseMimeType(isSupported))) in r
  {
    var plan := Plan(opts.mode, duration, file.size, opts.value);
    var blobType := BlobType(ChooseMimeType(isSupported));
    SuccessesEmpty(plan, extract);
    assert Assemble(file, duration, opts, extract, isSupported) == ToSegments(Successes(plan, extract), opts.mode, blobType);
    SegmentsFromSuccesses(plan, extract, opts.mode, blobType);
    SuccessesHaveSegments(plan, extract, opts.mode, blobType);
  }

  /** Each segment collected from `ws` is built from a window of `ws`
      whose extraction succeeded, with the size it recorded. */
  lemma SegmentsFromSuccesses(ws: seq<Window>, extract: Window -> Option<nat>, mode: SegmentMethod, blobType: string)
    ensures var r := ToSegments(Successes(ws, extract), mode, blobType);
      forall j :: 0 <= j < |r| ==>
        (exists i :: (0 <= i < |ws| && extract(ws[i]).Some?
          && r[j] == MakeSegment(ws[i], extract(ws[i]).value, mode, blobType)))
  {
    var xs := Successes(ws, extract);
    SuccessesMembers(ws, extract);
    var r := ToSegments(xs, mode, blobType);
    ToSegmentsAt(xs, mode, blobType);
    forall j | 0 <= j < |r|
      ensures exists i :: (0 <= i < |ws| && extract(ws[i]).Some?
        && r[j] == MakeSegment(ws[i], extract(ws[i]).value, mode, blobType))
    {
      var i :| 0 <= i < |ws| && ws[i] == xs[j].window;
    }
  }

  /** Every window of `ws` whose extraction succeeded has its segment
      among those collected. */
  lemma SuccessesHaveSegments(ws: seq<Window>, extract: Window -> Option<nat>, mode: SegmentMethod, blobType: string)
    ensures forall i :: 0 <= i < |ws| && extract(ws[i]).Some? ==>
      MakeSegment(ws[i], extract(ws[i]).value, mode, blobType) in ToSegments(Successes(ws, extract), mode, blobType)
  {
    var xs := Successes(ws, extract);
    SuccessesMembers(ws, extract);
    var r := ToSegments(xs, mode, blobType);
    ToSegmentsAt(xs, mode, blobType);
    forall i | 0 <= i < |ws| && extract(ws[i]).Some?
      ensures MakeSegment(ws[i], extract(ws[i]).value, mode, blobType) in r
    {
      var j :| 0 <= j < |xs| && xs[j] == Extracted(ws[i], extract(ws[i]).value);
      assert r[j] == MakeSegment(ws[i], extract(ws[i]).value, mode, blobType);
    }
  }

  /** The batch progress `25 + processed / total * 70`. */
  function BatchPercent(processed: nat, total: int): (r: real)
    requires 0 < total && processed <= total
    ensures 25.0 <= r <= 95.0
    ensures processed == total ==> r == 95.0
  {
    25.0 + (processed as real / total as real) * 70.0
  }

  lemma BatchPercentMonotone(a: nat, b: nat, total: int)
    requires a <= b <= total && 0 < total
    ensures BatchPercent(a, total) <= BatchPercent(b, total)
  {
    var t := total as real;
    assert b as real / t == a as real / t + (b - a) as real / t;
  }

  /** The report after a batch that brought the processed count to `processed`. */
  function BatchReport(processed: nat, total: int): Progress
    requires 0 < total && processed <= total
  {
    Progress(BatchPercent(processed, total), processed, total, Processing, None)
  }

  lemma {:induction false} StepsMonotone(a: nat, b: nat, k: nat)
    requires a <= b
    ensures Steps(a, k) <= Steps(b, k)
    decreases b - a
  {
    if a < b {
      StepsMonotone(a, b - 1, k);
    }
  }

  /** `processedCount` after batch `b` of size `p` over `n` windows. */
  function ProcessedAfter(b: nat, p: nat, n: nat): (c: nat)
    ensures c <= n
  {
    Min(Steps(b + 1, p), n)
  }

  /** Appending one batch's segments to those of the plan's prefix gives
      the segments of the longer prefix. */
  lemma AppendBatch(plan: seq<Window>, i: nat, hi: nat, extract: Window -> Option<nat>,
                    mode: SegmentMethod, blobType: string)
    requires i <= hi <= |plan|
    ensures ToSegments(Successes(plan[..i], extract), mode, blobType)
        + ToSegments(Successes(plan[i..hi], extract), mode, blobType)
      == ToSegments(Successes(plan[..hi], extract), mode, blobType)
  {
    SuccessesAppend(plan[..i], plan[i..hi], extract);
    assert plan[..i] + plan[i..hi] == plan[..hi];
    ToSegmentsAppend(Successes(plan[..i], extract), Successes(plan[i..hi], extract), mode, blobType);
  }

  /** The batch loop: `plan[i .. i + p]` for `i = 0, p, 2p, ...`, each
      batch extracted and its successes appended as segments, with one
      report per batch giving the count processed so far. */
  method RunBatches(plan: seq<Window>, p: nat, extract: Window -> Option<nat>, mode: SegmentMethod, blobType: string)
    returns (segments: seq<Segment>, reports: seq<Progress>)
    requires p >= 1
    ensures segments == ToSegments(Successes(plan, extract), mode, blobType)
    ensures |reports| == |Chunk(plan, p)|
    ensures forall b :: 0 <= b < |reports| ==> reports[b] == BatchReport(ProcessedAfter(b, p, |plan|), |plan|)
  {
    var n := |plan|;
    segments := [];
    reports := [];
    var processed := 0;
    var i := 0;
    ghost var k: nat := 0;
    while i < n
      invariant i == Steps(k, p)
      invariant k <= |Chunk(plan, p)|
      invariant processed == Min(i, n)
      invariant segments == ToSegments(Successes(plan[..processed], extract), mode, blobType)
      invariant |reports| == k
      invariant forall b :: 0 <= b < k ==> reports[b] == BatchReport(ProcessedAfter(b, p, n), n)
      decreases n - i
    {
      ChunkCountSteps(plan, p, k);
      var hi := Min(i + p, n);
      var batch := plan[i..hi];
      AppendBatch(plan, i, hi, extract, mode, blobType);
      segments := segments + ToSegments(Successes(batch, extract), mode, blobType);
      processed := processed + |batch|;
      NextBatch(k, p, n, i);
      ReportsExtend(reports, k, p, n);
      reports := reports + [BatchReport(processed, n)];
      i := i + p;
      k := k + 1;
    }
    ChunkCountSteps(plan, p, k);
    assert plan[..processed] == plan;
  }

  /** The batch starting at `Steps(k, p)` ends where batch `k + 1` starts. */
  lemma NextBatch(k: nat, p: nat, n: nat, i: nat)
    requires i == Steps(k, p) && i < n
    ensures Steps(k + 1, p) == i + p
    ensures ProcessedAfter(k, p, n) == Min(i + p, n)
  {
  }

  /** One more report, for batch `k`, keeps the reports in step with the batches. */
  lemma ReportsExtend(reports: seq<Progress>, k: nat, p: nat, n: nat)
    requires 0 < n && |reports| == k
    requires forall b :: 0 <= b < k ==> reports[b] == BatchReport(ProcessedAfter(b, p, n), n)
    ensures var next := reports + [BatchReport(ProcessedAfter(k, p, n), n)];
      forall b :: 0 <= b < k + 1 ==> next[b] == BatchReport(ProcessedAfter(b, p, n), n)
  {
  }

  /** `processedCount` after batch `b` is `min((b + 1) * p, n)`. */
  lemma ProcessedAfterProduct(b: nat, p: nat, n: nat)
    ensures ProcessedAfter(b, p, n) == Min((b + 1) * p, n)
  {
    StepsIsProduct(b + 1, p);
  }

  /** The batch reports' percentages never decrease. */
  lemma BatchReportsMonotone(p: nat, n: nat, a: nat, b: nat)
    requires 0 < n && a <= b
    ensures BatchPercent(ProcessedAfter(a, p, n), n) <= BatchPercent(ProcessedAfter(b, p, n), n)
  {
    StepsMonotone(a + 1, b + 1, p);
    BatchPercentMonotone(ProcessedAfter(a, p, n), ProcessedAfter(b, p, n), n);
  }

  const Started: Progress := Progress(0.0, 0, 0, Loading, None)
  const DurationKnown: Progress := Progress(20.0, 0, 0, Processing, None)

  function Planned(total: int): Progress {
    Progress(25.0, 0, total, Processing, None)
  }

  function Finished(count: nat): Progress {
    Progress(100.0, count, count, Complete, None)
  }

  function FailureReport(message: string): Progress {
    Progress(0.0, 0, 0, Failed, Some(message))
  }

  /** The progress percentages never decrease along the reports. */
  ghost predicate NonDecreasing(reports: seq<Progress>) {
    forall a, b :: 0 <= a < b < |reports| ==> reports[a].percent <= reports[b].percent
  }

  /** A run still in progress. */
  predicate InFlight(s: Status) {
    s == Loading || s == Processing
  }

  /** The reports of a run that reached the end of its plan. */
  function SuccessReports(total: int, batches: seq<Progress>, count: nat): seq<Progress> {
    [Started, DurationKnown, Planned(total)] + batches + [Finished(count)]
  }

  /** Start, probe and plan reports, then the batch reports, then the
      final one: the percentages never decrease, and every report but the
      last is in flight. */
  lemma SuccessReportsShape(total: int, batches: seq<Progress>, p: nat, n: nat, count: nat)
    requires 0 < n || batches == []
    requires forall b :: 0 <= b < |batches| ==> batches[b] == BatchReport(ProcessedAfter(b, p, n), n)
    ensures var rs := SuccessReports(total, batches, count);
      && |rs| == 4 + |batches|
      && rs[..3] == [Started, DurationKnown, Planned(total)]
      && (forall b :: 0 <= b < |batches| ==> rs[3 + b] == batches[b])
      && rs[|rs| - 1] == Finished(count)
      && (forall j :: 0 <= j < |rs| - 1 ==> InFlight(rs[j].status))
    ensures NonDecreasing(SuccessReports(total, batches, count))
  {
    var rs := SuccessReports(total, batches, count);
    ReportsLayout(total, batches, count);
    BatchPercentsRise(batches, p, n);
    forall j | 0 <= j < |rs| - 1 ensures InFlight(rs[j].status) {
      if 3 <= j {
        assert rs[j] == batches[j - 3];
      }
    }
    forall a, b | 0 <= a < b < |rs| ensures rs[a].percent <= rs[b].percent {
      ReportPercentsPair(rs, batches, a, b);
    }
  }

  /** Where each report of a finished run sits. */
  lemma ReportsLayout(total: int, batches: seq<Progress>, count: nat)
    ensures var rs := SuccessReports(total, batches, count);
      && |rs| == 4 + |batches|
      && rs[..3] == [Started, DurationKnown, Planned(total)]
      && (forall b :: 0 <= b < |batches| ==> rs[3 + b] == batches[b])
      && rs[|rs| - 1] == Finished(count)
  {
    var rs := SuccessReports(total, batches, count);
    forall b | 0 <= b < |batches| ensures rs[3 + b] == batches[b] {
    }
  }

  /** The batch reports lie between 25 and 95 and never go down. */
  lemma BatchPercentsRise(batches: seq<Progress>, p: nat, n: nat)
    requires 0 < n || batches == []
    requires forall b :: 0 <= b < |batches| ==> batches[b] == BatchReport(ProcessedAfter(b, p, n), n)
    ensures forall b :: 0 <= b < |batches| ==> 25.0 <= batches[b].percent <= 95.0 && batches[b].status == Processing
    ensures forall a, b :: 0 <= a < b < |batches| ==> batches[a].percent <= batches[b].percent
  {
    forall a, b | 0 <= a < b < |batches| ensures batches[a].percent <= batches[b].percent {
      BatchReportsMonotone(p, n, a, b);
    }
  }

  /** Two reports in order: the earlier percentage is not larger. */
  lemma ReportPercentsPair(rs: seq<Progress>, batches: seq<Progress>, a: nat, b: nat)
    requires |rs| == 4 + |batches| && a < b < |rs|
    requires rs[0].percent == 0.0 && rs[1].percent == 20.0 && rs[2].percent == 25.0
    requires rs[|rs| - 1].percent == 100.0
    requires forall k :: 0 <= k < |batches| ==> rs[3 + k] == batches[k]
    requires forall k :: 0 <= k < |batches| ==> 25.0 <= batches[k].percent <= 95.0
    requires forall c, d :: 0 <= c < d < |batches| ==> batches[c].percent <= batches[d].percent
    ensures rs[a].percent <= rs[b].percent
  {
    if 3 <= a && b < |rs| - 1 {
      assert rs[a] == batches[a - 3] && rs[b] == batches[b - 3];
    } else if 3 <= a {
      assert rs[a] == batches[a - 3];
    } else if 3 <= b < |rs| - 1 {
      assert rs[b] == batches[b - 3];
    }
  }

  /** `segmentVideo`. The duration comes from `probe`; `extract` records
      one window or fails; `isSupported` is the browser's
      `MediaRecorder.isTypeSupported`. Returns the segments or the error
      the promise rejects with, and the reports passed to `onProgress`. */
  method SegmentVideo(file: VideoFile, probe: Probe, opts: Options,
                      extract: Window -> Option<nat>, isSupported: string -> bool)
    returns (r: Result<seq<Segment>>, reports: seq<Progress>)
    requires opts.value != 0.0
    ensures probe.ProbeFailed? ==> r == Err(MetadataError) && reports == [Started, FailureReport(MetadataError)]
    ensures probe == Probed(0.0) ==> r == Err(DurationError) && reports == [Started, FailureReport(DurationError)]
    ensures probe.Probed? && probe.duration > 0.0 ==>
      var plan := Plan(opts.mode, probe.duration, file.size, opts.value);
      var p := Parallelism(opts.maxParallel);
      && r == Ok(Assemble(file, probe.duration, opts, extract, isSupported))
      && |reports| == 4 + |Chunk(plan, p)|
      && reports[..3] == [Started, DurationKnown, Planned(TotalSegments(opts.mode, probe.duration, file.size, opts.value))]
      && (forall b :: 0 <= b < |Chunk(plan, p)| ==>
            reports[3 + b] == BatchReport(ProcessedAfter(b, p, |plan|), |plan|))
      && reports[|reports| - 1] == Finished(|r.value|)
    ensures NonDecreasing(reports)
    ensures forall j :: 0 <= j < |reports| - 1 ==> InFlight(reports[j].status)
    ensures reports[|reports| - 1].status == (if r.Ok? then Complete else Failed)
  {
    if probe.ProbeFailed? {
      return Err(MetadataError), [Started, FailureReport(MetadataError)];
    }
    var duration := probe.duration;
    if duration == 0.0 {
      return Err(DurationError), [Started, FailureReport(DurationError)];
    }
    var p := Parallelism(opts.maxParallel);
    var total := TotalSegments(opts.mode, duration, file.size, opts.value);
    var plan := Plan(opts.mode, duration, file.size, opts.value);
    PlanWellShaped(opts.mode, duration, file.size, opts.value);
    var blobType := BlobType(ChooseMimeType(isSupported));
    var segments, batchReports := RunBatches(plan, p, extract, opts.mode, blobType);
    IndexedIncreasing(plan);
    SegmentsIncreasing(plan, extract, opts.mode, blobType);
    SortBySortedIsIdentity(segments, SegmentKey);
    segments := SortBy(segments, SegmentKey);
    if segments == [] {
      segments := [Fallback(file, duration)];
    }
    reports := SuccessReports(total, batchReports, |segments|);
    r := Ok(segments);
    SuccessReportsShape(total, batchReports, p, |plan|, |segments|);
  }
}
