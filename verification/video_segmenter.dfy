/** The pure parts of the `VideoSegmenter` component: the method and
    value controls, which segment the player shows, and the names given
    to downloaded segments. */
module VideoSegmenter {
  import opened Outcomes
  import opened Strings
  import opened Formatting
  import opened SegmentPlan
  import opened Segmentation

  /** The method and value the user has chosen. */
  datatype Settings = Settings(mode: SegmentMethod, value: real)

  /** The value a method starts with: 60 seconds, or 10 MB. */
  function DefaultValue(mode: SegmentMethod): real {
    match mode
    case ByTime => 60.0
    case BySize => 10.0
  }

  /** The slider's bounds: 5 to 300 seconds, or 1 to 50 MB. */
  function SliderMin(mode: SegmentMethod): int {
    match mode
    case ByTime => 5
    case BySize => 1
  }

  function SliderMax(mode: SegmentMethod): int {
    match mode
    case ByTime => 300
    case BySize => 50
  }

  predicate InRange(s: Settings) {
    SliderMin(s.mode) as real <= s.value <= SliderMax(s.mode) as real
  }

  /** The component mounts in time mode with the time default. */
  const Initial: Settings := Settings(ByTime, DefaultValue(ByTime))

  /** Clicking a method button selects it and resets the value to that
      method's default, whatever the value was. */
  function ChooseMode(s: Settings, mode: SegmentMethod): (t: Settings)
    ensures t.mode == mode && InRange(t) && t.value == DefaultValue(mode)
  {
    Settings(mode, DefaultValue(mode))
  }

  /** Dragging the slider: the range input hands back a whole number
      between its bounds, so a requested position `v` arrives clamped. */
  function Slide(s: Settings, v: int): (t: Settings)
    ensures t.mode == s.mode && InRange(t)
    ensures SliderMin(s.mode) <= v <= SliderMax(s.mode) ==> t.value == v as real
  {
    var lo, hi := SliderMin(s.mode), SliderMax(s.mode);
    Settings(s.mode, (if v < lo then lo else if v > hi then hi else v) as real)
  }

  datatype SettingsEvent = Pick(mode: SegmentMethod) | Drag(position: int)

  function Apply(s: Settings, e: SettingsEvent): Settings {
    match e
    case Pick(mode) => ChooseMode(s, mode)
    case Drag(v) => Slide(s, v)
  }

  function ApplyAll(s: Settings, es: seq<SettingsEvent>): Settings
    decreases |es|
  {
    if es == [] then s else ApplyAll(Apply(s, es[0]), es[1..])
  }

  /** Whatever the user does, the value stays within the current method's
      slider bounds, so the value handed to `segmentVideo` is positive. */
  lemma {:induction false} SettingsStayInRange(s: Settings, es: seq<SettingsEvent>)
    requires InRange(s)
    ensures InRange(ApplyAll(s, es))
    ensures ApplyAll(s, es).value > 0.0
    decreases |es|
  {
    if es != [] {
      SettingsStayInRange(Apply(s, es[0]), es[1..]);
    }
  }

  /** The settings the component starts with are in range. */
  lemma InitialInRange()
    ensures InRange(Initial) && Initial.value == 60.0
  {
  }

  /** The Segment button is disabled while a run is loading or processing. */
  predicate SegmentButtonDisabled(p: Progress) {
    InFlight(p.status)
  }

  /** Every report of a run but the last keeps the button disabled; the
      last one, complete or failed, enables it again. Stated for the
      reports of a run that reached the end of its plan and for those of
      a run stopped by its probe. */
  lemma ButtonReleasedAtEnd(total: int, batches: seq<Progress>, p: nat, n: nat, count: nat, message: string)
    requires 0 < n || batches == []
    requires forall b :: 0 <= b < |batches| ==> batches[b] == BatchReport(ProcessedAfter(b, p, n), n)
    ensures var rs := SuccessReports(total, batches, count);
      forall j :: 0 <= j < |rs| ==> (SegmentButtonDisabled(rs[j]) <==> j < |rs| - 1)
    ensures var rs := [Started, FailureReport(message)];
      forall j :: 0 <= j < |rs| ==> (SegmentButtonDisabled(rs[j]) <==> j < |rs| - 1)
  {
    SuccessReportsShape(total, batches, p, n, count);
  }

  /** A segment in the list, with the object URL made from its blob. */
  datatype Listed = Listed(segment: Segment, url: string)

  /** `segments.find(s => s.id === id)`, as the position found or `|ls|`. */
  function FindById(ls: seq<Listed>, id: string): (k: nat)
    ensures k <= |ls|
    ensures k < |ls| ==> ls[k].segment.id == id
    ensures forall j :: 0 <= j < k ==> ls[j].segment.id != id
  {
    if ls == [] then 0
    else if ls[0].segment.id == id then 0
    else 1 + FindById(ls[1..], id)
  }

  /** `getCurrentSegmentUrl`: the selected segment's URL, or the original
      video's when nothing (or the empty id) is selected or the id is no
      longer listed. */
  function CurrentUrl(ls: seq<Listed>, selected: Option<string>, videoUrl: string): (u: string)
    ensures (selected.None? || selected == Some("")) ==> u == videoUrl
    ensures selected.Some? && selected.value != "" ==>
      ((exists k :: 0 <= k < |ls| && ls[k].segment.id == selected.value
          && u == ls[k].url && forall j :: 0 <= j < k ==> ls[j].segment.id != selected.value)
       || ((forall k :: 0 <= k < |ls| ==> ls[k].segment.id != selected.value) && u == videoUrl))
  {
    if selected.None? || selected.value == "" then videoUrl
    else
      var k := FindById(ls, selected.value);
      if k < |ls| then ls[k].url else videoUrl
  }

  /** After a run the first segment becomes the selection; an empty
      result leaves the selection alone. */
  function SelectAfterRun(selected: Option<string>, ls: seq<Listed>): (s: Option<string>)
    ensures ls != [] ==> s == Some(ls[0].segment.id)
    ensures ls == [] ==> s == selected
  {
    if |ls| > 0 then Some(ls[0].segment.id) else selected
  }

  /** Right after a run that produced segments the player shows the first one. */
  lemma ShowsFirstAfterRun(selected: Option<string>, ls: seq<Listed>, videoUrl: string)
    requires ls != [] && ls[0].segment.id != ""
    ensures CurrentUrl(ls, SelectAfterRun(selected, ls), videoUrl) == ls[0].url
  {
  }

  /** No segment a run returns has the empty id, so the first one can
      always be selected. */
  lemma AssembledIdsNonEmpty(file: VideoFile, duration: Seconds, opts: Options,
                             extract: Window -> Option<nat>, isSupported: string -> bool)
    requires duration > 0.0 && opts.value != 0.0
    ensures forall j :: 0 <= j < |Assemble(file, duration, opts, extract, isSupported)| ==>
      Assemble(file, duration, opts, extract, isSupported)[j].id != ""
  {
    var r := Assemble(file, duration, opts, extract, isSupported);
    forall j | 0 <= j < |r| ensures r[j].id != "" {
      assert |r[j].id| >= 8;
    }
  }

  /** `getExtension`: the match of `/\.[0-9a-z]+$/i`. */
  function Extension(name: string): (e: string)
    ensures e != "" ==> EndsWith(name, e) && |e| >= 2 && e[0] == '.'
    ensures forall j :: 1 <= j < |e| ==> IsAsciiAlnum(e[j])
  {
    var n := AlnumRun(name);
    if 0 < n < |name| && name[|name| - n - 1] == '.' then name[|name| - n - 1..] else ""
  }

  /** The length of the longest run of ASCII letters and digits ending `s`. */
  function AlnumRun(s: string): (n: nat)
    ensures n <= |s|
    ensures forall i :: |s| - n <= i < |s| ==> IsAsciiAlnum(s[i])
    ensures n < |s| ==> !IsAsciiAlnum(s[|s| - n - 1])
  {
    if |s| == 0 || !IsAsciiAlnum(s[|s| - 1]) then 0 else 1 + AlnumRun(s[..|s| - 1])
  }

  /** The pattern matches at `i`: a dot followed by one or more letters
      or digits up to the end of the name. */
  predicate ExtensionAt(name: string, i: int) {
    0 <= i < |name| - 1 && name[i] == '.' && forall j :: i < j < |name| ==> IsAsciiAlnum(name[j])
  }

  /** `getExtension` returns the match wherever the pattern matches, and
      the empty string exactly when it matches nowhere. */
  lemma ExtensionIsMatch(name: string)
    ensures forall i :: ExtensionAt(name, i) ==> Extension(name) == name[i..]
    ensures Extension(name) == "" <==> forall i :: !ExtensionAt(name, i)
  {
    var n := AlnumRun(name);
    forall i | ExtensionAt(name, i) ensures Extension(name) == name[i..] {
      assert !IsAsciiAlnum(name[i]);
      assert n == |name| - i - 1;
    }
    if Extension(name) == "" {
      forall i ensures !ExtensionAt(name, i) {
      }
    } else {
      assert ExtensionAt(name, |name| - n - 1);
    }
  }

  /** The name `handleDownloadAll` gives the `index`-th segment. */
  function DownloadAllName(index: nat, fileName: string): (r: string)
    ensures StartsWith(r, "segment_") && EndsWith(r, Extension(fileName))
    ensures var e := Extension(fileName);
      8 < |r| - |e| && AllDigits(r[8..|r| - |e|]) && ParseDigits(r[8..|r| - |e|]) == index + 1
  {
    var digits, e := NatToString(index + 1), Extension(fileName);
    var r := "segment_" + digits + e;
    assert r[..8] == "segment_";
    assert r[8..|r| - |e|] == digits;
    ParseNatToString(index + 1);
    r
  }

  function DownloadAllNames(ls: seq<Listed>, fileName: string): (names: seq<string>)
    ensures |names| == |ls|
  {
    seq(|ls|, i requires 0 <= i < |ls| => DownloadAllName(i, fileName))
  }

  /** Two positions never share a download name. */
  lemma DownloadAllNamesDistinct(ls: seq<Listed>, fileName: string)
    ensures forall i, j :: 0 <= i < j < |ls| ==>
      DownloadAllNames(ls, fileName)[i] != DownloadAllNames(ls, fileName)[j]
  {
    var names := DownloadAllNames(ls, fileName);
    forall i, j | 0 <= i < j < |ls| ensures names[i] != names[j] {
      if names[i] == names[j] {
        DownloadAllNameInjective(i, j, fileName);
      }
    }
  }

  lemma DownloadAllNameInjective(i: nat, j: nat, fileName: string)
    requires DownloadAllName(i, fileName) == DownloadAllName(j, fileName)
    ensures i == j
  {
    var e := Extension(fileName);
    var a, b := NatToString(i + 1), NatToString(j + 1);
    assert DownloadAllName(i, fileName) == "segment_" + a + e;
    assert DownloadAllName(j, fileName) == "segment_" + b + e;
    MiddleCancels("segment_", a, b, e);
    NatToStringInjective(i + 1, j + 1);
  }

  /** Equal texts with the same prefix and suffix have the same middle. */
  lemma MiddleCancels(p: string, a: string, b: string, e: string)
    requires p + a + e == p + b + e
    ensures a == b
  {
    assert (p + a + e)[|p|..|p| + |a|] == a;
    assert (p + b + e)[|p|..|p| + |b|] == b;
  }

  /** `handleDownloadSegment`: the segment's display name with the
      original file's extension. */
  function DownloadSegmentName(l: Listed, fileName: string): (r: string)
    ensures StartsWith(r, l.segment.name) && EndsWith(r, Extension(fileName))
    ensures |r| == |l.segment.name| + |Extension(fileName)|
  {
    var r := l.segment.name + Extension(fileName);
    assert r[..|l.segment.name|] == l.segment.name;
    r
  }
}
