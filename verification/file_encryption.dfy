/** The pure parts of the `FileEncryption` component: picking a file,
    the guards in front of encryption and decryption, the name a
    decrypted file is saved under, the colour of a file type, the staged
    simulated progress, and the reset on a change of mode. */
module FileEncryption {
  import opened Outcomes
  import opened Strings
  import opened SimulatedProgress

  datatype Mode = Encrypt | Decrypt

  /** A file picked in the browser. */
  datatype LocalFile = LocalFile(name: string, mimeType: string, size: nat)

  /** The component's state. `encrypted` is the name of the last file the
      server encrypted. */
  datatype EncState = EncState(
    mode: Mode,
    key: string,
    selected: Option<LocalFile>,
    encrypted: Option<string>,
    error: Option<string>,
    success: Option<string>)

  /** 100 MiB. */
  const MaxFileSize: nat := 100 * 1024 * 1024

  const TooLarge: string := "File is too large. Maximum file size is 100MB."
  const NoEncNote: string := "Note: Selected file doesn't have .enc extension, but we'll try to decrypt it anyway."

  const Enc: string := ".enc"
  const Encrypted: string := ".encrypted"

  /** `s.toLowerCase().endsWith(suffix)` for a lower-case `suffix`. */
  predicate EndsWithIgnoringCase(s: string, suffix: string) {
    EndsWith(ToLower(s), suffix)
  }

  /** `validateAndSetFile`: both messages are cleared; a file over the
      limit is refused; in decrypt mode a name without `.enc` is taken
      anyway, with a note. */
  function PickFile(s: EncState, file: LocalFile): (t: EncState)
    ensures file.size <= MaxFileSize ==> t.selected == Some(file)
    ensures file.size > MaxFileSize ==> t.selected == s.selected && t.error == Some(TooLarge) && t.success.None?
    ensures file.size <= MaxFileSize ==> t.error.None?
    ensures file.size <= MaxFileSize ==>
      (t.success == Some(NoEncNote) <==> s.mode == Decrypt && !EndsWithIgnoringCase(file.name, Enc))
    ensures t.mode == s.mode && t.key == s.key && t.encrypted == s.encrypted
  {
    var cleared := s.(error := None, success := None);
    if file.size > MaxFileSize then cleared.(error := Some(TooLarge))
    else if s.mode == Decrypt && !EndsWithIgnoringCase(file.name, Enc) then
      cleared.(success := Some(NoEncNote), selected := Some(file))
    else cleared.(selected := Some(file))
  }

  /** A file of exactly 100 MiB is accepted; one byte more is refused. */
  lemma SizeLimitInclusive(s: EncState, name: string, mimeType: string)
    ensures PickFile(s, LocalFile(name, mimeType, MaxFileSize)).selected.Some?
    ensures PickFile(s, LocalFile(name, mimeType, MaxFileSize + 1)).error == Some(TooLarge)
  {
  }

  const NoFileToEncrypt: string := "Please select a file to encrypt"
  const NoEncryptionKey: string := "Please enter an encryption key"
  const WeakKey: string := "Please enter a stronger key (minimum 8 characters)"
  const NoFileToDecrypt: string := "Please select a file to decrypt"
  const NoDecryptionKey: string := "Please enter the decryption key"

  /** The shortest key encryption accepts, in UTF-16 code units
      (`key.length`). */
  const MinKeyLength: nat := 8

  /** The message `handleEncrypt` stops with, if any: no file, then an
      empty key, then a short key. */
  function EncryptRefusal(s: EncState): (m: Option<string>)
    ensures m.None? <==> s.selected.Some? && Utf16Length(s.key) >= MinKeyLength
    ensures s.selected.None? ==> m == Some(NoFileToEncrypt)
    ensures s.selected.Some? && s.key == "" ==> m == Some(NoEncryptionKey)
    ensures s.selected.Some? && 0 < Utf16Length(s.key) < MinKeyLength ==> m == Some(WeakKey)
    ensures s.selected.Some? && |s.key| >= MinKeyLength ==> m.None?
  {
    if s.selected.None? then Some(NoFileToEncrypt)
    else if s.key == "" then Some(NoEncryptionKey)
    else if Utf16Length(s.key) < MinKeyLength then Some(WeakKey)
    else None
  }

  /** Four characters outside the Basic Multilingual Plane make a key of
      eight code units, which encryption accepts; four letters do not. */
  lemma AstralKeyLength(s: EncState)
    requires s.selected.Some?
    ensures EncryptRefusal(s.(key := "\U{1F600}\U{1F600}\U{1F600}\U{1F600}")).None?
    ensures EncryptRefusal(s.(key := "abcd")) == Some(WeakKey)
  {
  }

  /** The message `handleDecrypt` stops with, if any: no file, then an
      empty key. The key length is not checked. */
  function DecryptRefusal(s: EncState): (m: Option<string>)
    ensures m.None? <==> s.selected.Some? && s.key != ""
    ensures s.selected.None? ==> m == Some(NoFileToDecrypt)
    ensures s.selected.Some? && s.key == "" ==> m == Some(NoDecryptionKey)
  {
    if s.selected.None? then Some(NoFileToDecrypt)
    else if s.key == "" then Some(NoDecryptionKey)
    else None
  }

  /** `handleEncrypt` once the server has answered with `service`: a
      refusal only sets its message; otherwise the messages and the last
      result are cleared, and the server's file name or error is shown. */
  function HandleEncrypt(s: EncState, service: Result<string>): (t: EncState)
    ensures EncryptRefusal(s).None? ==> (t.encrypted.Some? <==> service.Ok?)
    ensures EncryptRefusal(s).None? && service.Ok? ==>
      (t.encrypted == Some(service.value) && t.error.None? &&
       t.success == Some("File encrypted successfully! " + service.value + " can now be downloaded."))
    ensures EncryptRefusal(s).Some? ==> t == s.(error := EncryptRefusal(s))
    ensures EncryptRefusal(s).None? && service.Err? ==> t.error == Some(service.message) && t.success.None?
    ensures t.mode == s.mode && t.key == s.key && t.selected == s.selected
  {
    match EncryptRefusal(s)
    case Some(m) => s.(error := Some(m))
    case None =>
      var started := s.(error := None, success := None, encrypted := None);
      match service
      case Ok(name) =>
        started.(encrypted := Some(name), success := Some("File encrypted successfully! " + name + " can now be downloaded."))
      case Err(m) => started.(error := Some(m))
  }

  /** `handleDecrypt` once the server has answered: on success the file
      is offered under `DecryptedFileName` of the picked file's name. */
  function HandleDecrypt(s: EncState, service: Result<()>): (t: EncState)
    ensures DecryptRefusal(s).Some? ==> t == s.(error := DecryptRefusal(s))
    ensures DecryptRefusal(s).None? && service.Ok? ==>
      (t.error.None? &&
       t.success == Some("File decrypted successfully! " + DecryptedFileName(s.selected.value.name) + " is ready to download."))
    ensures DecryptRefusal(s).None? && service.Err? ==> t.error == Some(service.message) && t.success.None?
    ensures t.mode == s.mode && t.key == s.key && t.selected == s.selected && t.encrypted == s.encrypted
  {
    match DecryptRefusal(s)
    case Some(m) => s.(error := Some(m))
    case None =>
      var started := s.(error := None, success := None);
      match service
      case Ok(_) =>
        started.(success := Some("File decrypted successfully! " + DecryptedFileName(s.selected.value.name) + " is ready to download."))
      case Err(m) => started.(error := Some(m))
  }

  /** Any key that may encrypt may also decrypt, but not the other way. */
  lemma DecryptAcceptsMore(s: EncState)
    ensures EncryptRefusal(s).None? ==> DecryptRefusal(s).None?
    ensures s.selected.Some? && 0 < Utf16Length(s.key) < MinKeyLength ==> EncryptRefusal(s).Some? && DecryptRefusal(s).None?
  {
  }

  /** The name a decrypted file gets: a final `.enc` or `.encrypted`, in
      any case, is removed; if nothing is left, `decrypted_file`. */
  const DefaultName: string := "decrypted_file"

  function DecryptedFileName(name: string): (r: string)
    ensures r != []
    ensures r == DefaultName || StartsWith(name, r)
    ensures !EndsWithIgnoringCase(name, Enc) && !EndsWithIgnoringCase(name, Encrypted) ==>
      r == (if name == "" then DefaultName else name)
    ensures EndsWithIgnoringCase(name, Enc) && |name| > |Enc| ==> r == name[..|name| - |Enc|]
    ensures !EndsWithIgnoringCase(name, Enc) && EndsWithIgnoringCase(name, Encrypted) && |name| > |Encrypted| ==>
      r == name[..|name| - |Encrypted|]
    ensures (EndsWithIgnoringCase(name, Enc) && |name| == |Enc|) ||
            (!EndsWithIgnoringCase(name, Enc) && EndsWithIgnoringCase(name, Encrypted) && |name| == |Encrypted|) ==>
      r == DefaultName
  {
    var stripped :=
      if EndsWithIgnoringCase(name, Enc) then name[..|name| - |Enc|]
      else if EndsWithIgnoringCase(name, Encrypted) then name[..|name| - |Encrypted|]
      else name;
    if stripped == "" then DefaultName else stripped
  }

  /** The lower-case form of a lower-case suffix is itself. */
  lemma LowerSuffix(base: string, suffix: string)
    requires forall i :: 0 <= i < |suffix| ==> !('A' <= suffix[i] <= 'Z')
    ensures EndsWith(ToLower(base + suffix), suffix)
  {
    var s := base + suffix;
    var l := ToLower(s);
    forall i | 0 <= i < |suffix| ensures l[|base| + i] == suffix[i] {
      assert s[|base| + i] == suffix[i];
    }
    assert l[|l| - |suffix|..] == suffix;
  }

  /** Naming a file `<base>.enc` or `<base>.encrypted` and decrypting it
      gives back `<base>`. */
  lemma DecryptedFileNameRoundTrip(base: string)
    requires base != ""
    ensures DecryptedFileName(base + Enc) == base
    ensures DecryptedFileName(base + Encrypted) == base
  {
    LowerSuffix(base, Enc);
    assert (base + Enc)[..|base + Enc| - |Enc|] == base;
    LowerSuffix(base, Encrypted);
    var l := ToLower(base + Encrypted);
    assert l[|l| - 1] == 'd' && Enc[|Enc| - 1] == 'c';
    assert !EndsWith(l, Enc);
    assert (base + Encrypted)[..|base + Encrypted| - |Encrypted|] == base;
  }

  datatype Color = Gray | Blue | Purple | Pink | Red | Indigo | Green | Orange | Teal

  /** `getFileTypeColor`: the first rule that matches decides. */
  function FileTypeColor(mimeType: string): Color {
    if mimeType == "" then Gray
    else if StartsWith(mimeType, "image/") then Blue
    else if StartsWith(mimeType, "video/") then Purple
    else if StartsWith(mimeType, "audio/") then Pink
    else if Contains(mimeType, "pdf") then Red
    else if Contains(mimeType, "word") || Contains(mimeType, "document") then Indigo
    else if Contains(mimeType, "spreadsheet") || Contains(mimeType, "excel") then Green
    else if Contains(mimeType, "presentation") || Contains(mimeType, "powerpoint") then Orange
    else if Contains(mimeType, "text/") then Teal
    else Gray
  }

  /** One colouring rule: a prefix the type must start with, or words
      any of which it must contain. */
  datatype Rule = Prefix(prefix: string, color: Color) | AnyOf(words: seq<string>, color: Color)

  predicate Matches(r: Rule, mimeType: string) {
    match r
    case Prefix(p, _) => StartsWith(mimeType, p)
    case AnyOf(ws, _) => exists k :: 0 <= k < |ws| && Contains(mimeType, ws[k])
  }

  /** The colouring rules, in the order they are tried. */
  const Rules: seq<Rule> := [
    Prefix("image/", Blue), Prefix("video/", Purple), Prefix("audio/", Pink),
    AnyOf(["pdf"], Red), AnyOf(["word", "document"], Indigo),
    AnyOf(["spreadsheet", "excel"], Green), AnyOf(["presentation", "powerpoint"], Orange),
    AnyOf(["text/"], Teal)]

  /** The colour of the first rule of `rules` from position `i` on that
      matches, else gray. */
  function FirstMatch(rules: seq<Rule>, i: nat, mimeType: string): Color
    decreases |rules| - i
  {
    if i >= |rules| then Gray
    else if Matches(rules[i], mimeType) then rules[i].color
    else FirstMatch(rules, i + 1, mimeType)
  }

  lemma AnyOfOne(w: string, c: Color, mimeType: string)
    ensures Matches(AnyOf([w], c), mimeType) <==> Contains(mimeType, w)
  {
    if Contains(mimeType, w) {
      assert [w][0] == w;
    }
  }

  lemma AnyOfTwo(w1: string, w2: string, c: Color, mimeType: string)
    ensures Matches(AnyOf([w1, w2], c), mimeType) <==> Contains(mimeType, w1) || Contains(mimeType, w2)
  {
    var ws := [w1, w2];
    if Contains(mimeType, w1) {
      assert ws[0] == w1;
    }
    if Contains(mimeType, w2) {
      assert ws[1] == w2;
    }
  }

  /** The colour is that of the first matching rule of the table, and
      gray for the empty type or when none matches. */
  lemma ColorIsFirstMatch(mimeType: string)
    ensures FileTypeColor(mimeType) == (if mimeType == "" then Gray else FirstMatch(Rules, 0, mimeType))
  {
    if mimeType != "" {
      AnyOfOne("pdf", Red, mimeType);
      AnyOfTwo("word", "document", Indigo, mimeType);
      AnyOfTwo("spreadsheet", "excel", Green, mimeType);
      AnyOfTwo("presentation", "powerpoint", Orange, mimeType);
      AnyOfOne("text/", Teal, mimeType);
      FirstMatchUnfold(mimeType);
    }
  }

  /** `FirstMatch` over the table, one rule at a time. */
  lemma FirstMatchUnfold(mimeType: string)
    ensures FirstMatch(Rules, 0, mimeType) ==
      if Matches(Rules[0], mimeType) then Blue
      else if Matches(Rules[1], mimeType) then Purple
      else if Matches(Rules[2], mimeType) then Pink
      else if Matches(Rules[3], mimeType) then Red
      else if Matches(Rules[4], mimeType) then Indigo
      else if Matches(Rules[5], mimeType) then Green
      else if Matches(Rules[6], mimeType) then Orange
      else if Matches(Rules[7], mimeType) then Teal
      else Gray
  {
    var rs := Rules;
    assert FirstMatch(rs, 8, mimeType) == Gray;
    assert FirstMatch(rs, 7, mimeType) == if Matches(rs[7], mimeType) then Teal else Gray;
    assert FirstMatch(rs, 6, mimeType) == if Matches(rs[6], mimeType) then Orange else FirstMatch(rs, 7, mimeType);
    assert FirstMatch(rs, 5, mimeType) == if Matches(rs[5], mimeType) then Green else FirstMatch(rs, 6, mimeType);
    assert FirstMatch(rs, 4, mimeType) == if Matches(rs[4], mimeType) then Indigo else FirstMatch(rs, 5, mimeType);
    assert FirstMatch(rs, 3, mimeType) == if Matches(rs[3], mimeType) then Red else FirstMatch(rs, 4, mimeType);
    assert FirstMatch(rs, 2, mimeType) == if Matches(rs[2], mimeType) then Pink else FirstMatch(rs, 3, mimeType);
    assert FirstMatch(rs, 1, mimeType) == if Matches(rs[1], mimeType) then Purple else FirstMatch(rs, 2, mimeType);
  }

  /** The staged simulated progress: the shown value and the index of
      the stage label. */
  datatype Ticker = Ticker(value: real, stage: nat)

  const StageCount: nat := 4

  /** The labels of the four stages. */
  function StageLabels(m: Mode): (labels: seq<string>)
    ensures |labels| == StageCount
  {
    match m
    case Encrypt => ["Preparing file...", "Generating encryption parameters...",
                     "Encrypting data...", "Finalizing encryption..."]
    case Decrypt => ["Reading encrypted file...", "Validating encryption parameters...",
                     "Decrypting data...", "Finalizing decryption..."]
  }

  /** The increment for a draw `d` of `Math.random()`: slow below 30,
      faster up to 60, slow again up to 85, slowest after. */
  function Increment(prev: real, d: real): (inc: real)
    requires 0.0 <= d < 1.0
    ensures 0.0 <= inc < 2.5
  {
    if prev < 30.0 then d * 1.5
    else if prev < 60.0 then d * 2.5
    else if prev < 85.0 then d * 1.5
    else d * 0.5
  }

  /** The value updater: held once at 95 or above, else raised and capped at 95. */
  function NextValue(prev: real, d: real): (v: real)
    requires 0.0 <= d < 1.0
    ensures prev <= v
    ensures prev <= Ceiling ==> v <= Ceiling
  {
    if prev >= Ceiling then prev else Cap(prev + Increment(prev, d))
  }

  /** One draw pair per tick: one for the stage, one for the value. */
  datatype Draw = Draw(stage: real, value: real)

  predicate ValidDraw(d: Draw) {
    0.0 <= d.stage < 1.0 && 0.0 <= d.value < 1.0
  }

  /** One tick of the interval as written: the stage test reads
      `captured`, the progress value of the render that started the
      operation, not the current one. */
  function TickAsWritten(t: Ticker, captured: real, d: Draw): (u: Ticker)
    requires ValidDraw(d)
    ensures t.stage <= u.stage <= t.stage + 1
    ensures t.stage < StageCount ==> u.stage < StageCount
    ensures t.value <= u.value
  {
    var stage := if t.stage < StageCount - 1 && d.stage > 0.75 && captured < 90.0 then t.stage + 1 else t.stage;
    Ticker(NextValue(t.value, d.value), stage)
  }

  /** The stage advances even though the shown progress is past 90, and
      can never advance when the run started from a leftover value of 100. */
  lemma StaleStageTest()
    ensures TickAsWritten(Ticker(92.0, 1), 0.0, Draw(0.9, 0.5)).stage == 2
    ensures forall t: Ticker, d: Draw | ValidDraw(d) :: TickAsWritten(t, 100.0, d).stage == t.stage
  {
  }

  /** One tick as the comment describes it: a 25% chance to move to the
      next stage while the shown progress is below 90. */
  function Tick(t: Ticker, d: Draw): (u: Ticker)
    requires ValidDraw(d)
    ensures t.stage <= u.stage <= t.stage + 1
    ensures t.stage < StageCount ==> u.stage < StageCount
    ensures t.value <= u.value
    ensures u.stage > t.stage ==> t.value < 90.0
  {
    var stage := if t.stage < StageCount - 1 && d.stage > 0.75 && t.value < 90.0 then t.stage + 1 else t.stage;
    Ticker(NextValue(t.value, d.value), stage)
  }

  predicate AllValid(ds: seq<Draw>) {
    forall k :: 0 <= k < |ds| ==> ValidDraw(ds[k])
  }

  /** The tickers after each tick of a run. */
  function Run(t: Ticker, ds: seq<Draw>): (ts: seq<Ticker>)
    requires AllValid(ds)
    ensures |ts| == |ds|
    decreases |ds|
  {
    if ds == [] then []
    else
      var u := Tick(t, ds[0]);
      [u] + Run(u, ds[1..])
  }

  /** Along a run from any value of at most 95 and any of the four
      stages: the value never goes down
      and stays at most 95, the stage never goes back and stays among
      the four, and once the value reaches 90 the stage no longer moves. */
  lemma {:induction false} RunInvariants(t: Ticker, ds: seq<Draw>)
    requires AllValid(ds) && t.value <= Ceiling && t.stage < StageCount
    ensures forall k :: 0 <= k < |ds| ==> Run(t, ds)[k].value <= Ceiling && Run(t, ds)[k].stage < StageCount
    ensures ds != [] ==> t.value <= Run(t, ds)[0].value && t.stage <= Run(t, ds)[0].stage
    ensures forall k :: 0 <= k < |ds| - 1 ==>
      Run(t, ds)[k].value <= Run(t, ds)[k + 1].value && Run(t, ds)[k].stage <= Run(t, ds)[k + 1].stage
    ensures t.value >= 90.0 ==> forall k :: 0 <= k < |ds| ==> Run(t, ds)[k].stage == t.stage
    decreases |ds|
  {
    if ds != [] {
      var u := Tick(t, ds[0]);
      RunInvariants(u, ds[1..]);
      assert Run(t, ds) == [u] + Run(u, ds[1..]);
    }
  }

  /** What the progress bar shows: a value and a caption. */
  datatype Meter = Meter(value: real, caption: string)

  const DoneLabel: string := "Operation completed successfully!"

  /** The bar when idle. */
  const Idle: Meter := Meter(0.0, "")

  /** `completeProgress` (100 with the done label, then idle again after
      a delay) and `failProgress` (idle at once). */
  function Settle(ok: bool): seq<Meter> {
    if ok then [Meter(100.0, DoneLabel), Idle] else [Idle]
  }

  /** The tickers after each tick of a run as written: every tick tests
      the same `captured` value. */
  function RunAsWritten(t: Ticker, captured: real, ds: seq<Draw>): (ts: seq<Ticker>)
    requires AllValid(ds)
    ensures |ts| == |ds|
    decreases |ds|
  {
    if ds == [] then []
    else
      var u := TickAsWritten(t, captured, ds[0]);
      [u] + RunAsWritten(u, captured, ds[1..])
  }

  /** Along a run as written: the value never goes down and, from at most
      95, stays at most 95; the stage never goes back and stays among the
      four; and when the captured value is 90 or more the stage never
      moves at all. */
  lemma {:induction false} RunAsWrittenInvariants(t: Ticker, captured: real, ds: seq<Draw>)
    requires AllValid(ds) && t.stage < StageCount
    ensures forall k :: 0 <= k < |ds| ==> RunAsWritten(t, captured, ds)[k].stage < StageCount
    ensures t.value <= Ceiling ==> forall k :: 0 <= k < |ds| ==> RunAsWritten(t, captured, ds)[k].value <= Ceiling
    ensures ds != [] ==> t.value <= RunAsWritten(t, captured, ds)[0].value && t.stage <= RunAsWritten(t, captured, ds)[0].stage
    ensures forall k :: 0 <= k < |ds| - 1 ==>
      RunAsWritten(t, captured, ds)[k].value <= RunAsWritten(t, captured, ds)[k + 1].value &&
      RunAsWritten(t, captured, ds)[k].stage <= RunAsWritten(t, captured, ds)[k + 1].stage
    ensures captured >= 90.0 ==> forall k :: 0 <= k < |ds| ==> RunAsWritten(t, captured, ds)[k].stage == t.stage
    decreases |ds|
  {
    if ds != [] {
      var u := TickAsWritten(t, captured, ds[0]);
      RunAsWrittenInvariants(u, captured, ds[1..]);
      assert RunAsWritten(t, captured, ds) == [u] + RunAsWritten(u, captured, ds[1..]);
    }
  }

  /** From 95 on, with a captured value of at least 90, nothing moves:
      every ticker of the run is the first. */
  lemma {:induction false} RunHeld(t: Ticker, captured: real, ds: seq<Draw>)
    requires AllValid(ds) && t.value >= Ceiling && captured >= 90.0
    ensures forall k :: 0 <= k < |ds| ==> RunAsWritten(t, captured, ds)[k] == t
    decreases |ds|
  {
    if ds != [] {
      var u := TickAsWritten(t, captured, ds[0]);
      assert u == t;
      RunHeld(u, captured, ds[1..]);
      assert RunAsWritten(t, captured, ds) == [u] + RunAsWritten(u, captured, ds[1..]);
    }
  }

  /** Everything the bar shows during one operation of mode `m`: the
      first stage at `start`, a meter per tick of the interval as
      written, then the settled meter. Neither handler resets the value
      before starting, so `start` is whatever the bar last showed (0, or
      the 100 of a success whose 1.5 s reset has not fired yet), and it
      is also the value every stage test reads. */
  function Attempt(m: Mode, start: real, ds: seq<Draw>, ok: bool): seq<Meter>
    requires AllValid(ds) && 0.0 <= start <= 100.0
  {
    var ts := RunAsWritten(Ticker(start, 0), start, ds);
    RunAsWrittenInvariants(Ticker(start, 0), start, ds);
    [Meter(start, StageLabels(m)[0])]
      + seq(|ts|, k requires 0 <= k < |ts| => Meter(ts[k].value, StageLabels(m)[ts[k].stage]))
      + Settle(ok)
  }

  /** While pending (the first `|ds| + 1` meters) the bar never goes
      down and shows a stage label of the operation's mode; from a start
      of at most 95 it stays at most 95; from a start of 90 or more the
      caption stays the first label, and above 95 (a leftover 100) the
      meter is shown unchanged for the whole run. A success then shows
      100 with the done label, and either way the bar ends idle. */
  lemma AttemptShape(m: Mode, start: real, ds: seq<Draw>, ok: bool)
    requires AllValid(ds) && 0.0 <= start <= 100.0
    ensures var ms := Attempt(m, start, ds, ok);
      && |ms| == |ds| + (if ok then 3 else 2)
      && ms[0] == Meter(start, StageLabels(m)[0])
      && (forall k :: 0 <= k <= |ds| ==> ms[k].caption in StageLabels(m))
      && (forall k :: 0 <= k < |ds| ==> ms[k].value <= ms[k + 1].value)
      && (start <= Ceiling ==> forall k :: 0 <= k <= |ds| ==> ms[k].value <= Ceiling)
      && (start >= 90.0 ==> forall k :: 0 <= k <= |ds| ==> ms[k].caption == StageLabels(m)[0])
      && (start > Ceiling ==> forall k :: 0 <= k <= |ds| ==> ms[k] == ms[0])
      && (ok ==> ms[|ds| + 1] == Meter(100.0, DoneLabel))
      && ms[|ms| - 1] == Idle
  {
    var t := Ticker(start, 0);
    var ts := RunAsWritten(t, start, ds);
    RunAsWrittenInvariants(t, start, ds);
    if start > Ceiling {
      RunHeld(t, start, ds);
    }
    var ms := Attempt(m, start, ds, ok);
    forall k | 0 < k <= |ds| ensures ms[k] == Meter(ts[k - 1].value, StageLabels(m)[ts[k - 1].stage]) {
    }
    forall k | 0 <= k < |ds| ensures ms[k].value <= ms[k + 1].value {
      assert ms[k + 1].value == ts[k].value;
      if k > 0 {
        assert ms[k].value == ts[k - 1].value;
      }
    }
  }

  /** The run as written and the corrected run part ways: in a run
      started at 0, once the meter has passed 90 a stage draw above 0.75
      still moves the stage on, where the corrected tick keeps it. */
  lemma AttemptKeepsAdvancingPast90()
    ensures var ds := [Draw(0.0, 0.5), Draw(0.9, 0.5)];
      var t := Ticker(89.9, 0);
      AllValid(ds) && RunAsWritten(t, 0.0, ds)[1].stage == 1 && Run(t, ds)[1].stage == 0
  {
    var ds := [Draw(0.0, 0.5), Draw(0.9, 0.5)];
    var t := Ticker(89.9, 0);
    assert RunAsWritten(t, 0.0, ds) == [TickAsWritten(t, 0.0, ds[0])] + RunAsWritten(TickAsWritten(t, 0.0, ds[0]), 0.0, ds[1..]);
    assert Run(t, ds) == [Tick(t, ds[0])] + Run(Tick(t, ds[0]), ds[1..]);
  }

  /** The effect on `mode`: switching mode drops the file, the
      encryption result and both messages; the key is kept. Setting the
      mode it already has changes nothing. */
  function ChangeMode(s: EncState, m: Mode): (t: EncState)
    ensures m != s.mode ==> t.mode == m && t.selected.None? && t.encrypted.None? && t.error.None? && t.success.None?
    ensures t.key == s.key
    ensures m == s.mode ==> t == s
  {
    if m == s.mode then s
    else s.(mode := m, selected := None, encrypted := None, error := None, success := None)
  }

  /** `resetForm`: the file, the encryption result and both messages are
      dropped; the mode and the key stay. (The meter it also empties is
      `Idle`.) */
  function ResetForm(s: EncState): (t: EncState)
    ensures t.selected.None? && t.encrypted.None? && t.error.None? && t.success.None?
    ensures t.mode == s.mode && t.key == s.key
  {
    s.(selected := None, encrypted := None, error := None, success := None)
  }

  /** Switching away and back is a form reset, whatever was picked; a
      reset form refuses to encrypt or decrypt until a file is picked
      again, and resetting twice is resetting once. */
  lemma ModeRoundTripClears(s: EncState, m: Mode)
    requires m != s.mode
    ensures ChangeMode(ChangeMode(s, m), s.mode) == ResetForm(s)
    ensures EncryptRefusal(ResetForm(s)) == Some(NoFileToEncrypt)
    ensures DecryptRefusal(ResetForm(s)) == Some(NoFileToDecrypt)
    ensures ResetForm(ResetForm(s)) == ResetForm(s)
  {
  }
}
