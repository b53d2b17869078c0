/** The pure parts of the `TextEncryption` component: the guards in
    front of a request, the list of recent results, swapping the output
    into the input, clearing, the preview of a recent entry, the "time
    since" label, and the simulated progress. The encryption service and
    the clock are parameters. */
module TextEncryption {
  import opened Outcomes
  import opened Strings
  import opened SimulatedProgress
  import F = FileEncryption

  /** One finished request, newest first in the list. `timestamp` is in
      milliseconds. */
  datatype Entry = Entry(input: string, output: string, mode: F.Mode, timestamp: int)

  datatype TextState = TextState(
    input: string,
    output: string,
    key: string,
    mode: F.Mode,
    error: Option<string>,
    recent: seq<Entry>)

  function Opposite(m: F.Mode): (o: F.Mode)
    ensures o != m
  {
    match m
    case Encrypt => F.Decrypt
    case Decrypt => F.Encrypt
  }

  const NoTextToEncrypt: string := "Please enter text to encrypt"
  const NoEncryptionKey: string := "Please enter an encryption key"
  const NoTextToDecrypt: string := "Please enter text to decrypt"
  const NoDecryptionKey: string := "Please enter a decryption key"

  /** The message `handleEncrypt` or `handleDecrypt` stops with, if any:
      no text first, then no key. */
  function Refusal(s: TextState): (m: Option<string>)
    ensures m.None? <==> s.input != "" && s.key != ""
    ensures s.input == "" ==> m == Some(if s.mode == F.Encrypt then NoTextToEncrypt else NoTextToDecrypt)
    ensures s.input != "" && s.key == "" ==> m == Some(if s.mode == F.Encrypt then NoEncryptionKey else NoDecryptionKey)
  {
    match s.mode
    case Encrypt =>
      if s.input == "" then Some(NoTextToEncrypt) else if s.key == "" then Some(NoEncryptionKey) else None
    case Decrypt =>
      if s.input == "" then Some(NoTextToDecrypt) else if s.key == "" then Some(NoDecryptionKey) else None
  }

  /** The submit button is enabled when nothing is pending and there is
      text and a key. */
  predicate SubmitEnabled(s: TextState, busy: bool) {
    !busy && s.input != "" && s.key != ""
  }

  /** `handleSubmit` with the service answering `service` at time `now`:
      a refusal only sets its message; a success shows the output and
      puts the request at the head of the recent list; a failure shows
      the service's message and keeps the previous output. */
  function Submit(s: TextState, service: Result<string>, now: int): (t: TextState)
    ensures Refusal(s).Some? ==> t == s.(error := Refusal(s))
    ensures Refusal(s).None? && service.Ok? ==>
      t.output == service.value && t.error.None? &&
      t.recent == [Entry(s.input, service.value, s.mode, now)] + s.recent
    ensures Refusal(s).None? && service.Err? ==>
      t == s.(error := Some(service.message))
    ensures t.input == s.input && t.key == s.key && t.mode == s.mode
  {
    match Refusal(s)
    case Some(m) => s.(error := Some(m))
    case None =>
      match service
      case Ok(out) =>
        s.(error := None, output := out, recent := [Entry(s.input, out, s.mode, now)] + s.recent)
      case Err(m) => s.(error := Some(m))
  }

  /** An enabled submit is never refused, and the recent list only ever
      grows at its head: the earlier entries stay, in order. */
  lemma SubmitKeepsHistory(s: TextState, service: Result<string>, now: int)
    ensures SubmitEnabled(s, false) <==> Refusal(s).None?
    ensures var t := Submit(s, service, now);
      |t.recent| == |s.recent| + (if Refusal(s).None? && service.Ok? then 1 else 0) &&
      t.recent[|t.recent| - |s.recent|..] == s.recent
  {
  }

  /** `handleSwapContent`: with an output, it becomes the input and the
      mode flips; with none, nothing happens. */
  function Swap(s: TextState): (t: TextState)
    ensures s.output == "" ==> t == s
    ensures s.output != "" ==> t.input == s.output && t.output == "" && t.mode == Opposite(s.mode)
    ensures t.key == s.key && t.recent == s.recent && t.error == s.error
  {
    if s.output != "" then s.(input := s.output, output := "", mode := Opposite(s.mode)) else s
  }

  /** After a successful request, swapping sets up the inverse request on
      its result; a second swap does nothing. */
  lemma SwapAfterSubmit(s: TextState, out: string, now: int)
    requires Refusal(s).None? && out != ""
    ensures var u := Swap(Submit(s, Ok(out), now));
      u.input == out && u.mode == Opposite(s.mode) && u.key == s.key && Refusal(u).None?
    ensures Swap(Swap(Submit(s, Ok(out), now))) == Swap(Submit(s, Ok(out), now))
  {
  }

  /** The Clear button: input, output and message go; the key, the mode
      and the recent list stay. */
  function Clear(s: TextState): (t: TextState)
    ensures t.input == "" && t.output == "" && t.error.None?
    ensures t.key == s.key && t.mode == s.mode && t.recent == s.recent
  {
    s.(input := "", output := "", error := None)
  }

  /** Clearing twice is clearing once, and after a clear a submit is
      always refused for want of text. */
  lemma ClearIdempotent(s: TextState)
    ensures Clear(Clear(s)) == Clear(s)
    ensures Refusal(Clear(s)) == Some(if s.mode == F.Encrypt then NoTextToEncrypt else NoTextToDecrypt)
  {
  }

  /** The entries the Recent tab shows: at most the first three. */
  function RecentShown(recent: seq<Entry>): (shown: seq<Entry>)
    ensures |shown| <= 3 && shown <= recent
    ensures |recent| <= 3 ==> shown == recent
  {
    if |recent| <= 3 then recent else recent[..3]
  }

  /** Clicking a recent entry: its input comes back with the other mode. */
  function PickRecent(s: TextState, e: Entry): (t: TextState)
    ensures t.input == e.input && t.mode == Opposite(e.mode)
    ensures t.output == s.output && t.key == s.key && t.recent == s.recent
  {
    s.(input := e.input, mode := Opposite(e.mode))
  }

  /** Picking the newest entry right after a successful request restores
      the text that was sent, set up for the other operation. */
  lemma PickNewestAfterSubmit(s: TextState, out: string, now: int)
    requires Refusal(s).None?
    ensures var t := Submit(s, Ok(out), now);
      RecentShown(t.recent) != [] &&
      PickRecent(t, RecentShown(t.recent)[0]).input == s.input &&
      PickRecent(t, RecentShown(t.recent)[0]).mode == Opposite(s.mode)
  {
  }

  /** The first 30 UTF-16 code units of an entry's input, with `...` when there
      are more. */
  function Preview(text: string): (p: string)
    ensures Utf16Length(text) <= 30 ==> p == text
    ensures Utf16Length(text) > 30 ==>
      |p| >= 3 && p[|p| - 3..] == "..." &&
      var head := p[..|p| - 3]; StartsWith(text, head) && 29 <= Utf16Length(head) <= 30
  {
    if Utf16Length(text) > 30 then Utf16Prefix(text, 30) + "..." else text
  }

  /** For text inside the Basic Multilingual Plane the preview is the
      first 30 characters and `...`. */
  lemma PreviewBmp(text: string)
    requires forall i :: 0 <= i < |text| ==> text[i] as int < 0x1_0000
    ensures |text| <= 30 ==> Preview(text) == text
    ensures |text| > 30 ==> Preview(text) == text[..30] + "..."
  {
    Utf16LengthBmp(text);
    if |text| > 30 {
      Utf16PrefixBmp(text, 30);
    }
  }

  /** Text made only of characters outside the Basic Multilingual Plane
      (emoji, say) counts two units per character, so longer than 15 such
      characters it shows its first 15 and `...`. */
  lemma PreviewAstral(text: string)
    requires forall i :: 0 <= i < |text| ==> text[i] as int >= 0x1_0000
    ensures |text| <= 15 ==> Preview(text) == text
    ensures |text| > 15 ==> Preview(text) == text[..15] + "..."
  {
    Utf16Astral(text, 30);
  }

  /** The bucket `getTimeSince` puts an age in. */
  datatype Age = JustNow | Minutes(n: nat) | Hours(n: nat) | Days(n: nat)

  /** The age of a timestamp in whole seconds, `Math.floor((now - ts) / 1000)`;
      Dafny's division by a positive divisor rounds down as `Math.floor` does. */
  function ElapsedSeconds(now: int, timestamp: int): (secs: int)
    ensures secs * 1000 <= now - timestamp < secs * 1000 + 1000
  {
    (now - timestamp) / 1000
  }

  /** The bucket of an age in seconds, with the whole number of its unit. */
  function AgeOf(secs: int): (a: Age)
    ensures a.JustNow? <==> secs < 60
    ensures a.Minutes? <==> 60 <= secs < 3600
    ensures a.Hours? <==> 3600 <= secs < 86400
    ensures a.Days? <==> 86400 <= secs
    ensures a.Minutes? ==> 1 <= a.n < 60 && a.n * 60 <= secs < a.n * 60 + 60
    ensures a.Hours? ==> 1 <= a.n < 24 && a.n * 3600 <= secs < a.n * 3600 + 3600
    ensures a.Days? ==> 1 <= a.n && a.n * 86400 <= secs < a.n * 86400 + 86400
  {
    if secs < 60 then JustNow
    else if secs < 3600 then Minutes(secs / 60)
    else if secs < 86400 then Hours(secs / 3600)
    else Days(secs / 86400)
  }

  /** The number of seconds an age stands for at least. */
  function AgeSeconds(a: Age): nat {
    match a
    case JustNow => 0
    case Minutes(n) => n * 60
    case Hours(n) => n * 3600
    case Days(n) => n * 86400
  }

  /** An older entry never shows as younger. */
  lemma AgeOfMonotone(s1: int, s2: int)
    requires s1 <= s2
    ensures AgeSeconds(AgeOf(s1)) <= AgeSeconds(AgeOf(s2))
  {
    var a1, a2 := AgeOf(s1), AgeOf(s2);
    if a1.Minutes? && a2.Minutes? {
      assert a1.n * 60 <= s2 < a2.n * 60 + 60;
    } else if a1.Hours? && a2.Hours? {
      assert a1.n * 3600 <= s2 < a2.n * 3600 + 3600;
    } else if a1.Days? && a2.Days? {
      assert a1.n * 86400 <= s2 < a2.n * 86400 + 86400;
    }
  }

  /** The label of an age. */
  function RenderAge(a: Age): string {
    match a
    case JustNow => "Just now"
    case Minutes(n) => NatToString(n) + "m ago"
    case Hours(n) => NatToString(n) + "h ago"
    case Days(n) => NatToString(n) + "d ago"
  }

  /** `getTimeSince`. */
  function TimeSince(now: int, timestamp: int): string {
    RenderAge(AgeOf(ElapsedSeconds(now, timestamp)))
  }

  /** Reads a label back. */
  function ParseAge(s: string): Option<Age> {
    if s == "Just now" then Some(JustNow)
    else
      var d := DigitPrefix(s);
      var rest := s[|d|..];
      if d == "" then None
      else if rest == "m ago" then Some(Minutes(ParseDigits(d)))
      else if rest == "h ago" then Some(Hours(ParseDigits(d)))
      else if rest == "d ago" then Some(Days(ParseDigits(d)))
      else None
  }

  /** The digits in front of a text that goes on with a non-digit. */
  lemma {:induction false} DigitPrefixOf(d: string, rest: string)
    requires AllDigits(d) && rest != [] && !IsDigit(rest[0])
    ensures DigitPrefix(d + rest) == d
    decreases |d|
  {
    if d != [] {
      assert (d + rest)[1..] == d[1..] + rest;
      DigitPrefixOf(d[1..], rest);
    }
  }

  /** A number followed by a unit reads back as that number and unit. */
  lemma SplitLabel(n: nat, unit: string)
    requires unit != [] && !IsDigit(unit[0])
    ensures var s := NatToString(n) + unit;
      s != "Just now" && DigitPrefix(s) == NatToString(n) && DigitPrefix(s) != ""
      && s[|DigitPrefix(s)|..] == unit && ParseDigits(DigitPrefix(s)) == n
  {
    var d := NatToString(n);
    DigitPrefixOf(d, unit);
    assert (d + unit)[|d|..] == unit;
    assert IsDigit((d + unit)[0]);
    ParseNatToString(n);
  }

  /** Every label reads back as the age it was made from. */
  lemma RenderAgeRoundTrip(a: Age)
    ensures ParseAge(RenderAge(a)) == Some(a)
  {
    match a
    case JustNow =>
    case Minutes(n) => SplitLabel(n, "m ago");
    case Hours(n) => SplitLabel(n, "h ago");
    case Days(n) => SplitLabel(n, "d ago");
  }

  /** The progress bar of one request: it restarts at 0, every tick adds
      `random * 15` capped at 95, and once the request settles it jumps
      to 100 and then back to 0, unless it never left 0. */
  function Bar(draws: seq<real>): (shown: seq<real>)
    requires forall k :: 0 <= k < |draws| ==> 0.0 <= draws[k] < 1.0
  {
    var incs := seq(|draws|, k requires 0 <= k < |draws| => draws[k] * 15.0);
    var pending := [0.0] + Chained(0.0, incs);
    pending + (if pending[|pending| - 1] > 0.0 then [100.0, 0.0] else [])
  }

  /** While pending the bar never goes down and stays between 0 and 95;
      it always ends at 0. */
  lemma BarShape(draws: seq<real>)
    requires forall k :: 0 <= k < |draws| ==> 0.0 <= draws[k] < 1.0
    ensures var b := Bar(draws);
      |b| >= |draws| + 1 &&
      (forall k :: 0 <= k <= |draws| ==> 0.0 <= b[k] <= Ceiling) &&
      (forall k :: 0 <= k < |draws| ==> b[k] <= b[k + 1]) &&
      b[|b| - 1] == 0.0
  {
    var incs := seq(|draws|, k requires 0 <= k < |draws| => draws[k] * 15.0);
    ChainedRises(0.0, incs);
    var c := Chained(0.0, incs);
    var b := Bar(draws);
    assert b[..|draws| + 1] == [0.0] + c;
    forall k | 0 <= k <= |draws| ensures 0.0 <= b[k] <= Ceiling {
      if k > 0 {
        RisesFromFirst([0.0] + c, k);
      }
    }
    forall k | 0 <= k < |draws| ensures b[k] <= b[k + 1] {
      if k > 0 {
        assert b[k] == c[k - 1] && b[k + 1] == c[k];
      }
    }
  }
}
