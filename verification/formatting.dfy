/** Human-readable renderings of times and byte counts used in segment
    names and in the segment list: `formatTime` (`mm:ss`),
    `formatDuration` (`m:ss`) and `formatSize` (`B` / `KB` / `MB`). The
    two copies of `formatSize` in the source are identical and are
    modelled once. */
module Formatting {
  import opened Strings

  /** A media time in seconds, never negative. */
  type Seconds = r: real | r >= 0.0

  const KiB: nat := 1024
  const MiB: nat := 1048576

  /** `Math.floor(seconds / 60)`. */
  function WholeMinutes(seconds: Seconds): nat
  {
    (seconds / 60.0).Floor
  }

  /** `Math.floor(seconds % 60)`; for a non-negative operand JavaScript's
      `%` is `seconds - 60 * Math.floor(seconds / 60)`. */
  function SecondsInMinute(seconds: Seconds): nat
  {
    (seconds - 60.0 * WholeMinutes(seconds) as real).Floor
  }

  /** The two clock fields split the whole seconds elapsed. */
  lemma ClockFields(seconds: Seconds)
    ensures SecondsInMinute(seconds) < 60
    ensures 60 * WholeMinutes(seconds) + SecondsInMinute(seconds) == seconds.Floor
  {
    var m := WholeMinutes(seconds);
    assert m as real <= seconds / 60.0 < m as real + 1.0;
    assert 60.0 * m as real <= seconds < 60.0 * m as real + 60.0;
  }

  /** Reads a clock text `<minutes>:<ss>` back into whole seconds. */
  predicate IsClock(r: string) {
    && |r| >= 4
    && r[|r| - 3] == ':'
    && AllDigits(r[..|r| - 3])
    && AllDigits(r[|r| - 2..])
  }

  function ClockValue(r: string): nat
    requires IsClock(r)
  {
    60 * ParseDigits(r[..|r| - 3]) + ParseDigits(r[|r| - 2..])
  }

  /** Minutes and two-digit seconds joined by a colon read back as
      `60 * m + s`. */
  lemma ClockOf(mtext: string, stext: string, m: nat, s: nat)
    requires |mtext| >= 1 && AllDigits(mtext) && ParseDigits(mtext) == m
    requires |stext| == 2 && AllDigits(stext) && ParseDigits(stext) == s
    ensures IsClock(mtext + ":" + stext)
    ensures ClockValue(mtext + ":" + stext) == 60 * m + s
    ensures (mtext + ":" + stext)[|mtext + ":" + stext| - 2..] == stext
  {
    var r := mtext + ":" + stext;
    assert r[..|r| - 3] == mtext;
    assert r[|r| - 2..] == stext;
    assert r[|r| - 3] == ':';
  }

  /** `formatTime`: both fields zero-padded to at least two digits. */
  function FormatTime(seconds: Seconds): (r: string)
    ensures IsClock(r) && |r| >= 5
    ensures ClockValue(r) == seconds.Floor
    ensures ParseDigits(r[|r| - 2..]) < 60
  {
    var m, s := WholeMinutes(seconds), SecondsInMinute(seconds);
    ClockFields(seconds);
    PaddedClock(m, s);
    PadStart2(NatToString(m)) + ":" + PadStart2(NatToString(s))
  }

  lemma PaddedClock(m: nat, s: nat)
    requires s < 60
    ensures var r := PadStart2(NatToString(m)) + ":" + PadStart2(NatToString(s));
      IsClock(r) && |r| >= 5 && ClockValue(r) == 60 * m + s && ParseDigits(r[|r| - 2..]) == s
  {
    PadStart2Number(s);
    PadStart2ReadsBack(m);
    ClockOf(PadStart2(NatToString(m)), PadStart2(NatToString(s)), m, s);
  }

  /** `formatDuration`: minutes unpadded, seconds zero-padded to two digits. */
  function FormatDuration(seconds: Seconds): (r: string)
    ensures IsClock(r)
    ensures ClockValue(r) == seconds.Floor
    ensures ParseDigits(r[|r| - 2..]) < 60
    ensures |r| > 4 ==> r[0] != '0'
  {
    var m, s := WholeMinutes(seconds), SecondsInMinute(seconds);
    ClockFields(seconds);
    PlainClock(m, s);
    NatToString(m) + ":" + PadStart2(NatToString(s))
  }

  lemma PlainClock(m: nat, s: nat)
    requires s < 60
    ensures var r := NatToString(m) + ":" + PadStart2(NatToString(s));
      IsClock(r) && ClockValue(r) == 60 * m + s && ParseDigits(r[|r| - 2..]) == s
      && (|r| > 4 ==> r[0] != '0')
  {
    var mm := NatToString(m);
    var ss := PadStart2(NatToString(s));
    PadStart2Number(s);
    ParseNatToString(m);
    ClockOf(mm, ss, m, s);
    assert (mm + ":" + ss)[0] == mm[0];
  }

  /** The number of tenths `(bytes / unit).toFixed(1)` shows: the whole
      number nearest to `10 * bytes / unit`, the larger one on a tie. The
      quotient of a byte count by a power of two is exact in a double, so
      this is exact. */
  function Tenths(bytes: nat, unit: nat): (t: nat)
    requires unit == KiB || unit == MiB
    ensures unit * (2 * t - 1) <= 20 * bytes < unit * (2 * t + 1)
  {
    if unit == KiB then (20 * bytes + 1024) / 2048
    else (20 * bytes + 1048576) / 2097152
  }

  /** `(bytes / unit).toFixed(1)`. */
  function Fixed1(bytes: nat, unit: nat): (r: string)
    requires unit == KiB || unit == MiB
    ensures |r| >= 3 && r[|r| - 2] == '.'
    ensures AllDigits(r[..|r| - 2]) && IsDigit(r[|r| - 1])
    ensures 10 * ParseDigits(r[..|r| - 2]) + DigitValue(r[|r| - 1]) == Tenths(bytes, unit)
  {
    var t := Tenths(bytes, unit);
    var whole := NatToString(t / 10);
    ParseNatToString(t / 10);
    DigitRoundTrip(t % 10);
    var r := whole + "." + [DigitChar(t % 10)];
    assert r[..|r| - 2] == whole && r[|r| - 1] == DigitChar(t % 10);
    assert 10 * (t / 10) + t % 10 == t;
    r
  }

  /** `formatSize`: the unit is chosen by magnitude; bytes are printed as
      is, kilobytes and megabytes with one decimal. */
  function FormatSize(bytes: nat): (r: string)
    ensures EndsWith(r, " B") <==> bytes < KiB
    ensures EndsWith(r, " KB") <==> KiB <= bytes < MiB
    ensures EndsWith(r, " MB") <==> MiB <= bytes
    ensures bytes < KiB ==> AllDigits(r[..|r| - 2]) && ParseDigits(r[..|r| - 2]) == bytes
    ensures KiB <= bytes < MiB ==> StartsWith(r, Fixed1(bytes, KiB))
    ensures MiB <= bytes ==> StartsWith(r, Fixed1(bytes, MiB))
  {
    if bytes < KiB then
      ParseNatToString(bytes);
      var r := NatToString(bytes) + " B";
      assert r[..|r| - 2] == NatToString(bytes);
      assert !EndsWith(r, " KB") && !EndsWith(r, " MB") by {
        assert IsDigit(r[|r| - 3]);
      }
      r
    else if bytes < MiB then
      var f := Fixed1(bytes, KiB);
      var r := f + " KB";
      assert r[..|f|] == f;
      assert r[|r| - 2..] == "KB" && r[|r| - 3..] == " KB";
      r
    else
      var f := Fixed1(bytes, MiB);
      var r := f + " MB";
      assert r[..|f|] == f;
      assert r[|r| - 2..] == "MB" && r[|r| - 3..] == " MB";
      r
  }
}
