/** The simulated progress bars shown while a request is pending: every
    200 ms a random non-negative increment is added and the shown value
    is held at or below 95 until the request settles. Two forms occur:
    `min(prev + inc, 95)` on the shown value itself (text encryption)
    and `min(acc, 95)` over a separate accumulator (the encrypted-files
    list). The increments are parameters. */
module SimulatedProgress {

  /** The highest value shown before the request settles. */
  const Ceiling: real := 95.0

  /** `Math.min(x, 95)`. */
  function Cap(x: real): (c: real)
    ensures c <= Ceiling
    ensures x <= Ceiling ==> c == x
    ensures x > Ceiling ==> c == Ceiling
  {
    if x <= Ceiling then x else Ceiling
  }

  predicate NonNegative(incs: seq<real>) {
    forall k :: 0 <= k < |incs| ==> incs[k] >= 0.0
  }

  /** The values shown by `setProgressValue(prev => Math.min(prev + inc, 95))`,
      starting from `prev`. */
  function Chained(prev: real, incs: seq<real>): (shown: seq<real>)
    ensures |shown| == |incs|
    decreases |incs|
  {
    if incs == [] then []
    else
      var next := Cap(prev + incs[0]);
      [next] + Chained(next, incs[1..])
  }

  /** The values shown by `progress += inc; setProgressValue(Math.min(progress, 95))`,
      the accumulator starting at `acc`. */
  function Accumulated(acc: real, incs: seq<real>): (shown: seq<real>)
    ensures |shown| == |incs|
    decreases |incs|
  {
    if incs == [] then []
    else
      var next := acc + incs[0];
      [Cap(next)] + Accumulated(next, incs[1..])
  }

  /** Starting at or below the ceiling, the chained values never exceed
      95 and never go down. */
  lemma {:induction false} ChainedRises(prev: real, incs: seq<real>)
    requires prev <= Ceiling && NonNegative(incs)
    ensures forall k :: 0 <= k < |incs| ==> Chained(prev, incs)[k] <= Ceiling
    ensures incs != [] ==> prev <= Chained(prev, incs)[0]
    ensures forall k :: 0 <= k < |incs| - 1 ==> Chained(prev, incs)[k] <= Chained(prev, incs)[k + 1]
    decreases |incs|
  {
    if incs != [] {
      var next := Cap(prev + incs[0]);
      var rest := Chained(next, incs[1..]);
      ChainedRises(next, incs[1..]);
      assert Chained(prev, incs) == [next] + rest;
    }
  }

  /** The two forms show the same values: capping the shown value at
      each step is the same as capping a running total. */
  lemma {:induction false} ChainedIsAccumulated(acc: real, incs: seq<real>)
    requires NonNegative(incs)
    ensures Chained(Cap(acc), incs) == Accumulated(acc, incs)
    decreases |incs|
  {
    if incs != [] {
      var next := acc + incs[0];
      assert Cap(Cap(acc) + incs[0]) == Cap(next);
      ChainedIsAccumulated(next, incs[1..]);
    }
  }

  /** Hence the accumulated form, from zero, also never exceeds 95 and
      never goes down. */
  lemma AccumulatedRises(incs: seq<real>)
    requires NonNegative(incs)
    ensures forall k :: 0 <= k < |incs| ==> 0.0 <= Accumulated(0.0, incs)[k] <= Ceiling
    ensures forall k :: 0 <= k < |incs| - 1 ==> Accumulated(0.0, incs)[k] <= Accumulated(0.0, incs)[k + 1]
  {
    ChainedIsAccumulated(0.0, incs);
    ChainedRises(0.0, incs);
    var shown := Chained(0.0, incs);
    if incs != [] {
      forall k | 0 <= k < |incs| ensures 0.0 <= shown[k] {
        RisesFromFirst(shown, k);
      }
    }
  }

  /** In a list that never goes down, every value is at least the first. */
  lemma {:induction false} RisesFromFirst(s: seq<real>, k: nat)
    requires k < |s|
    requires forall j :: 0 <= j < |s| - 1 ==> s[j] <= s[j + 1]
    ensures s[0] <= s[k]
  {
    if k > 0 {
      RisesFromFirst(s, k - 1);
    }
  }
}
