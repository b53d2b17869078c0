/** Splitting a list into consecutive pieces of a fixed size: the loop
    `for (i = 0; i < a.length; i += k) out.push(a.slice(i, i + k))`,
    used both for the segmentation batches and for the testimonial
    columns. */
module Chunking {

  function Min(a: int, b: int): int {
    if a <= b then a else b
  }

  /** `Math.ceil(n / k)` for whole numbers: the number of steps of size
      `k` needed to pass `n`. */
  function CeilDiv(n: nat, k: nat): (c: nat)
    requires k >= 1
    ensures (c - 1) * k < n <= c * k
    decreases n
  {
    if n == 0 then 0
    else if n <= k then 1
    else
      var c' := CeilDiv(n - k, k);
      assert (1 + c') * k == c' * k + k;
      assert (1 + c' - 1) * k == c' * k;
      1 + c'
  }

  /** The concatenation of a list of lists. */
  function Flatten<T>(chunks: seq<seq<T>>): seq<T> {
    if chunks == [] then [] else chunks[0] + Flatten(chunks[1..])
  }

  /** `chunkArray(a, k)`. */
  function Chunk<T>(a: seq<T>, k: nat): seq<seq<T>>
    requires k >= 1
    decreases |a|
  {
    if |a| == 0 then []
    else if |a| <= k then [a]
    else [a[..k]] + Chunk(a[k..], k)
  }

  /** The chunks concatenate back to `a`; each is non-empty and at most
      `k` long, all but the last exactly `k` long; there are
      `ceil(|a| / k)` of them. */
  lemma {:induction false} ChunkProperties<T>(a: seq<T>, k: nat)
    requires k >= 1
    ensures Flatten(Chunk(a, k)) == a
    ensures forall j :: 0 <= j < |Chunk(a, k)| ==> 1 <= |Chunk(a, k)[j]| <= k
    ensures forall j :: 0 <= j < |Chunk(a, k)| - 1 ==> |Chunk(a, k)[j]| == k
    ensures |Chunk(a, k)| == CeilDiv(|a|, k)
    decreases |a|
  {
    var r := Chunk(a, k);
    if |a| == 0 {
    } else if |a| <= k {
      assert Flatten([a]) == a + Flatten([]);
    } else {
      var rest := Chunk(a[k..], k);
      ChunkProperties(a[k..], k);
      assert r == [a[..k]] + rest;
      assert r[1..] == rest;
      assert a == a[..k] + a[k..];
    }
  }

  lemma SliceOfSlice<T>(a: seq<T>, k: nat, lo: nat, hi: nat)
    requires k <= |a| && lo <= hi <= |a| - k
    ensures a[k..][lo..hi] == a[k + lo..k + hi]
  {
  }

  /** `j * k` computed by repeated addition, the loop's `i += k`. */
  function Steps(j: nat, k: nat): nat {
    if j == 0 then 0 else Steps(j - 1, k) + k
  }

  lemma {:induction false} StepsIsProduct(j: nat, k: nat)
    ensures Steps(j, k) == j * k
  {
    if j > 0 {
      StepsIsProduct(j - 1, k);
      assert (j - 1) * k + k == j * k;
    }
  }

  /** Chunk `j` starts at offset `Steps(j, k)`. */
  lemma {:induction false} ChunkAt<T>(a: seq<T>, k: nat, j: nat)
    requires k >= 1 && j < |Chunk(a, k)|
    ensures Steps(j, k) < |a|
    ensures Chunk(a, k)[j] == a[Steps(j, k)..Min(Steps(j, k) + k, |a|)]
    decreases |a|
  {
    if j == 0 {
      if |a| <= k {
        assert Chunk(a, k) == [a];
        assert a == a[0..|a|];
      } else {
        assert Chunk(a, k)[0] == a[..k];
      }
    } else {
      assert |a| > k;
      var rest := Chunk(a[k..], k);
      assert Chunk(a, k) == [a[..k]] + rest;
      ChunkAt(a[k..], k, j - 1);
      var o := Steps(j - 1, k);
      var hi := Min(o + k, |a| - k);
      assert rest[j - 1] == a[k..][o..hi];
      SliceOfSlice(a, k, o, hi);
      assert Steps(j, k) == k + o;
      assert k + hi == Min(Steps(j, k) + k, |a|);
    }
  }

  /** A loop stepping `i += k` from 0 is still inside `a` at step `j`
      exactly when there is a `j`-th chunk. */
  lemma {:induction false} ChunkCountSteps<T>(a: seq<T>, k: nat, j: nat)
    requires k >= 1 && j <= |Chunk(a, k)|
    ensures j < |Chunk(a, k)| <==> Steps(j, k) < |a|
    decreases |a|
  {
    if j > 0 && |a| > k {
      assert Chunk(a, k) == [a[..k]] + Chunk(a[k..], k);
      ChunkCountSteps(a[k..], k, j - 1);
      StepsFirst(j, k);
    }
  }

  /** The first step is taken first: `Steps(j, k) == k + Steps(j - 1, k)`. */
  lemma StepsFirst(j: nat, k: nat)
    requires j >= 1
    ensures Steps(j, k) == k + Steps(j - 1, k)
  {
  }

  /** The `j`-th chunk is the slice `a[j*k .. min((j+1)*k, |a|)]`. */
  lemma ChunkIsSlices<T>(a: seq<T>, k: nat, j: nat)
    requires k >= 1 && j < |Chunk(a, k)|
    ensures j * k < |a|
    ensures Chunk(a, k)[j] == a[j * k..Min((j + 1) * k, |a|)]
  {
    ChunkAt(a, k, j);
    StepsIsProduct(j, k);
    StepsIsProduct(j + 1, k);
  }

  /** The first `j` chunks hold the first `Steps(j, k)` elements, or all of them. */
  lemma {:induction false} ChunkPrefixSteps<T>(a: seq<T>, k: nat, j: nat)
    requires k >= 1 && j <= |Chunk(a, k)|
    ensures Flatten(Chunk(a, k)[..j]) == a[..Min(Steps(j, k), |a|)]
    decreases |a|
  {
    var r := Chunk(a, k);
    if j == 0 {
      assert r[..0] == [];
    } else if |a| <= k {
      assert r[..j] == [a];
      assert Flatten([a]) == a + Flatten([]);
    } else {
      var rest := Chunk(a[k..], k);
      assert r[..j] == [a[..k]] + rest[..j - 1];
      assert ([a[..k]] + rest[..j - 1])[1..] == rest[..j - 1];
      ChunkPrefixSteps(a[k..], k, j - 1);
      var o := Steps(j - 1, k);
      assert Flatten(r[..j]) == a[..k] + a[k..][..Min(o, |a| - k)];
      assert a[..k] + a[k..][..Min(o, |a| - k)] == a[..Min(o + k, |a|)];
    }
  }

  /** The first `j` chunks hold exactly the first `min(j*k, |a|)` elements. */
  lemma ChunkPrefix<T>(a: seq<T>, k: nat, j: nat)
    requires k >= 1 && j <= |Chunk(a, k)|
    ensures Flatten(Chunk(a, k)[..j]) == a[..Min(j * k, |a|)]
  {
    ChunkPrefixSteps(a, k, j);
    StepsIsProduct(j, k);
  }
}
