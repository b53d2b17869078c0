/** The testimonial wall: the list of testimonials is cut into columns
    of `ceil(n / 3)` each, so that at most three columns show. */
module Testimonials {
  import opened Chunking

  datatype Testimonial = Testimonial(name: string, role: string, image: string, quote: string)

  /** `chunkArray(testimonials, Math.ceil(testimonials.length / 3))`. With
      no testimonials the column size is 0 and the loop does not run. */
  function Columns(ts: seq<Testimonial>): (cols: seq<seq<Testimonial>>)
    ensures ts == [] ==> cols == []
  {
    if ts == [] then [] else Chunk(ts, CeilDiv(|ts|, 3))
  }

  /** The columns hold every testimonial once, in order; there are at
      most three, none empty, and all but the last have the same size
      `ceil(n / 3)`. */
  lemma ColumnsShape(ts: seq<Testimonial>)
    ensures Flatten(Columns(ts)) == ts
    ensures |Columns(ts)| <= 3
    ensures forall j :: 0 <= j < |Columns(ts)| ==> 1 <= |Columns(ts)[j]|
    ensures forall j :: 0 <= j < |Columns(ts)| - 1 ==> |Columns(ts)[j]| == CeilDiv(|ts|, 3)
  {
    if ts != [] {
      var n := |ts|;
      var k := CeilDiv(n, 3);
      ChunkProperties(ts, k);
      var c := CeilDiv(n, k);
      assert (c - 1) * k < n <= 3 * k;
      CountBound(c, k);
    }
  }

  /** Fewer than `3 * k` items over steps of `k`: at most three steps. */
  lemma CountBound(c: nat, k: nat)
    requires k >= 1 && (c - 1) * k < 3 * k
    ensures c <= 3
  {
  }

  /** The six testimonials of the page show as three columns of two. */
  lemma SixMakeThreePairs(ts: seq<Testimonial>)
    requires |ts| == 6
    ensures |Columns(ts)| == 3
    ensures Columns(ts) == [ts[0..2], ts[2..4], ts[4..6]]
  {
    assert CeilDiv(6, 3) == 2;
    assert Columns(ts) == Chunk(ts, 2);
    var a := ts[2..];
    var b := a[2..];
    assert b == ts[4..6];
    assert Chunk(b, 2) == [b];
    assert a[..2] == ts[2..4];
    assert Chunk(a, 2) == [a[..2]] + Chunk(b, 2);
    assert Chunk(ts, 2) == [ts[..2]] + Chunk(a, 2);
  }
}
