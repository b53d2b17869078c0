/** The recording format chosen inside `extractVideoSegment`: the
    preferred VP9/Opus WebM, else the first supported alternative, else
    the preferred one regardless. Browser support is a parameter. */
module Codec {
  import opened Strings

  const Webm: string := "video/webm"
  const Mp4: string := "video/mp4"

  const Preferred: string := Webm + ";codecs=vp9,opus"
  const Vp8: string := Webm + ";codecs=vp8,opus"

  /** The fallbacks, in order of preference. */
  const Alternatives: seq<string> := [Vp8, Webm, Mp4]

  /** The position of the first supported entry of `cs`, or `|cs|`. */
  function FirstSupported(cs: seq<string>, isSupported: string -> bool): (k: nat)
    ensures k <= |cs|
    ensures k < |cs| ==> isSupported(cs[k])
    ensures forall j :: 0 <= j < k ==> !isSupported(cs[j])
  {
    if cs == [] then 0
    else if isSupported(cs[0]) then 0
    else 1 + FirstSupported(cs[1..], isSupported)
  }

  /** The MIME type handed to `MediaRecorder`. */
  function ChooseMimeType(isSupported: string -> bool): (m: string)
    ensures isSupported(Preferred) ==> m == Preferred
    ensures !isSupported(Preferred) && isSupported(m) ==>
      exists k :: 0 <= k < |Alternatives| && m == Alternatives[k]
        && forall j :: 0 <= j < k ==> !isSupported(Alternatives[j])
    ensures !isSupported(Preferred) && (forall j :: 0 <= j < |Alternatives| ==> !isSupported(Alternatives[j]))
      ==> m == Preferred
    ensures m == Preferred || m in Alternatives
  {
    if isSupported(Preferred) then Preferred
    else
      var k := FirstSupported(Alternatives, isSupported);
      if k < |Alternatives| then Alternatives[k] else Preferred
  }

  /** The blob type of a recording: the MIME type up to its first `;`. */
  function BlobType(mimeType: string): (t: string)
    ensures StartsWith(mimeType, t) && ';' !in t
    ensures ';' !in mimeType ==> t == mimeType
  {
    BeforeFirst(mimeType, ';')
  }

  /** The text before the first `c` of `a + b` is `a` when `a` has no
      `c` and `b` starts with one. */
  lemma BeforeFirstJoin(a: string, b: string, c: char)
    requires c !in a && |b| > 0 && b[0] == c
    ensures BeforeFirst(a + b, c) == a
  {
    BeforeFirstAt(a + b, c, |a|);
    assert (a + b)[..|a|] == a;
  }

  /** The blob type of each candidate. */
  lemma CandidateBlobTypes()
    ensures BlobType(Preferred) == Webm
    ensures BlobType(Vp8) == Webm
    ensures BlobType(Webm) == Webm
    ensures BlobType(Mp4) == Mp4
  {
    assert ';' !in Webm;
    assert ';' !in Mp4;
    BeforeFirstJoin(Webm, ";codecs=vp9,opus", ';');
    BeforeFirstJoin(Webm, ";codecs=vp8,opus", ';');
  }

  /** Which of three candidates is chosen first, case by case. */
  lemma FirstOfThree(a: string, b: string, c: string, isSupported: string -> bool)
    ensures isSupported(a) ==> FirstSupported([a, b, c], isSupported) == 0
    ensures !isSupported(a) && isSupported(b) ==> FirstSupported([a, b, c], isSupported) == 1
    ensures !isSupported(a) && !isSupported(b) && isSupported(c) ==> FirstSupported([a, b, c], isSupported) == 2
    ensures !isSupported(a) && !isSupported(b) && !isSupported(c) ==> FirstSupported([a, b, c], isSupported) == 3
  {
    assert [a, b, c][1..] == [b, c] && [b, c][1..] == [c] && [c][1..] == [];
    var k2 := FirstSupported([c], isSupported);
    assert k2 == (if isSupported(c) then 0 else 1 + FirstSupported([], isSupported));
    var k1 := FirstSupported([b, c], isSupported);
    assert k1 == (if isSupported(b) then 0 else 1 + k2);
  }

  /** The chosen MIME type, case by case in order of preference. */
  lemma ChooseMimeTypeCases(isSupported: string -> bool)
    ensures ChooseMimeType(isSupported) ==
      if isSupported(Preferred) then Preferred
      else if isSupported(Vp8) then Vp8
      else if isSupported(Webm) then Webm
      else if isSupported(Mp4) then Mp4
      else Preferred
  {
    FirstOfThree(Vp8, Webm, Mp4, isSupported);
  }

  /** Every recording is typed `video/webm` or `video/mp4`; it is
      `video/mp4` exactly when MP4 is the only supported candidate. */
  lemma RecordedBlobType(isSupported: string -> bool)
    ensures BlobType(ChooseMimeType(isSupported)) == Webm || BlobType(ChooseMimeType(isSupported)) == Mp4
    ensures BlobType(ChooseMimeType(isSupported)) == Mp4 <==>
      !isSupported(Preferred) && !isSupported(Vp8) && !isSupported(Webm) && isSupported(Mp4)
  {
    CandidateBlobTypes();
    ChooseMimeTypeCases(isSupported);
    assert Webm != Mp4;
  }
}
