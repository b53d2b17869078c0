/** The `VideoUploader` page: file validation, taking the first of the
    dropped or selected files, the simulated upload progress and the
    reset. The object URL of the file is a parameter. */
module VideoUploader {
  import opened Outcomes
  import opened Strings
  import opened Formatting
  import opened Segmentation

  datatype UploadState = UploadState(
    dragging: bool,
    progress: real,
    uploading: bool,
    error: Option<string>,
    uploadedVideo: Option<string>,
    videoFile: Option<VideoFile>,
    showSegmenter: bool,
    urlRef: Option<string>)

  /** The page as it first renders. */
  const Fresh: UploadState := UploadState(false, 0.0, false, None, None, None, false, None)

  /** The `maxSizeMB` property when none is given. */
  const DefaultMaxSizeMB: nat := 1024

  const NotAVideo: string := "Please upload a valid video file."

  function TooLarge(maxSizeMB: nat): string {
    "File size exceeds the " + NatToString(maxSizeMB) + "MB limit."
  }

  datatype Verdict = Valid | Invalid(message: string)

  /** `validateFile`: the type is checked first, then the size in
      megabytes against the limit. */
  function Validate(file: VideoFile, maxSizeMB: nat): (v: Verdict)
    ensures !StartsWith(file.mimeType, "video/") ==> v == Invalid(NotAVideo)
    ensures StartsWith(file.mimeType, "video/") ==>
      (v.Invalid? <==> file.size > maxSizeMB * MiB)
    ensures StartsWith(file.mimeType, "video/") && v.Invalid? ==> v == Invalid(TooLarge(maxSizeMB))
  {
    if !StartsWith(file.mimeType, "video/") then Invalid(NotAVideo)
    else
      var fileSizeMB := file.size as real / 1048576.0;
      if fileSizeMB > maxSizeMB as real then Invalid(TooLarge(maxSizeMB)) else Valid
  }

  /** A video exactly at the limit is accepted; one byte more is not. */
  lemma LimitIsInclusive(name: string, mimeType: string, maxSizeMB: nat)
    requires StartsWith(mimeType, "video/")
    ensures Validate(VideoFile(name, mimeType, maxSizeMB * MiB), maxSizeMB) == Valid
    ensures Validate(VideoFile(name, mimeType, maxSizeMB * MiB + 1), maxSizeMB).Invalid?
  {
  }

  /** `simulateUpload` up to the first tick: the file and its URL are
      kept and the progress restarts. */
  function StartUpload(s: UploadState, file: VideoFile, url: string): (t: UploadState)
    ensures t.uploading && t.progress == 0.0 && t.error.None?
    ensures t.videoFile == Some(file) && t.urlRef == Some(url)
    ensures t.uploadedVideo == s.uploadedVideo && t.showSegmenter == s.showSegmenter
  {
    s.(uploading := true, progress := 0.0, error := None, videoFile := Some(file), urlRef := Some(url))
  }

  /** The file input or the drop zone handing over `files`: only the
      first is looked at; it is validated, and uploaded if valid. */
  function Receive(s: UploadState, files: seq<VideoFile>, maxSizeMB: nat, url: string): (t: UploadState)
    ensures files == [] ==> t == s
    ensures files != [] && Validate(files[0], maxSizeMB).Invalid? ==>
      t == s.(error := Some(Validate(files[0], maxSizeMB).message))
    ensures files != [] && Validate(files[0], maxSizeMB) == Valid ==>
      t == StartUpload(s, files[0], url)
  {
    if files == [] then s
    else match Validate(files[0], maxSizeMB)
      case Invalid(m) => s.(error := Some(m))
      case Valid => StartUpload(s.(error := None), files[0], url)
  }

  /** `handleDrop`: the drag highlight goes off, then as `Receive`. */
  function Drop(s: UploadState, files: seq<VideoFile>, maxSizeMB: nat, url: string): (t: UploadState)
    ensures !t.dragging
  {
    Receive(s.(dragging := false), files, maxSizeMB, url)
  }

  /** Files after the first change nothing; an upload starts exactly
      when the first file is valid. */
  lemma OnlyFirstFileCounts(s: UploadState, files: seq<VideoFile>, maxSizeMB: nat, url: string)
    requires files != [] && !s.uploading
    ensures Receive(s, files, maxSizeMB, url) == Receive(s, [files[0]], maxSizeMB, url)
    ensures Receive(s, files, maxSizeMB, url).uploading <==> Validate(files[0], maxSizeMB) == Valid
  {
  }

  /** One interval tick: the progress grows by `random * 10 + 5` and is
      held at 100 once it gets there. */
  function Tick(current: real, draw: real): (next: real)
    requires 0.0 <= draw < 1.0
    ensures next <= 100.0
    ensures current + 5.0 <= next || next == 100.0
    ensures next == 100.0 <==> current + draw * 10.0 + 5.0 >= 100.0
  {
    var c := current + draw * 10.0 + 5.0;
    if c >= 100.0 then 100.0 else c
  }

  /** The interval of `simulateUpload`, run to completion on the values
      `draws(0), draws(1), ...` of `Math.random()`. Returns the progress
      shown at each tick and the page once the interval is cleared. */
  method RunUpload(s: UploadState, url: string, draws: nat -> real)
    returns (shown: seq<real>, t: UploadState)
    requires forall k: nat :: 0.0 <= draws(k) < 1.0
    ensures 1 <= |shown| <= 20
    ensures shown[|shown| - 1] == 100.0
    ensures forall k :: 0 <= k < |shown| - 1 ==> shown[k] < 100.0
    ensures forall k :: 0 <= k < |shown| - 1 ==> shown[k] < shown[k + 1]
    ensures shown[0] >= 5.0
    ensures t == s.(progress := 100.0, uploading := false, uploadedVideo := Some(url))
  {
    var current := 0.0;
    shown := [];
    var k: nat := 0;
    while current < 100.0
      invariant k == |shown| && k <= 20
      invariant 5.0 * k as real <= current <= 100.0
      invariant k == 0 ==> current == 0.0
      invariant k > 0 ==> shown[k - 1] == current
      invariant k > 0 ==> shown[0] >= 5.0
      invariant forall a :: 0 <= a < k - 1 ==> shown[a] < shown[a + 1]
      invariant forall a :: 0 <= a < k - 1 ==> shown[a] < 100.0
      invariant current < 100.0 ==> forall a :: 0 <= a < k ==> shown[a] < 100.0
      decreases 20 - k
    {
      var next := Tick(current, draws(k));
      shown := shown + [next];
      current := next;
      k := k + 1;
    }
    t := s.(progress := 100.0, uploading := false, uploadedVideo := Some(url));
  }

  /** `resetUpload`: back to the page as it first renders, apart from the
      drag highlight, which it does not touch. */
  function Reset(s: UploadState): (t: UploadState)
    ensures t == Fresh.(dragging := s.dragging)
    ensures !s.dragging ==> t == Fresh
  {
    s.(uploadedVideo := None, videoFile := None, progress := 0.0, error := None,
       uploading := false, showSegmenter := false, urlRef := None)
  }

  /** Resetting twice is resetting once. */
  lemma ResetIdempotent(s: UploadState)
    ensures Reset(Reset(s)) == Reset(s)
  {
  }
}
