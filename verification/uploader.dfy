/** The admission logic of the image uploader component: which files of a
    dropped or picked batch join the image list, which single message is shown,
    removal by position, and when the drop zone is disabled. A file is reduced
    to the two attributes the checks read, its declared MIME type and its size
    in bytes. */
module Uploader {

  import opened Wrappers
  import Decimal

  /** A file offered to the uploader: `File.type` and `File.size`. */
  datatype Candidate = Candidate(mimeType: string, size: nat)

  /** The component's bounding props, `maxImages` and `maxSizeMB`. */
  datatype Limits = Limits(maxImages: nat, maxSizeMB: nat)

  /** The defaults the component declares for both props. */
  const DefaultLimits := Limits(5, 2)

  /** The three reasons a batch can produce a message. */
  datatype Rejection = InvalidType | TooLarge(maxSizeMB: nat) | CapacityExceeded(maxImages: nat)

  /** The component's own state (`error`) together with the `images` prop, as
      the parent holds it after applying every `onImagesChange` call. */
  datatype Uploader = Uploader(images: seq<Candidate>, error: Option<Rejection>)

  /** The state after one handler, and the argument of `onImagesChange` when
      the handler calls it (`None` when it does not). */
  datatype Reaction = Reaction(after: Uploader, changed: Option<seq<Candidate>>)

  const ImagePrefix: string := "image/"

  /** `String.prototype.startsWith`. */
  predicate StartsWith(s: string, prefix: string) {
    |prefix| <= |s| && s[..|prefix|] == prefix
  }

  predicate IsImageType(mimeType: string) {
    StartsWith(mimeType, ImagePrefix)
  }

  /** `maxSizeMB * 1024 * 1024`. */
  function MaxSizeBytes(limits: Limits): nat {
    limits.maxSizeMB * 1024 * 1024
  }

  /** The message text each rejection shows. */
  function Message(r: Rejection): string {
    match r
    case InvalidType => "Only image files are allowed"
    case TooLarge(mb) => "File size must be less than " + Decimal.Show(mb) + "MB"
    case CapacityExceeded(max) => "You can only upload " + Decimal.Show(max) + " images total"
  }

  /** `validateFile`: `None` when the file passes, otherwise the rejection it
      records. The type is checked first, so a non-image is rejected as such
      whatever its size, and a file exactly at the size limit passes. */
  function Validate(limits: Limits, c: Candidate): (r: Option<Rejection>)
    ensures r.None? <==> IsImageType(c.mimeType) && c.size <= MaxSizeBytes(limits)
    ensures !IsImageType(c.mimeType) ==> r == Some(InvalidType)
    ensures IsImageType(c.mimeType) && c.size > MaxSizeBytes(limits) ==> r == Some(TooLarge(limits.maxSizeMB))
    ensures r != Some(CapacityExceeded(limits.maxImages))
  {
    if !IsImageType(c.mimeType) then Some(InvalidType)
    else if c.size > MaxSizeBytes(limits) then Some(TooLarge(limits.maxSizeMB))
    else None
  }

  predicate Admissible(limits: Limits, c: Candidate) {
    Validate(limits, c).None?
  }

  /** The number of batch positions the loop of `handleFiles` visits:
      `min(files.length, maxImages - images.length)`, or none when that is
      not positive. */
  function Examined(limits: Limits, imageCount: nat, batchSize: nat): (k: nat)
    ensures k <= batchSize
    ensures k > 0 ==> imageCount + k <= limits.maxImages
    ensures k < batchSize ==> imageCount + k >= limits.maxImages
  {
    var remaining := limits.maxImages - imageCount;
    if remaining <= 0 then 0 else if batchSize < remaining then batchSize else remaining
  }

  /** The batch holds more files than there are free slots. */
  predicate ExceedsCapacity(limits: Limits, imageCount: nat, batchSize: nat) {
    batchSize > limits.maxImages - imageCount
  }

  /** The files of a window that pass validation, in their original order. */
  function Admitted(limits: Limits, window: seq<Candidate>): (r: seq<Candidate>)
    ensures |r| <= |window|
    ensures forall c :: c in r ==> c in window && Admissible(limits, c)
    decreases |window|
  {
    if window == [] then []
    else
      var rest := Admitted(limits, window[..|window| - 1]);
      if Admissible(limits, window[|window| - 1]) then rest + [window[|window| - 1]] else rest
  }

  /** The rejection of the last file of a window that fails validation. */
  function LastRejection(limits: Limits, window: seq<Candidate>): Option<Rejection>
    decreases |window|
  {
    if window == [] then None
    else
      match Validate(limits, window[|window| - 1])
      case Some(e) => Some(e)
      case None => LastRejection(limits, window[..|window| - 1])
  }

  /** The outcome of `handleFiles`. A null batch changes nothing. Otherwise the
      error is cleared, only the first `Examined` files are looked at, the ones
      that pass are appended in order, and the message is the capacity one when
      the batch is larger than the free slots, else the last rejection's. */
  function Ingest(limits: Limits, ui: Uploader, files: Option<seq<Candidate>>): (r: Reaction)
    ensures files.None? ==> r == Reaction(ui, None)
    ensures ui.images <= r.after.images
    ensures |ui.images| <= limits.maxImages ==> |r.after.images| <= limits.maxImages
    ensures forall j :: |ui.images| <= j < |r.after.images| ==> Admissible(limits, r.after.images[j])
    ensures r.changed.Some? <==> |r.after.images| > |ui.images|
    ensures r.changed.Some? ==> r.changed.value == r.after.images
    ensures files.Some? && ExceedsCapacity(limits, |ui.images|, |files.value|) ==>
              r.after.error == Some(CapacityExceeded(limits.maxImages))
  {
    match files
    case None => Reaction(ui, None)
    case Some(fs) =>
      var window := fs[..Examined(limits, |ui.images|, |fs|)];
      var newFiles := Admitted(limits, window);
      var error :=
        if ExceedsCapacity(limits, |ui.images|, |fs|) then Some(CapacityExceeded(limits.maxImages))
        else LastRejection(limits, window);
      if |newFiles| > 0 then
        var images := ui.images + newFiles;
        assert forall j :: |ui.images| <= j < |images| ==> images[j] in newFiles;
        Reaction(Uploader(images, error), Some(images))
      else
        Reaction(Uploader(ui.images, error), None)
  }

  /** `handleFiles` as the component writes it: one pass over the examined
      prefix that overwrites the message on each rejection and collects the
      files that pass, then the capacity check, then the change notification. */
  method HandleFiles(limits: Limits, ui: Uploader, files: Option<seq<Candidate>>) returns (r: Reaction)
    ensures r == Ingest(limits, ui, files)
  {
    if files.None? {
      return Reaction(ui, None);
    }
    var fs := files.value;
    var error: Option<Rejection> := None;
    var newFiles: seq<Candidate> := [];
    var remaining: int := limits.maxImages - |ui.images|;
    var bound: int := if |fs| < remaining then |fs| else remaining;
    var i := 0;
    while i < bound
      invariant 0 <= i <= Examined(limits, |ui.images|, |fs|)
      invariant newFiles == Admitted(limits, fs[..i])
      invariant error == LastRejection(limits, fs[..i])
      decreases bound - i
    {
      var file := fs[i];
      assert fs[..i + 1][..i] == fs[..i];
      var verdict := Validate(limits, file);
      if verdict.Some? {
        error := verdict;
      } else {
        newFiles := newFiles + [file];
      }
      i := i + 1;
    }
    if |fs| > remaining {
      error := Some(CapacityExceeded(limits.maxImages));
    }
    if |newFiles| > 0 {
      r := Reaction(Uploader(ui.images + newFiles, error), Some(ui.images + newFiles));
    } else {
      r := Reaction(Uploader(ui.images, error), None);
    }
  }

  /** `images.filter((_, i) => i !== index)`. */
  function DropIndex<T>(xs: seq<T>, index: int): seq<T>
    decreases |xs|
  {
    if xs == [] then []
    else (if index == 0 then [] else [xs[0]]) + DropIndex(xs[1..], index - 1)
  }

  /** `removeImage`: always notifies the parent with the filtered list and
      clears the message. */
  function RemoveImage(ui: Uploader, index: int): (r: Reaction)
    ensures r.after.error.None?
    ensures r.changed == Some(r.after.images)
  {
    var images := DropIndex(ui.images, index);
    Reaction(Uploader(images, None), Some(images))
  }

  /** `isDisabled`: the list is full, so the admission loop has no free slot
      to examine, whatever the batch. */
  function IsDisabled(limits: Limits, ui: Uploader): (r: bool)
    ensures r <==> Examined(limits, |ui.images|, 1) == 0
    ensures r ==> forall k: nat :: Examined(limits, |ui.images|, k) == 0
  {
    |ui.images| >= limits.maxImages
  }

  /** The two handlers that reach the admission logic: a batch arriving by drop
      or by the file input, and a click on a thumbnail's remove button. */
  datatype UploaderEvent = FilesOffered(files: Option<seq<Candidate>>) | RemoveClicked(index: int)

  function Apply(limits: Limits, ui: Uploader, e: UploaderEvent): Uploader {
    match e
    case FilesOffered(files) => Ingest(limits, ui, files).after
    case RemoveClicked(index) => RemoveImage(ui, index).after
  }

  function Replay(limits: Limits, ui: Uploader, es: seq<UploaderEvent>): Uploader
    decreases |es|
  {
    if es == [] then ui else Replay(limits, Apply(limits, ui, es[0]), es[1..])
  }
}
