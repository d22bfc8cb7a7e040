/** The gallery editor of a project: a list of image URLs that grows by
    uploaded files or a typed URL, up to a maximum, and whose entries can be
    removed or moved one place up or down.

    The upload itself is a parameter: the URLs the host returned for the
    files, or the message it failed with. */
module MultiImageUpload {
  import opened Wrappers
  import opened Seqs
  import opened Text

  const DefaultMaxImages: int := 10
  /** 5 MB, in bytes. */
  const MaxFileSize: int := 5 * 1024 * 1024

  datatype File = File(mimeType: string, size: int)

  /** What the upload of a batch gave back. */
  datatype UploadResult = Uploaded(urls: seq<string>) | Failed(message: string)

  /** The editor's state: the images it holds (the parent's value, replaced
      on every change), its error line, and the URL field. */
  datatype Editor = Editor(images: seq<string>, error: string, urlInput: string, showUrlInput: bool)

  /** `Maximum ${maxImages} images allowed`. */
  function MaxMessage(maxImages: int): string {
    "Maximum " + IntToString(maxImages) + " images allowed"
  }

  const NotAnImage: string := "Please select only image files"
  const TooLarge: string := "Each image must be less than 5MB"
  const UploadFailed: string := "Failed to upload images"

  /** The complaint about one file, if any: its type is checked before its
      size, and a file of exactly 5 MB passes. */
  function FileError(f: File): (r: Option<string>)
    ensures !StartsWith(f.mimeType, "image/") ==> r == Some(NotAnImage)
    ensures StartsWith(f.mimeType, "image/") && f.size > MaxFileSize ==> r == Some(TooLarge)
    ensures r.None? <==> StartsWith(f.mimeType, "image/") && f.size <= MaxFileSize
  {
    if !StartsWith(f.mimeType, "image/") then Some(NotAnImage)
    else if f.size > MaxFileSize then Some(TooLarge)
    else None
  }

  /** The complaint about the first file that has one. */
  function FirstFileError(files: seq<File>): (r: Option<string>)
    ensures r.None? <==> forall k :: 0 <= k < |files| ==> FileError(files[k]).None?
    ensures r.Some? ==>
      exists k :: 0 <= k < |files| && FileError(files[k]) == r && forall m :: 0 <= m < k ==> FileError(files[m]).None?
  {
    if files == [] then None
    else if FileError(files[0]).Some? then
      FileError(files[0])
    else
      var r := FirstFileError(files[1..]);
      if r.Some? then
        var k :| 0 <= k < |files[1..]| && FileError(files[1..][k]) == r
          && forall m :: 0 <= m < k ==> FileError(files[1..][m]).None?;
        assert FileError(files[k + 1]) == r;
        assert forall m :: 0 <= m < k + 1 ==> FileError(files[m]).None? by {
          forall m | 0 <= m < k + 1 ensures FileError(files[m]).None? {
            if m > 0 { assert files[m] == files[1..][m - 1]; }
          }
        }
        r
      else
        assert forall k :: 1 <= k < |files| ==> files[k] == files[1..][k - 1];
        r
  }

  /** `handleFileChange`: an empty selection does nothing; a bad file, or a
      batch that would pass the maximum, only sets the error; otherwise the
      uploaded URLs are appended, all of them or, if the upload fails, none. */
  function ChooseFiles(e: Editor, files: seq<File>, maxImages: int, upload: UploadResult): (r: Editor)
    ensures files == [] ==> r == e
    ensures r.images != e.images ==>
      && files != [] && FirstFileError(files).None? && |e.images| + |files| <= maxImages
      && upload.Uploaded? && r.images == e.images + upload.urls && r.error == ""
    ensures files != [] && FirstFileError(files).Some? ==> r == e.(error := FirstFileError(files).value)
    ensures files != [] && FirstFileError(files).None? && |e.images| + |files| > maxImages ==>
      r == e.(error := MaxMessage(maxImages))
    ensures upload.Failed? ==> r.images == e.images
    ensures files != [] && FirstFileError(files).None? && |e.images| + |files| <= maxImages ==>
      match upload
      case Uploaded(urls) => r == e.(images := e.images + urls, error := "")
      case Failed(m) => r == e.(error := if m != "" then m else UploadFailed)
    ensures r.urlInput == e.urlInput && r.showUrlInput == e.showUrlInput
  {
    if files == [] then e
    else
      match FirstFileError(files)
      case Some(message) => e.(error := message)
      case None =>
        if |e.images| + |files| > maxImages then e.(error := MaxMessage(maxImages))
        else
          match upload
          case Uploaded(urls) => e.(error := "", images := e.images + urls)
          case Failed(message) => e.(error := if message != "" then message else UploadFailed)
  }

  /** `handleUrlSubmit`: a blank field does nothing; a full gallery only
      sets the error; otherwise the trimmed URL is appended and the field is
      cleared and hidden. */
  function SubmitUrl(e: Editor, maxImages: int): (r: Editor)
    ensures AllSpace(e.urlInput) ==> r == e
    ensures !AllSpace(e.urlInput) && |e.images| >= maxImages ==> r == e.(error := MaxMessage(maxImages))
    ensures !AllSpace(e.urlInput) && |e.images| < maxImages ==>
      && r.images == e.images + [Trim(e.urlInput)]
      && IsTrimmed(r.images[|r.images| - 1]) && r.images[|r.images| - 1] != ""
      && r.urlInput == "" && !r.showUrlInput && r.error == e.error
  {
    if AllSpace(e.urlInput) then e
    else if |e.images| >= maxImages then e.(error := MaxMessage(maxImages))
    else
      var url := Trim(e.urlInput);
      TrimEmpty(e.urlInput);
      var images := e.images + [url];
      assert images[|images| - 1] == url;
      e.(images := images, urlInput := "", showUrlInput := false)
  }

  /** `handleRemove`: drops the image at `index`; any other index changes
      nothing. */
  function RemoveImage(images: seq<string>, index: int): (r: seq<string>)
    ensures 0 <= index < |images| ==>
      && |r| == |images| - 1
      && (forall k :: 0 <= k < index ==> r[k] == images[k])
      && (forall k :: index <= k < |r| ==> r[k] == images[k + 1])
    ensures !(0 <= index < |images|) ==> r == images
  {
    FilterIndex(images, index)
  }

  /** `handleMoveUp`: exchanges the image with the one before it; the first
      image stays. */
  function MoveUp(images: seq<string>, index: int): (r: seq<string>)
    requires 0 <= index < |images|
    ensures |r| == |images|
    ensures index == 0 ==> r == images
    ensures index > 0 ==> r[index - 1] == images[index] && r[index] == images[index - 1]
    ensures forall k :: 0 <= k < |r| && k != index && k != index - 1 ==> r[k] == images[k]
    ensures multiset(r) == multiset(images)
  {
    if index == 0 then images else Swap(images, index - 1, index)
  }

  /** `handleMoveDown`: exchanges the image with the one after it; the last
      image stays. */
  function MoveDown(images: seq<string>, index: int): (r: seq<string>)
    requires 0 <= index < |images|
    ensures |r| == |images|
    ensures index == |images| - 1 ==> r == images
    ensures index < |images| - 1 ==> r[index + 1] == images[index] && r[index] == images[index + 1]
    ensures forall k :: 0 <= k < |r| && k != index && k != index + 1 ==> r[k] == images[k]
    ensures multiset(r) == multiset(images)
  {
    if index == |images| - 1 then images else Swap(images, index, index + 1)
  }

  /** Moving an image down and then moving it back up restores the gallery,
      and the other way round. */
  lemma MovesUndo(images: seq<string>, index: int)
    requires 0 <= index < |images|
    ensures index < |images| - 1 ==> MoveUp(MoveDown(images, index), index + 1) == images
    ensures index > 0 ==> MoveDown(MoveUp(images, index), index - 1) == images
  {
    if index < |images| - 1 {
      SwapTwice(images, index, index + 1);
    }
    if index > 0 {
      SwapTwice(images, index - 1, index);
    }
  }

  /** Appending by URL and removing the new last image restores the list. */
  lemma SubmitThenRemove(e: Editor, maxImages: int)
    requires !AllSpace(e.urlInput) && |e.images| < maxImages
    ensures RemoveImage(SubmitUrl(e, maxImages).images, |e.images|) == e.images
  {
  }

  /** No edit takes the gallery past the maximum, when the upload returns
      one URL per file. */
  lemma NeverExceedsMax(e: Editor, maxImages: int, files: seq<File>, upload: UploadResult, index: int)
    requires |e.images| <= maxImages
    requires upload.Uploaded? ==> |upload.urls| == |files|
    ensures |ChooseFiles(e, files, maxImages, upload).images| <= maxImages
    ensures |SubmitUrl(e, maxImages).images| <= maxImages
    ensures |RemoveImage(e.images, index)| <= maxImages
  {
  }
}
