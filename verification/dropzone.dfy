/**
 * The drop handler of the file drop zone: what happens with the accepted and
 * rejected files that the drop-zone library reports for one drop.
 */
module Dropzone {
  import opened Optional
  import opened Files

  /** Largest file the drop zone lets through: 100 MiB. */
  const MaxFileSize: nat := 100 * 1024 * 1024

  /** Accepted MIME types and the file extensions each stands for. */
  const AcceptedFileTypes: map<string, seq<string>> :=
    map["audio/mpeg" := [".mp3"], "audio/mp3" := [".mp3"], "video/mp4" := [".mp4"]]

  /** One entry of a rejected file's error list, as the drop-zone library reports it. */
  datatype FileError = FileError(code: string, message: string)

  datatype FileRejection = FileRejection(file: File, errors: seq<FileError>)

  const FileTooLargeCode := "file-too-large"
  const FileInvalidTypeCode := "file-invalid-type"

  /** The notifications the handler raises. */
  datatype Toast =
    | TooLarge
    | InvalidType
    | DropFailed
    | Selected(fileName: string)
  {
    predicate IsError() {
      !Selected?
    }

    function Message(): string {
      match this
      case TooLarge => "File too large. Maximum size is 100MB."
      case InvalidType => "Invalid file type. Only .mp3 and .mp4 files are allowed."
      case DropFailed => "File upload failed. Please try again."
      case Selected(name) => "File \"" + name + "\" selected successfully!"
    }
  }

  /**
   * The effect of one drop: the file handed to `onFileSelect` and the toast
   * shown, if any; or the handler throwing, which happens when the first
   * rejection carries no error entry to read a code from.
   */
  datatype DropOutcome =
    | Handled(selected: Option<File>, toast: Option<Toast>)
    | HandlerThrows

  lemma FileLimits()
    ensures MaxFileSize == 104857600
    ensures AcceptedFileTypes.Keys == {"audio/mpeg", "audio/mp3", "video/mp4"}
    ensures forall t :: t in AcceptedFileTypes ==> |AcceptedFileTypes[t]| == 1
    ensures forall t :: t in AcceptedFileTypes ==> AcceptedFileTypes[t][0] in {".mp3", ".mp4"}
    ensures forall t :: t in AcceptedFileTypes ==> (AcceptedFileTypes[t][0] == ".mp4" <==> t == "video/mp4")
  {
  }

  /** The error toast for the first error code of the first rejected file. */
  function Classify(code: string): (t: Toast)
    ensures t.IsError()
    ensures t == TooLarge <==> code == FileTooLargeCode
    ensures t == InvalidType <==> code == FileInvalidTypeCode
    ensures t == DropFailed <==> code != FileTooLargeCode && code != FileInvalidTypeCode
  {
    if code == FileTooLargeCode then TooLarge
    else if code == FileInvalidTypeCode then InvalidType
    else DropFailed
  }

  /** `onDrop(acceptedFiles, rejectedFiles)`. */
  function OnDrop(accepted: seq<File>, rejected: seq<FileRejection>): (o: DropOutcome)
    // a rejection wins: nothing is selected and an error toast is shown
    ensures |rejected| > 0 && |rejected[0].errors| > 0 ==>
              o == Handled(None, Some(Classify(rejected[0].errors[0].code)))
    ensures o == HandlerThrows <==> |rejected| > 0 && |rejected[0].errors| == 0
    // a file is selected only when nothing was rejected, and it is the first accepted one
    ensures o.Handled? && o.selected.Some? <==> |rejected| == 0 && |accepted| > 0
    ensures o.Handled? && o.selected.Some? ==> o.selected.value == accepted[0]
    // a selection always comes with its success toast; an empty drop is silent
    ensures o.Handled? && o.selected.Some? ==> o.toast == Some(Selected(accepted[0].name))
    ensures o.Handled? && o.toast.None? <==> |rejected| == 0 && |accepted| == 0
    ensures o.Handled? && o.toast.Some? ==> (o.toast.value.IsError() <==> |rejected| > 0)
  {
    if |rejected| > 0 then
      if |rejected[0].errors| == 0 then HandlerThrows
      else Handled(None, Some(Classify(rejected[0].errors[0].code)))
    else if |accepted| > 0 then
      Handled(Some(accepted[0]), Some(Selected(accepted[0].name)))
    else
      Handled(None, None)
  }

  /** Only the first error code of the first rejection decides the outcome. */
  lemma OnlyFirstErrorMatters(a1: seq<File>, r1: seq<FileRejection>, a2: seq<File>, r2: seq<FileRejection>)
    requires |r1| > 0 && |r2| > 0 && |r1[0].errors| > 0 && |r2[0].errors| > 0
    requires r1[0].errors[0].code == r2[0].errors[0].code
    ensures OnDrop(a1, r1) == OnDrop(a2, r2)
  {
  }

  /** Scenario: a too-large rejection beside an accepted file selects nothing. */
  lemma RejectionOverridesAcceptance(f: File, big: File)
    ensures OnDrop([f], [FileRejection(big, [FileError(FileTooLargeCode, "File is larger than 104857600 bytes")])])
            == Handled(None, Some(TooLarge))
  {
  }
}
