/** The list of files chosen for upload on the media page: files are screened by type
    and size, the list holds at most ten, single files can be taken out or the list
    cleared, and an upload starts only past the guards of the submit handler. */
module MediaUpload {
  import opened JsText

  const MaxFiles: nat := 10
  const MaxFileSize: nat := 20 * 1024 * 1024

  /** A chosen file: its name, its MIME type and its size in bytes. */
  datatype FileInfo = FileInfo(name: string, mimeType: string, size: nat)

  /** The messages the page shows, by kind; their wording is not modelled. */
  datatype UploadError =
    | NotMedia(fileName: string)
    | TooLarge(fileName: string)
    | ListFull
    | OverLimit
    | NoFiles
    | NotAgreed
    | UploadNotConfigured
    | DatabaseNotConfigured

  predicate IsMedia(f: FileInfo) {
    StartsWith(f.mimeType, "image/") || StartsWith(f.mimeType, "video/")
  }

  /** The screen a file passes: an image or a video of at most MaxFileSize bytes. */
  predicate Acceptable(f: FileInfo) {
    IsMedia(f) && f.size <= MaxFileSize
  }

  function Accept(f: FileInfo): Option<FileInfo> {
    if Acceptable(f) then Some(f) else None
  }

  /** The message for a file that fails the screen, type first. */
  function Reject(f: FileInfo): Option<UploadError> {
    if !IsMedia(f) then Some(NotMedia(f.name))
    else if f.size > MaxFileSize then Some(TooLarge(f.name))
    else None
  }

  /** The files that pass the screen, in the order they came. */
  function Accepted(incoming: seq<FileInfo>): seq<FileInfo> {
    FilterMap(Accept, incoming)
  }

  /** The messages of the files that fail it, in the same order. */
  function ScreenErrors(incoming: seq<FileInfo>): seq<UploadError> {
    FilterMap(Reject, incoming)
  }

  /** The free places of a list holding current files. */
  function Slots(current: nat): int {
    MaxFiles - current
  }

  /** The accepted files that fit into the free places: the first ones, as many as there
      is room for, so that the list never grows past MaxFiles. */
  function Admitted(current: nat, incoming: seq<FileInfo>): (r: seq<FileInfo>)
    ensures r <= Accepted(incoming)
    ensures current <= MaxFiles ==> current + |r| <= MaxFiles
    ensures current <= MaxFiles ==>
      |r| == if |Accepted(incoming)| < MaxFiles - current then |Accepted(incoming)| else MaxFiles - current
  {
    var accepted := Accepted(incoming);
    var slots := Slots(current);
    if slots > 0 then accepted[..if slots < |accepted| then slots else |accepted|] else []
  }

  /** Every message of one call to addFiles, joined into one on the page. */
  function AddErrors(current: nat, incoming: seq<FileInfo>): seq<UploadError> {
    ScreenErrors(incoming)
    + (if Slots(current) <= 0 then [ListFull] else [])
    + (if |Accepted(incoming)| > Slots(current) then [OverLimit] else [])
  }

  /** A file passes the screen exactly when it is an image or a video no larger than
      MaxFileSize, a file of exactly that size included. */
  lemma AcceptedIff(incoming: seq<FileInfo>, f: FileInfo)
    requires f in incoming
    ensures f in Accepted(incoming) <==> Acceptable(f)
  {
    var i :| 0 <= i < |incoming| && incoming[i] == f;
    if Acceptable(f) {
      FilterMapComplete(Accept, incoming, i);
    }
    if f in Accepted(incoming) {
      var j :| 0 <= j < |Accepted(incoming)| && Accepted(incoming)[j] == f;
      FilterMapSound(Accept, incoming, j);
    }
  }

  /** Every file either passes the screen or gives exactly one message. */
  lemma {:induction false} ScreenCount(incoming: seq<FileInfo>)
    ensures |Accepted(incoming)| + |ScreenErrors(incoming)| == |incoming|
    decreases |incoming|
  {
    if incoming != [] {
      ScreenCount(incoming[..|incoming| - 1]);
    }
  }

  /** A full list, or more accepted files than free places, is reported. */
  lemma AddErrorsLimits(current: nat, incoming: seq<FileInfo>)
    requires current <= MaxFiles
    ensures ListFull in AddErrors(current, incoming) <==> current == MaxFiles
    ensures OverLimit in AddErrors(current, incoming) <==> |Accepted(incoming)| > MaxFiles - current
    ensures |Admitted(current, incoming)| < |Accepted(incoming)| <==> OverLimit in AddErrors(current, incoming)
  {
    forall e | e in ScreenErrors(incoming)
      ensures e != ListFull && e != OverLimit
    {
      var j :| 0 <= j < |ScreenErrors(incoming)| && ScreenErrors(incoming)[j] == e;
      FilterMapSound(Reject, incoming, j);
    }
  }

  /** s.filter((_, i) => i !== index). */
  function WithoutIndex<T>(s: seq<T>, index: int): (r: seq<T>)
    decreases |s|
  {
    if s == [] then []
    else WithoutIndex(s[..|s| - 1], index) + (if |s| - 1 == index then [] else [s[|s| - 1]])
  }

  /** Removing by index takes out exactly that element and keeps the others in order;
      an index outside the list removes nothing. */
  lemma {:induction false} WithoutIndexSpec<T>(s: seq<T>, index: int)
    ensures WithoutIndex(s, index) == if 0 <= index < |s| then s[..index] + s[index + 1..] else s
    decreases |s|
  {
    if s != [] {
      var n := |s|;
      WithoutIndexSpec(s[..n - 1], index);
      if 0 <= index < n - 1 {
        assert s[..n - 1][..index] == s[..index];
        assert s[..n - 1][index + 1..] + [s[n - 1]] == s[index + 1..];
      } else if index == n - 1 {
        assert s[..n - 1][..index] == s[..index];
      } else {
        assert s[..n - 1] + [s[n - 1]] == s;
      }
    }
  }

  /** Why the submit handler stops before uploading, if it does. */
  function SubmitBlock(count: nat, agreed: bool, uploadConfigured: bool, databaseConfigured: bool): (r: Option<UploadError>)
    ensures r.None? <==> count > 0 && agreed && uploadConfigured && databaseConfigured
  {
    if count == 0 then Some(NoFiles)
    else if !agreed then Some(NotAgreed)
    else if !uploadConfigured then Some(UploadNotConfigured)
    else if !databaseConfigured then Some(DatabaseNotConfigured)
    else None
  }

  /** The state of the upload section that the list operations touch. */
  class UploadSelection {
    var files: seq<FileInfo>
    var errors: seq<UploadError>
    var isSubmitting: bool
    var isSubmitted: bool
    var uploadProgress: seq<int>
    var overallProgress: int
    var currentFileIndex: Option<nat>

    ghost predicate Valid()
      reads this
    {
      |files| <= MaxFiles
    }

    constructor ()
      ensures Valid()
      ensures files == [] && errors == [] && !isSubmitting && !isSubmitted
      ensures uploadProgress == [] && overallProgress == 0 && currentFileIndex == None
    {
      files := [];
      errors := [];
      isSubmitting := false;
      isSubmitted := false;
      uploadProgress := [];
      overallProgress := 0;
      currentFileIndex := None;
    }

    /** The progress shown is reset, unless an upload is running. */
    method ResetProgress()
      modifies this
      ensures files == old(files) && errors == old(errors)
      ensures isSubmitting == old(isSubmitting) && isSubmitted == old(isSubmitted)
      ensures !isSubmitting ==> uploadProgress == [] && overallProgress == 0 && currentFileIndex == None
      ensures isSubmitting ==> uploadProgress == old(uploadProgress) && overallProgress == old(overallProgress)
                               && currentFileIndex == old(currentFileIndex)
    {
      if !isSubmitting {
        uploadProgress := [];
        overallProgress := 0;
        currentFileIndex := None;
      }
    }

    /** addFiles: None stands for a missing file list, which changes nothing. */
    method AddFiles(fileList: Option<seq<FileInfo>>)
      requires Valid()
      modifies this
      ensures Valid()
      ensures fileList.None? ==> unchanged(this)
      ensures fileList.Some? ==>
        && files == old(files) + Admitted(|old(files)|, fileList.value)
        && errors == AddErrors(|old(files)|, fileList.value)
        && isSubmitting == old(isSubmitting)
        && (Admitted(|old(files)|, fileList.value) == [] ==>
              isSubmitted == old(isSubmitted) && uploadProgress == old(uploadProgress)
              && overallProgress == old(overallProgress) && currentFileIndex == old(currentFileIndex))
        && (Admitted(|old(files)|, fileList.value) != [] ==> !isSubmitted)
        && (Admitted(|old(files)|, fileList.value) != [] && !isSubmitting ==>
              uploadProgress == [] && overallProgress == 0 && currentFileIndex == None)
        && (Admitted(|old(files)|, fileList.value) != [] && isSubmitting ==>
              uploadProgress == old(uploadProgress) && overallProgress == old(overallProgress)
              && currentFileIndex == old(currentFileIndex))
    {
      if fileList.None? {
        return;
      }
      var incomingFiles := fileList.value;
      var nextFiles: seq<FileInfo> := [];
      var errs: seq<UploadError> := [];
      for i := 0 to |incomingFiles|
        invariant nextFiles == Accepted(incomingFiles[..i])
        invariant errs == ScreenErrors(incomingFiles[..i])
      {
        var file := incomingFiles[i];
        assert incomingFiles[..i + 1][..i] == incomingFiles[..i];
        if !StartsWith(file.mimeType, "image/") && !StartsWith(file.mimeType, "video/") {
          errs := errs + [NotMedia(file.name)];
          continue;
        }
        if file.size > MaxFileSize {
          errs := errs + [TooLarge(file.name)];
          continue;
        }
        nextFiles := nextFiles + [file];
      }
      assert incomingFiles[..|incomingFiles|] == incomingFiles;
      var remainingSlots := MaxFiles - |files|;
      if remainingSlots <= 0 {
        errs := errs + [ListFull];
      }
      var filesToAdd := if remainingSlots > 0 then nextFiles[..if remainingSlots < |nextFiles| then remainingSlots else |nextFiles|] else [];
      if |nextFiles| > remainingSlots {
        errs := errs + [OverLimit];
      }
      if |filesToAdd| > 0 {
        files := files + filesToAdd;
        isSubmitted := false;
        ResetProgress();
      }
      errors := errs;
    }

    /** handleRemoveFile. */
    method RemoveFile(index: int)
      requires Valid()
      modifies this
      ensures Valid()
      ensures files == WithoutIndex(old(files), index)
      ensures errors == [] && isSubmitting == old(isSubmitting) && isSubmitted == old(isSubmitted)
      ensures !isSubmitting ==> uploadProgress == WithoutIndex(old(uploadProgress), index)
                                && overallProgress == 0 && currentFileIndex == None
      ensures isSubmitting ==> uploadProgress == old(uploadProgress) && overallProgress == old(overallProgress)
                               && currentFileIndex == old(currentFileIndex)
    {
      WithoutIndexSpec(files, index);
      files := WithoutIndex(files, index);
      errors := [];
      if !isSubmitting {
        uploadProgress := WithoutIndex(uploadProgress, index);
        overallProgress := 0;
        currentFileIndex := None;
      }
    }

    /** handleClearFiles. */
    method ClearFiles()
      modifies this
      ensures Valid()
      ensures files == [] && errors == [] && isSubmitting == old(isSubmitting) && isSubmitted == old(isSubmitted)
      ensures !isSubmitting ==> uploadProgress == [] && overallProgress == 0 && currentFileIndex == None
      ensures isSubmitting ==> uploadProgress == old(uploadProgress) && overallProgress == old(overallProgress)
                               && currentFileIndex == old(currentFileIndex)
    {
      files := [];
      errors := [];
      ResetProgress();
    }

    /** The guards at the top of handleSubmit; started says the upload begins. */
    method BeginSubmit(agreedToShare: bool, uploadConfigured: bool, databaseConfigured: bool) returns (started: bool)
      requires Valid()
      modifies this
      ensures Valid() && files == old(files) && isSubmitted == old(isSubmitted)
      ensures started <==> SubmitBlock(|files|, agreedToShare, uploadConfigured, databaseConfigured).None?
      ensures !started ==>
        && errors == [SubmitBlock(|files|, agreedToShare, uploadConfigured, databaseConfigured).value]
        && isSubmitting == old(isSubmitting) && uploadProgress == old(uploadProgress)
        && overallProgress == old(overallProgress) && currentFileIndex == old(currentFileIndex)
      ensures started ==>
        && errors == [] && isSubmitting
        && uploadProgress == seq(|files|, _ => 0) && overallProgress == 0 && currentFileIndex == Some(0)
    {
      errors := [];
      if |files| == 0 {
        errors := [NoFiles];
        return false;
      }
      if !agreedToShare {
        errors := [NotAgreed];
        return false;
      }
      if !uploadConfigured {
        errors := [UploadNotConfigured];
        return false;
      }
      if !databaseConfigured {
        errors := [DatabaseNotConfigured];
        return false;
      }
      isSubmitting := true;
      uploadProgress := seq(|files|, _ => 0);
      overallProgress := 0;
      currentFileIndex := Some(0);
      started := true;
    }
  }
}
