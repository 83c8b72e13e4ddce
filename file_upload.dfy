/** The image picker of the API-backed client: the size and type check and
    the handlers that report a chosen file or show the check's error. */
module FileUpload {
  import opened Wrappers
  import opened Strings

  /** What the picker sees of a file: its size in bytes and its MIME type. */
  datatype File = File(name: string, size: nat, mimeType: string)

  datatype UploadError = TooLarge(maxSize: int) | NotAnImage

  const Megabyte: int := 1024 * 1024

  /** The picker's defaults: images only, at most 5 MB. */
  const DefaultAccept: string := "image/*"
  const DefaultMaxSize: int := 5

  /** The size check first, skipped when the limit is 0; then, only for an
      images-only picker (see DefaultAccept), the type check. */
  function ValidateFile(file: File, accept: string, maxSize: int): (r: Option<UploadError>)
    ensures r.None? || r == Some(TooLarge(maxSize)) || r == Some(NotAnImage)
  {
    if maxSize != 0 && file.size > maxSize * Megabyte then Some(TooLarge(maxSize))
    else if accept == "image/*" && !("image/" <= file.mimeType) then Some(NotAnImage)
    else None
  }

  function ErrorText(e: UploadError): string {
    match e
    case TooLarge(maxSize) => "File size must be less than " + IntToString(maxSize) + "MB"
    case NotAnImage => "Only image files are allowed"
  }

  /** A file is refused for its size exactly when a limit is set and the file
      is larger than that many megabytes; a file of exactly the limit passes. */
  lemma SizeRule(file: File, accept: string, maxSize: int)
    ensures ValidateFile(file, accept, maxSize) == Some(TooLarge(maxSize))
      <==> maxSize != 0 && file.size > maxSize * Megabyte
    ensures maxSize == 0 ==> ValidateFile(file, accept, maxSize) != Some(TooLarge(maxSize))
    ensures maxSize > 0 && file.size == maxSize * Megabyte ==> ValidateFile(file, accept, maxSize) != Some(TooLarge(maxSize))
  {
  }

  /** The type is checked only for an images-only picker and only after the
      size passed: an oversized file of the wrong type gets the size error. */
  lemma TypeRule(file: File, accept: string, maxSize: int)
    ensures ValidateFile(file, accept, maxSize) == Some(NotAnImage)
      <==> !(maxSize != 0 && file.size > maxSize * Megabyte) && accept == "image/*" && !("image/" <= file.mimeType)
    ensures accept != "image/*" ==> ValidateFile(file, accept, maxSize) != Some(NotAnImage)
  {
  }

  /** A 5 MB PNG passes the default picker, a PDF does not, and one byte over
      5 MB is refused for its size whatever its type. */
  lemma DefaultPickerExamples()
    ensures ValidateFile(File("a.png", 5 * Megabyte, "image/png"), DefaultAccept, DefaultMaxSize).None?
    ensures ValidateFile(File("a.pdf", 1000, "application/pdf"), DefaultAccept, DefaultMaxSize) == Some(NotAnImage)
    ensures ValidateFile(File("a.pdf", 5 * Megabyte + 1, "application/pdf"), DefaultAccept, DefaultMaxSize) == Some(TooLarge(5))
  {
    assert "image/" <= "image/png";
    assert !("image/" <= "application/pdf") by {
      assert "application/pdf"[0] == 'a';
    }
  }

  /** What the picker reports to its owner. */
  datatype Event = FileSelected(file: File) | FileRemoved

  /** The picker's error message and the calls it made to its owner. */
  class Picker {
    const accept: string
    const maxSize: int
    const hasRemoveHandler: bool
    var error: Option<UploadError>
    var events: seq<Event>

    constructor (accept: string, maxSize: int, hasRemoveHandler: bool)
      ensures this.accept == accept && this.maxSize == maxSize
      ensures this.hasRemoveHandler == hasRemoveHandler
      ensures error == None && events == []
    {
      this.accept := accept;
      this.maxSize := maxSize;
      this.hasRemoveHandler := hasRemoveHandler;
      error := None;
      events := [];
    }

    /** A refused file sets the error and is not reported; an accepted one
        clears the error and is handed to the owner. */
    method HandleFileSelect(file: File)
      modifies this
      ensures error == ValidateFile(file, accept, maxSize)
      ensures error.Some? ==> events == old(events)
      ensures error.None? ==> events == old(events) + [FileSelected(file)]
    {
      var validationError := ValidateFile(file, accept, maxSize);
      if validationError.Some? {
        error := validationError;
        return;
      }
      error := None;
      events := events + [FileSelected(file)];
    }

    /** A drop: only the first of the dropped files is looked at; an empty drop changes nothing. */
    method HandleDrop(files: seq<File>)
      modifies this
      ensures files == [] ==> error == old(error) && events == old(events)
      ensures files != [] ==> error == ValidateFile(files[0], accept, maxSize)
      ensures files != [] && error.Some? ==> events == old(events)
      ensures files != [] && error.None? ==> events == old(events) + [FileSelected(files[0])]
    {
      if |files| > 0 {
        HandleFileSelect(files[0]);
      }
    }

    /** The file input's change: a missing file list counts as empty; only the first file is looked at. */
    method HandleInputChange(files: Option<seq<File>>)
      modifies this
      ensures var fs := files.GetOr([]);
        && (fs == [] ==> error == old(error) && events == old(events))
        && (fs != [] ==> error == ValidateFile(fs[0], accept, maxSize))
        && (fs != [] && error.Some? ==> events == old(events))
        && (fs != [] && error.None? ==> events == old(events) + [FileSelected(fs[0])])
    {
      var fs := files.GetOr([]);
      if |fs| > 0 {
        HandleFileSelect(fs[0]);
      }
    }

    /** Removing the file clears the error and tells the owner when it listens. */
    method HandleRemoveFile()
      modifies this
      ensures error == None
      ensures events == old(events) + (if hasRemoveHandler then [FileRemoved] else [])
    {
      error := None;
      if hasRemoveHandler {
        events := events + [FileRemoved];
      }
    }
  }
}
