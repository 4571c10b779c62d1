/** `FileUploadConfig` and `FileUploadHandler` (index.php:5-67): the upload
    decision pipeline as a pure function of the configuration, the request
    and the result of the one file move it may ask for. */
module Upload {

  import opened Bytes
  import opened Options
  import opened Trimming
  import opened SafeTitle
  import opened PathInfo
  import opened Messages

  /** PHP's `UPLOAD_ERR_OK`: the platform received the file without error. */
  const UploadErrOk := 0

  /** Longest caption accepted, in bytes, after trimming. */
  const MaxTitleLength := 20

  /** The three tunables of the handler. `allowedTypes` is a PHP list, so a
      sequence here. */
  datatype Config = Config(uploadDir: Bytes, maxFileSize: int, allowedTypes: seq<Bytes>)

  /** The defaults `new FileUploadConfig()` gets (index.php:7-9). */
  const DefaultConfig := Config("uploads/", 30000000, ["image/jpeg", "image/png", "image/gif"])

  /** The platform's record of the `image` form field: the client's file
      name, the declared MIME type, the size, the temporary file holding the
      bytes and the transfer status. */
  datatype FileInfo = FileInfo(name: Bytes, fileType: Bytes, size: int, tmpName: Bytes, error: int)

  /** What the handler reads from the request: the method, the `title` form
      field and the `image` file record, each possibly missing. */
  datatype Request = Request(isPost: bool, title: Option<Bytes>, image: Option<FileInfo>)

  /** One call of `move_uploaded_file(source, destination)`. */
  datatype Move = Move(source: Bytes, destination: Bytes)

  /** The observable effect of one request: the error paragraphs echoed, in
      order, and the file move attempted, if any. */
  datatype Outcome = Outcome(messages: seq<Message>, move: Option<Move>)

  const Nothing := Outcome([], None)

  /** PHP `empty()` on a string field: missing, `""` or `"0"`. */
  predicate IsEmptyField(field: Option<Bytes>) {
    field.None? || field.value == "" || field.value == "0"
  }

  /** The entry guard: only a POST with a non-empty title is handled. */
  predicate IsHandled(req: Request) {
    req.isPost && !IsEmptyField(req.title)
  }

  /** `isValidUpload`: a file record is present and arrived intact. */
  predicate IsValidUpload(image: Option<FileInfo>) {
    image.Some? && image.value.error == UploadErrOk
  }

  /** `isValidTitle`: the (trimmed) caption fits in 20 bytes. */
  predicate IsValidTitle(title: Bytes) {
    |title| <= MaxTitleLength
  }

  /** The declared type is exactly one of the allowed strings. */
  predicate IsAllowedType(config: Config, fileType: Bytes) {
    fileType in config.allowedTypes
  }

  /** The size ceiling is inclusive. */
  predicate IsWithinSizeLimit(config: Config, size: int) {
    size <= config.maxFileSize
  }

  /** Where an accepted file is stored: the upload directory, the caption with
      every unsafe byte removed, a dot, and the client name's extension. */
  function Destination(config: Config, title: Bytes, name: Bytes): Bytes {
    config.uploadDir + Sanitize(title) + [Dot] + Extension(name)
  }

  /** The stored name under the upload directory splits back into the safe
      caption and the client's extension, which is what lets the gallery show
      it as a caption. */
  lemma DestinationSplits(config: Config, title: Bytes, name: Bytes)
    ensures var path := Destination(config, title, name);
            && |config.uploadDir| < |path|
            && path[..|config.uploadDir|] == config.uploadDir
            && Stem(path[|config.uploadDir|..]) == Sanitize(title)
            && Extension(path[|config.uploadDir|..]) == Extension(name)
  {
    var stored := Sanitize(title) + [Dot] + Extension(name);
    ExtensionSpec(name);
    SplitJoin(Sanitize(title), Extension(name));
    assert Destination(config, title, name) == config.uploadDir + stored;
    assert (config.uploadDir + stored)[|config.uploadDir|..] == stored;
  }

  /** `processFile`, run once both first-stage checks passed: the type check,
      then the size check, each ending the request with its own message;
      otherwise one move to the derived destination, whose failure is the
      only message left to report. */
  function ProcessFile(config: Config, file: FileInfo, title: Bytes, moveSucceeds: bool): (o: Outcome)
    ensures |o.messages| <= 1
    ensures o.move.None? <==> !IsAllowedType(config, file.fileType) || !IsWithinSizeLimit(config, file.size)
    ensures o.move.Some? ==> o.move.value == Move(file.tmpName, Destination(config, title, file.name))
    ensures o.move.None? ==> o.messages != [] && MoveFailed !in o.messages
    ensures o.move.Some? ==> (o.messages == [] <==> moveSucceeds)
  {
    if !IsAllowedType(config, file.fileType) then
      Outcome([DisallowedType], None)
    else if !IsWithinSizeLimit(config, file.size) then
      Outcome([TooLarge(config.maxFileSize)], None)
    else
      var path := Destination(config, title, file.name);
      Outcome(if moveSucceeds then [] else [MoveFailed], Some(Move(file.tmpName, path)))
  }

  /** `handleUpload`. An unhandled request has no effect. Otherwise the
      caption is trimmed and the upload and caption checks both run; if
      either fails, its message (upload first) is all that happens, and if
      both pass the file is processed. `moveSucceeds` is what the file
      system's move would report. */
  function HandleUpload(config: Config, req: Request, moveSucceeds: bool): (o: Outcome)
    ensures !IsHandled(req) ==> o == Nothing
    ensures |o.messages| <= 2
    ensures o.move.Some? ==> req.image.Some? && o.move.value.source == req.image.value.tmpName
    ensures o.move.Some? ==> IsValidUpload(req.image) && IsValidTitle(Trim(req.title.value))
  {
    if !IsHandled(req) then
      Nothing
    else
      var title := Trim(req.title.value);
      if IsValidUpload(req.image) && IsValidTitle(title) then
        ProcessFile(config, req.image.value, title, moveSucceeds)
      else
        Outcome((if !IsValidUpload(req.image) then [InvalidUpload] else [])
                + (if !IsValidTitle(title) then [TitleTooLong] else []),
                None)
  }
}
