/** Concrete requests against the default configuration: worked requests,
    the boundaries of the two numeric checks, and two weaknesses of the
    naming scheme (an unchecked extension, a blank caption). An accepted
    request is stated in two parts, that the handler moves the temporary
    file and where `Destination` puts it; `PhotoStored`,
    `PhpNamedJpegStored` and `BlankCaptionStored` join the two. */
module UploadScenarios {

  import opened Bytes
  import opened Options
  import opened Trimming
  import opened SafeTitle
  import opened PathInfo
  import opened Messages
  import opened Upload
  import opened UploadProperties

  const Tmp: Bytes := "/tmp/phpA1b2C3"

  function Jpeg(name: Bytes, size: int): FileInfo {
    FileInfo(name, "image/jpeg", size, Tmp, UploadErrOk)
  }

  function Post(title: Bytes, file: FileInfo): Request {
    Request(true, Some(title), Some(file))
  }

  /** A handled request whose file record arrived intact, with a short
      caption and an allowed type within the ceiling, is moved. */
  lemma Accepted(req: Request, moveSucceeds: bool)
    requires IsHandled(req) && IsValidUpload(req.image) && IsValidTitle(Trim(req.title.value))
    requires IsAllowedType(DefaultConfig, req.image.value.fileType)
    requires IsWithinSizeLimit(DefaultConfig, req.image.value.size)
    ensures HandleUpload(DefaultConfig, req, moveSucceeds).move.Some?
  {
    assert FailedChecks(DefaultConfig, req) == {};
    MoveIffAllChecksPass(DefaultConfig, req, moveSucceeds);
  }

  lemma JpegAllowed()
    ensures IsAllowedType(DefaultConfig, "image/jpeg")
  {
    assert DefaultConfig.allowedTypes[0] == "image/jpeg";
  }

  lemma PdfNotAllowed()
    ensures !IsAllowedType(DefaultConfig, "application/pdf")
  {
    assert |"application/pdf"| == 15;
    assert forall a :: a in DefaultConfig.allowedTypes ==> |a| < 15;
  }

  /** The default allow-list accepts exactly its three image types. */
  lemma DefaultAllowList(t: Bytes)
    ensures IsAllowedType(DefaultConfig, t)
            <==> t == "image/jpeg" || t == "image/png" || t == "image/gif"
  {
  }

  /** The destination of a client name `stem.ext` whose extension has no
      dot. */
  lemma DestinationOf(config: Config, title: Bytes, stem: Bytes, ext: Bytes)
    requires NoDot(ext)
    ensures Destination(config, title, stem + "." + ext) == config.uploadDir + Sanitize(title) + "." + ext
  {
    SplitJoin(stem, ext);
    assert stem + "." + ext == stem + [Dot] + ext;
  }

  /** The caption "My Photo!!", written as its runs of safe and unsafe
      bytes so that the filter can be applied run by run. */
  const Photo: Bytes := "My" + " " + "Photo" + "!!"

  /** "MyPhoto": the safe runs of `Photo`. */
  const PhotoLetters: Bytes := "My" + "Photo"

  /** The client name "pic.JPG", written as stem, dot and extension, the
      shape `DestinationOf` takes. */
  const PicJpg: Bytes := "pic" + "." + "JPG"

  /** The client name "shell.php", written the same way. */
  const ShellPhp: Bytes := "shell" + "." + "php"

  /** "My Photo!!" keeps only its letters. */
  lemma PhotoSanitised()
    ensures Sanitize(Photo) == PhotoLetters
  {
    SanitizeConcat("My" + " " + "Photo", "!!");
    SanitizeNoSafe("!!");
    PhotoHeadSanitised();
  }

  lemma PhotoHeadSanitised()
    ensures Sanitize("My" + " " + "Photo") == PhotoLetters
  {
    assert Sanitize("My" + " ") == "My" by {
      SanitizeConcat("My", " ");
      assert Sanitize("My") == "My" by { SanitizeFixedPoint("My"); }
      assert Sanitize(" ") == [] by { SanitizeNoSafe(" "); }
    }
    assert Sanitize("Photo") == "Photo" by { SanitizeFixedPoint("Photo"); }
    SanitizeConcat("My" + " ", "Photo");
  }

  lemma PhotoTrimmed()
    ensures Trim(Photo) == Photo
  {
    assert Photo[0] == 'M' && Photo[|Photo| - 1] == '!';
    TrimFixedPoint(Photo);
  }

  /** A caption with a space and punctuation passes every check... */
  lemma PhotoAccepted(moveSucceeds: bool)
    ensures var o := HandleUpload(DefaultConfig, Post(Photo, Jpeg(PicJpg, 1000)), moveSucceeds);
            o.move.Some? && o.move.value.source == Tmp
  {
    var req := Post(Photo, Jpeg(PicJpg, 1000));
    assert IsHandled(req) && IsValidUpload(req.image);
    assert IsValidTitle(Trim(req.title.value)) by { PhotoTrimmed(); }
    assert IsAllowedType(DefaultConfig, req.image.value.fileType) by { JpegAllowed(); }
    Accepted(req, moveSucceeds);
  }

  /** ...and is stored under its letters, keeping the client's extension as
      written. */
  lemma PhotoDestination()
    ensures Destination(DefaultConfig, Photo, PicJpg) == "uploads/" + PhotoLetters + "." + "JPG"
  {
    DestinationOf(DefaultConfig, Photo, "pic", "JPG");
    PhotoSanitised();
  }

  /** End to end: the handler moves the temporary file of that upload to
      "uploads/MyPhoto.JPG". */
  lemma PhotoStored(moveSucceeds: bool)
    ensures HandleUpload(DefaultConfig, Post(Photo, Jpeg(PicJpg, 1000)), moveSucceeds).move
            == Some(Move(Tmp, "uploads/" + PhotoLetters + "." + "JPG"))
  {
    var req := Post(Photo, Jpeg(PicJpg, 1000));
    PhotoAccepted(moveSucceeds);
    PhotoTrimmed();
    PhotoDestination();
    MoveIffAllChecksPass(DefaultConfig, req, moveSucceeds);
    HandleUploadFollowsPolicy(DefaultConfig, req, moveSucceeds);
  }

  /** A 40-byte caption, "a-very-very-long-caption-exceeding-limit", written
      in two halves. */
  const LongCaption: Bytes := "a-very-very-long-" + "caption-exceeding-limit"

  lemma LongCaptionLength()
    ensures |Trim(LongCaption)| == 40
  {
    assert LongCaption[0] == 'a' && LongCaption[39] == 't';
    TrimFixedPoint(LongCaption);
  }

  /** A long caption is refused whatever the file. */
  lemma LongCaptionRefused(file: FileInfo, moveSucceeds: bool)
    ensures var o := HandleUpload(DefaultConfig, Post(LongCaption, file), moveSucceeds);
            && o.move.None?
            && o.messages == (if file.error == UploadErrOk then [] else [InvalidUpload]) + [TitleTooLong]
  {
    LongCaptionLength();
    FirstStageFailure(DefaultConfig, Post(LongCaption, file), moveSucceeds);
  }

  /** A PDF with a valid caption is refused for its type alone. */
  lemma PdfRefused(name: Bytes, moveSucceeds: bool)
    ensures HandleUpload(DefaultConfig, Post("ok", FileInfo(name, "application/pdf", 1000, Tmp, UploadErrOk)), moveSucceeds)
            == Outcome([DisallowedType], None)
  {
    var req := Post("ok", FileInfo(name, "application/pdf", 1000, Tmp, UploadErrOk));
    assert IsHandled(req) && IsValidUpload(req.image);
    assert IsValidTitle(Trim(req.title.value));
    assert req.image.value.fileType !in DefaultConfig.allowedTypes by { PdfNotAllowed(); }
    TypeRejectionStopsSizeCheck(DefaultConfig, req, moveSucceeds);
  }

  /** A request without a file record is refused as an invalid upload. */
  lemma MissingFileRefused(moveSucceeds: bool)
    ensures HandleUpload(DefaultConfig, Request(true, Some("ok"), None), moveSucceeds)
            == Outcome([InvalidUpload], None)
  {
    FirstStageFailure(DefaultConfig, Request(true, Some("ok"), None), moveSucceeds);
  }

  /** One byte over the ceiling is refused, quoting the ceiling. */
  lemma OneByteOverRefused(name: Bytes, moveSucceeds: bool)
    ensures HandleUpload(DefaultConfig, Post("ok", Jpeg(name, 30000001)), moveSucceeds)
            == Outcome([TooLarge(30000000)], None)
  {
    var req := Post("ok", Jpeg(name, 30000001));
    assert IsHandled(req) && IsValidUpload(req.image);
    assert IsValidTitle(Trim(req.title.value));
    assert req.image.value.fileType in DefaultConfig.allowedTypes by { JpegAllowed(); }
    SizeCeilingInclusive(DefaultConfig, req, moveSucceeds);
  }

  /** Exactly the ceiling is accepted. */
  lemma AtCeilingAccepted(name: Bytes, moveSucceeds: bool)
    ensures HandleUpload(DefaultConfig, Post("ok", Jpeg(name, 30000000)), moveSucceeds).move.Some?
  {
    var req := Post("ok", Jpeg(name, 30000000));
    assert IsHandled(req) && IsValidUpload(req.image);
    assert IsValidTitle(Trim(req.title.value));
    assert req.image.value.fileType in DefaultConfig.allowedTypes by { JpegAllowed(); }
    SizeCeilingInclusive(DefaultConfig, req, moveSucceeds);
  }

  /** A GET request, a missing caption and the caption "0" (empty to PHP)
      are all ignored. */
  lemma IgnoredRequests(file: FileInfo, moveSucceeds: bool)
    ensures HandleUpload(DefaultConfig, Request(false, Some("ok"), Some(file)), moveSucceeds) == Nothing
    ensures HandleUpload(DefaultConfig, Request(true, None, Some(file)), moveSucceeds) == Nothing
    ensures HandleUpload(DefaultConfig, Post("", file), moveSucceeds) == Nothing
    ensures HandleUpload(DefaultConfig, Post("0", file), moveSucceeds) == Nothing
  {
  }

  /** Not every failing reason is reported: a broken transfer hides the type
      error... */
  lemma TransferErrorHidesType(moveSucceeds: bool)
    ensures HandleUpload(DefaultConfig, Post("ok", FileInfo("a.pdf", "application/pdf", 1000, Tmp, 1)), moveSucceeds)
            == Outcome([InvalidUpload], None)
  {
    FirstStageFailure(DefaultConfig, Post("ok", FileInfo("a.pdf", "application/pdf", 1000, Tmp, 1)), moveSucceeds);
  }

  /** ...and a disallowed type hides the size error. */
  lemma TypeHidesSize(name: Bytes, moveSucceeds: bool)
    ensures HandleUpload(DefaultConfig, Post("ok", FileInfo(name, "application/pdf", 30000001, Tmp, UploadErrOk)), moveSucceeds)
            == Outcome([DisallowedType], None)
  {
    var req := Post("ok", FileInfo(name, "application/pdf", 30000001, Tmp, UploadErrOk));
    assert IsHandled(req) && IsValidUpload(req.image);
    assert IsValidTitle(Trim(req.title.value));
    assert req.image.value.fileType !in DefaultConfig.allowedTypes by { PdfNotAllowed(); }
    TypeRejectionStopsSizeCheck(DefaultConfig, req, moveSucceeds);
  }

  /** Captions that differ only in unsafe bytes share one destination, so
      the second upload overwrites the first. */
  lemma CaptionsCollide(n1: Bytes, n2: Bytes)
    requires Extension(n1) == Extension(n2)
    ensures Destination(DefaultConfig, Photo, n1) == Destination(DefaultConfig, PhotoLetters, n2)
  {
    PhotoSanitised();
    SanitizeFixedPoint(PhotoLetters);
  }

  /** The extension is not checked against the declared type: a file declared
      as JPEG is accepted... */
  lemma PhpNamedJpegAccepted(moveSucceeds: bool)
    ensures HandleUpload(DefaultConfig, Post("x", Jpeg(ShellPhp, 10)), moveSucceeds).move.Some?
  {
    var req := Post("x", Jpeg(ShellPhp, 10));
    assert IsHandled(req) && IsValidUpload(req.image);
    assert IsValidTitle(Trim(req.title.value));
    assert IsAllowedType(DefaultConfig, req.image.value.fileType) by { JpegAllowed(); }
    Accepted(req, moveSucceeds);
  }

  /** ...and stored with its `.php` name. */
  lemma PhpNamedJpegDestination()
    ensures Destination(DefaultConfig, "x", ShellPhp) == "uploads/" + "x" + "." + "php"
  {
    DestinationOf(DefaultConfig, "x", "shell", "php");
    SanitizeFixedPoint("x");
  }

  /** End to end, the handler moves that file to a `.php` path. */
  lemma PhpNamedJpegStored(moveSucceeds: bool)
    ensures HandleUpload(DefaultConfig, Post("x", Jpeg(ShellPhp, 10)), moveSucceeds).move
            == Some(Move(Tmp, "uploads/" + "x" + "." + "php"))
  {
    var req := Post("x", Jpeg(ShellPhp, 10));
    PhpNamedJpegAccepted(moveSucceeds);
    assert TrimmedTitle(req) == "x";
    PhpNamedJpegDestination();
    MoveIffAllChecksPass(DefaultConfig, req, moveSucceeds);
    HandleUploadFollowsPolicy(DefaultConfig, req, moveSucceeds);
  }

  const Blank: Bytes := "   "

  lemma BlankTrimmed()
    ensures Trim(Blank) == []
  {
    TrimUnique(Blank, [], 0);
  }

  /** A caption of spaces passes the guard and trims to nothing... */
  lemma BlankCaptionAccepted(name: Bytes, moveSucceeds: bool)
    ensures !IsEmptyField(Some(Blank)) && Trim(Blank) == []
    ensures HandleUpload(DefaultConfig, Post(Blank, Jpeg(name, 10)), moveSucceeds).move.Some?
  {
    BlankTrimmed();
    var req := Post(Blank, Jpeg(name, 10));
    assert IsHandled(req) && IsValidUpload(req.image) by { assert |Blank| == 3; }
    assert IsValidTitle(Trim(req.title.value));
    assert IsAllowedType(DefaultConfig, req.image.value.fileType) by { JpegAllowed(); }
    Accepted(req, moveSucceeds);
  }

  /** ...so the file is stored under a bare dot name. */
  lemma BlankCaptionDestination()
    ensures Destination(DefaultConfig, Trim(Blank), "a" + "." + "gif") == "uploads/" + "." + "gif"
  {
    assert Sanitize(Trim(Blank)) == [] by { BlankTrimmed(); }
    DestinationOf(DefaultConfig, Trim(Blank), "a", "gif");
  }

  /** End to end, the handler moves a blank-captioned `a.gif` to `uploads/.gif`. */
  lemma BlankCaptionStored(moveSucceeds: bool)
    ensures HandleUpload(DefaultConfig, Post(Blank, Jpeg("a" + "." + "gif", 10)), moveSucceeds).move
            == Some(Move(Tmp, "uploads/" + "." + "gif"))
  {
    var req := Post(Blank, Jpeg("a" + "." + "gif", 10));
    BlankCaptionAccepted("a" + "." + "gif", moveSucceeds);
    BlankCaptionDestination();
    MoveIffAllChecksPass(DefaultConfig, req, moveSucceeds);
    HandleUploadFollowsPolicy(DefaultConfig, req, moveSucceeds);
  }
}
