/** What the upload pipeline promises, stated against an independent
    description of its checks: the set of checks a request fails, each judged
    on its own, and the staged policy that decides which of them are
    reported. */
module UploadProperties {

  import opened Bytes
  import opened Options
  import opened Trimming
  import opened SafeTitle
  import opened PathInfo
  import opened Messages
  import opened Upload

  /** The four validation checks. */
  datatype Check = UploadCheck | TitleCheck | TypeCheck | SizeCheck

  /** The caption the checks see. */
  function TrimmedTitle(req: Request): Bytes
    requires IsHandled(req)
  {
    Trim(req.title.value)
  }

  /** Every check a handled request fails, each judged independently of the
      others. Type and size are properties of a file record, so they can only
      fail when one is present. */
  function FailedChecks(config: Config, req: Request): set<Check>
    requires IsHandled(req)
  {
    var image := req.image;
    (if !IsValidUpload(image) then {UploadCheck} else {})
    + (if !IsValidTitle(TrimmedTitle(req)) then {TitleCheck} else {})
    + (if image.Some? && !IsAllowedType(config, image.value.fileType) then {TypeCheck} else {})
    + (if image.Some? && !IsWithinSizeLimit(config, image.value.size) then {SizeCheck} else {})
  }

  /** The message each check produces when it fails and is reported. */
  function Reason(config: Config, c: Check): Message {
    match c
    case UploadCheck => InvalidUpload
    case TitleCheck => TitleTooLong
    case TypeCheck => DisallowedType
    case SizeCheck => TooLarge(config.maxFileSize)
  }

  /** The staged reporting policy: the upload and caption checks form the
      first stage and are both reported, upload first; only when both pass
      is the type reported, and only when the type passes is the size. */
  function Reported(config: Config, failed: set<Check>): seq<Message> {
    if UploadCheck in failed || TitleCheck in failed then
      (if UploadCheck in failed then [InvalidUpload] else [])
      + (if TitleCheck in failed then [TitleTooLong] else [])
    else if TypeCheck in failed then [DisallowedType]
    else if SizeCheck in failed then [TooLarge(config.maxFileSize)]
    else []
  }

  /** The handler follows the policy: a request failing any check moves
      nothing and echoes exactly the reported reasons; a request passing all
      four moves its temporary file to the derived destination and reports
      only a failed move. */
  lemma HandleUploadFollowsPolicy(config: Config, req: Request, moveSucceeds: bool)
    requires IsHandled(req)
    ensures var o := HandleUpload(config, req, moveSucceeds);
            var failed := FailedChecks(config, req);
            && (failed != {} ==> o == Outcome(Reported(config, failed), None))
            && (failed == {} ==> o == Outcome(if moveSucceeds then [] else [MoveFailed],
                                              Some(Move(req.image.value.tmpName,
                                                        Destination(config, TrimmedTitle(req), req.image.value.name)))))
  {
    var failed := FailedChecks(config, req);
    if IsValidUpload(req.image) && IsValidTitle(TrimmedTitle(req)) {
      assert UploadCheck !in failed && TitleCheck !in failed;
      assert HandleUpload(config, req, moveSucceeds)
             == ProcessFile(config, req.image.value, TrimmedTitle(req), moveSucceeds);
      if !IsAllowedType(config, req.image.value.fileType) {
        assert TypeCheck in failed;
      } else if !IsWithinSizeLimit(config, req.image.value.size) {
        assert TypeCheck !in failed && SizeCheck in failed;
      } else {
        assert failed == {};
      }
    } else {
      assert UploadCheck in failed || TitleCheck in failed;
    }
  }

  /** A file is moved exactly when the request is handled and passes all
      four checks. */
  lemma MoveIffAllChecksPass(config: Config, req: Request, moveSucceeds: bool)
    ensures HandleUpload(config, req, moveSucceeds).move.Some?
            <==> IsHandled(req) && FailedChecks(config, req) == {}
  {
    if IsHandled(req) {
      HandleUploadFollowsPolicy(config, req, moveSucceeds);
    }
  }

  /** The policy reports something for every non-empty set of failures, and
      reports only reasons of checks in the set. */
  lemma ReportedIsSound(config: Config, failed: set<Check>)
    ensures failed != {} ==> Reported(config, failed) != []
    ensures forall m :: m in Reported(config, failed) ==> exists c :: c in failed && Reason(config, c) == m
  {
    var r := Reported(config, failed);
    if failed != {} {
      var c :| c in failed;
      match c
      case UploadCheck =>
      case TitleCheck =>
      case TypeCheck =>
      case SizeCheck =>
    }
    forall m | m in r
      ensures exists c :: c in failed && Reason(config, c) == m
    {
      if UploadCheck in failed && m == InvalidUpload {
        assert Reason(config, UploadCheck) == m;
      } else if TitleCheck in failed && m == TitleTooLong {
        assert Reason(config, TitleCheck) == m;
      } else if TypeCheck in failed && m == DisallowedType {
        assert Reason(config, TypeCheck) == m;
      } else {
        assert Reason(config, SizeCheck) == m;
      }
    }
  }

  /** No rejection is silent, and no reason is invented: a handled request
      that fails some check echoes at least one message, and every message it
      echoes is the reason of a check it failed. */
  lemma RejectionsAreReportedTruthfully(config: Config, req: Request, moveSucceeds: bool)
    requires IsHandled(req) && FailedChecks(config, req) != {}
    ensures var o := HandleUpload(config, req, moveSucceeds);
            && o.messages != []
            && o.move.None?
            && forall m :: m in o.messages ==> exists c :: c in FailedChecks(config, req) && Reason(config, c) == m
  {
    HandleUploadFollowsPolicy(config, req, moveSucceeds);
    ReportedIsSound(config, FailedChecks(config, req));
  }

  /** A handled request always has a visible effect: a message or a move. */
  lemma HandledRequestHasEffect(config: Config, req: Request, moveSucceeds: bool)
    requires IsHandled(req)
    ensures var o := HandleUpload(config, req, moveSucceeds);
            o.messages != [] || o.move.Some?
  {
    HandleUploadFollowsPolicy(config, req, moveSucceeds);
  }

  /** The upload error is echoed exactly when the file record is missing or
      its transfer status is not `UPLOAD_ERR_OK`. */
  lemma UploadErrorIff(config: Config, req: Request, moveSucceeds: bool)
    requires IsHandled(req)
    ensures InvalidUpload in HandleUpload(config, req, moveSucceeds).messages
            <==> req.image.None? || req.image.value.error != UploadErrOk
  {
    var title := Trim(req.title.value);
    if IsValidUpload(req.image) && IsValidTitle(title) {
      var o := ProcessFile(config, req.image.value, title, moveSucceeds);
      assert HandleUpload(config, req, moveSucceeds) == o;
      assert forall m :: m in o.messages ==> m == DisallowedType || m == TooLarge(config.maxFileSize) || m == MoveFailed;
    } else {
      FirstStageFailure(config, req, moveSucceeds);
    }
  }

  /** The caption error is echoed exactly when the trimmed caption is longer
      than 20 bytes. */
  lemma TitleErrorIff(config: Config, req: Request, moveSucceeds: bool)
    requires IsHandled(req)
    ensures TitleTooLong in HandleUpload(config, req, moveSucceeds).messages
            <==> |Trim(req.title.value)| > MaxTitleLength
  {
    var title := Trim(req.title.value);
    if IsValidUpload(req.image) && IsValidTitle(title) {
      var o := ProcessFile(config, req.image.value, title, moveSucceeds);
      assert HandleUpload(config, req, moveSucceeds) == o;
      assert forall m :: m in o.messages ==> m == DisallowedType || m == TooLarge(config.maxFileSize) || m == MoveFailed;
    } else {
      FirstStageFailure(config, req, moveSucceeds);
    }
  }

  /** A first-stage failure reports the failing first-stage checks, upload
      before caption, and nothing else happens: no type or size message and
      no move. */
  lemma FirstStageFailure(config: Config, req: Request, moveSucceeds: bool)
    requires IsHandled(req)
    requires !IsValidUpload(req.image) || |Trim(req.title.value)| > MaxTitleLength
    ensures var o := HandleUpload(config, req, moveSucceeds);
            && o.move.None?
            && o.messages == (if !IsValidUpload(req.image) then [InvalidUpload] else [])
                             + (if |Trim(req.title.value)| > MaxTitleLength then [TitleTooLong] else [])
            && forall m :: m in o.messages ==> m == InvalidUpload || m == TitleTooLong
  {
    var title := Trim(req.title.value);
    var messages := (if !IsValidUpload(req.image) then [InvalidUpload] else [])
                    + (if !IsValidTitle(title) then [TitleTooLong] else []);
    assert HandleUpload(config, req, moveSucceeds) == Outcome(messages, None);
  }

  /** With both first-stage checks passed, a disallowed type is the only
      message, and the size is not looked at. */
  lemma TypeRejectionStopsSizeCheck(config: Config, req: Request, moveSucceeds: bool)
    requires IsHandled(req) && IsValidUpload(req.image) && IsValidTitle(Trim(req.title.value))
    requires req.image.value.fileType !in config.allowedTypes
    ensures HandleUpload(config, req, moveSucceeds) == Outcome([DisallowedType], None)
  {
    var title := Trim(req.title.value);
    assert HandleUpload(config, req, moveSucceeds) == ProcessFile(config, req.image.value, title, moveSucceeds);
  }

  /** With the type allowed, the ceiling is inclusive: one byte over it is
      the only message, and exactly at it the file is moved. */
  lemma SizeCeilingInclusive(config: Config, req: Request, moveSucceeds: bool)
    requires IsHandled(req) && IsValidUpload(req.image) && IsValidTitle(Trim(req.title.value))
    requires req.image.value.fileType in config.allowedTypes
    ensures req.image.value.size > config.maxFileSize
            ==> HandleUpload(config, req, moveSucceeds) == Outcome([TooLarge(config.maxFileSize)], None)
    ensures req.image.value.size == config.maxFileSize
            ==> HandleUpload(config, req, moveSucceeds).move.Some?
  {
    var title := Trim(req.title.value);
    assert HandleUpload(config, req, moveSucceeds) == ProcessFile(config, req.image.value, title, moveSucceeds);
  }

  /** Two uploads land on the same path exactly when their sanitised
      captions and their extensions agree: distinct captions that sanitise
      alike collide, and the later move replaces the earlier file. */
  lemma DestinationCollidesIff(config: Config, t1: Bytes, n1: Bytes, t2: Bytes, n2: Bytes)
    ensures Destination(config, t1, n1) == Destination(config, t2, n2)
            <==> Sanitize(t1) == Sanitize(t2) && Extension(n1) == Extension(n2)
  {
    var p1, p2 := Destination(config, t1, n1), Destination(config, t2, n2);
    var d := |config.uploadDir|;
    DestinationSplits(config, t1, n1);
    DestinationSplits(config, t2, n2);
    if p1 == p2 {
      assert p1[d..] == p2[d..];
    }
  }

  /** The stored name is the safe caption, one dot, and a dot-free extension;
      a client name without a dot leaves the stored name ending in the dot. */
  lemma StoredNameShape(config: Config, title: Bytes, name: Bytes)
    ensures var stored := Destination(config, title, name)[|config.uploadDir|..];
            && AllSafe(Stem(stored))
            && NoDot(Extension(stored))
            && !NoDot(stored)
            && stored == Stem(stored) + [Dot] + Extension(stored)
            && (NoDot(name) ==> stored[|stored| - 1] == Dot)
  {
    var safe, ext := Sanitize(title), Extension(name);
    var stored := safe + [Dot] + ext;
    assert Destination(config, title, name) == config.uploadDir + stored;
    assert Destination(config, title, name)[|config.uploadDir|..] == stored;
    SanitizeSafe(title);
    ExtensionSpec(name);
    SplitJoin(safe, ext);
    assert stored[|safe|] == Dot;
    if NoDot(name) {
      assert ext == [];
    }
  }
}
