# Upload decision pipeline of the image gallery

This project models how the gallery's `FileUploadHandler` decides what to do
with one form submission. The submission has a caption (`title`) and an image
file (`image`). The handler's configuration is `FileUploadConfig`: the upload
directory `uploads/`, a size ceiling of 30000000 bytes, and the allowed MIME
types `image/jpeg`, `image/png` and `image/gif`.

The handler runs in this order:

1. It ignores anything but a POST whose caption is non-empty in PHP's
   `empty()` sense.
2. It trims the caption.
3. It runs two first-stage checks: the file record is present and arrived
   with `UPLOAD_ERR_OK`, and the trimmed caption is at most 20 bytes.
4. Only when both pass does it check the declared type against the
   allow-list, and then the size against the inclusive ceiling.
5. Finally it moves the temporary file to
   `uploadDir . safeTitle . '.' . extension`.

The whole pipeline is one pure function, `Upload.HandleUpload`. It takes the
configuration, an explicit request record, and the boolean that
`move_uploaded_file` would return. It gives back an `Outcome`: the error
paragraphs echoed, in order, and the move attempted, if any. Since the move is
an `Option`, at most one move happens per request.

Strings are byte sequences (`Bytes.Bytes`), so `strlen` is the sequence
length. The PHP helpers the handler relies on are modelled from their
documented behaviour:

- `trim` with its default character list (`Trimming`);
- the `preg_replace` filter `[^A-Za-z0-9\-]` (`SafeTitle`);
- `pathinfo` with `PATHINFO_EXTENSION` and `PATHINFO_FILENAME` (`PathInfo`);
- the decimal text of an `int` that the size message interpolates (`Decimal`).

Each is characterised independently of how it is computed.

`UploadProperties` restates the handler's behaviour against a separate
description of it:

- `FailedChecks` is the set of checks a request fails, each judged on its own;
- `Reported` is the staged policy that decides which of those failures are
  echoed.

`UploadScenarios` works through concrete requests against the default
configuration.

The handler does not report every failing reason; it reports in stages:

- a type or size problem is never reported while the upload or caption check
  fails (`UploadScenarios.TransferErrorHidesType`);
- a size problem is never reported while the type check fails
  (`UploadScenarios.TypeHidesSize`).

## Model

| member | source | states |
|---|---|---|
| Upload.HandleUpload | index.php:16-35 | a request that is not a POST with a non-empty caption has no effect; at most two messages; a move only ever moves the request's own temporary file, and only after the upload check and the trimmed-caption check passed |
| Upload.ProcessFile | index.php:46-66 | at most one message; no move exactly when the type is not allowed or the size is over the ceiling, and then a message that is not the move failure; otherwise one move to the derived destination, silent exactly when the move succeeds |
| Upload.DestinationSplits | index.php:59-61 | the destination is the upload directory followed by a stored name whose stem is the sanitised caption and whose extension is the client name's extension |
| Bytes.IsTrimSpace | index.php:22 | no contract of its own; it is `trim`'s default list of space, tab, line feed, carriage return, NUL and vertical tab, and `Trimming.TrimStrips` and `Trimming.TrimUnique` state how `trim` uses it |
| Bytes.IsSafe | index.php:59 | no contract of its own; it is the class `A-Z`, `a-z`, `0-9` and `-` that the filter keeps, and `SafeTitle.SanitizeSafe` and `SafeTitle.SanitizeCounts` state how the filter uses it |
| Upload.DefaultConfig | index.php:5-11 | a constant without a contract; `UploadScenarios.DefaultAllowList` states that its allow-list admits exactly `image/jpeg`, `image/png` and `image/gif`, and `UploadScenarios.OneByteOverRefused` and `UploadScenarios.AtCeilingAccepted` fix its ceiling at 30000000 bytes |
| Upload.IsEmptyField | index.php:17 | no contract of its own; `UploadScenarios.IgnoredRequests` states that a missing caption, the caption `""` and the caption `0` count as empty, and `UploadScenarios.BlankCaptionAccepted` that a caption of spaces does not |
| Upload.IsHandled | index.php:17-19 | no contract of its own; `Upload.HandleUpload` states that an unhandled request has no effect, and `UploadProperties.HandledRequestHasEffect` that a handled one always has one |
| Upload.IsValidUpload | index.php:37-39 | no contract of its own; its meaning is stated by `UploadProperties.UploadErrorIff` |
| Upload.IsValidTitle | index.php:41-43 | no contract of its own; its meaning is stated by `UploadProperties.TitleErrorIff` |
| Upload.IsAllowedType | index.php:49 | no contract of its own; `UploadProperties.TypeRejectionStopsSizeCheck` states that a type outside the list stops the request with the type message, `UploadProperties.SizeCeilingInclusive` and `UploadProperties.MoveIffAllChecksPass` that an allowed type goes on to the size check and the move, and `UploadScenarios.DefaultAllowList` which types the default list admits |
| Upload.IsWithinSizeLimit | index.php:54 | no contract of its own; its meaning, an inclusive ceiling, is stated by `UploadProperties.SizeCeilingInclusive` |
| Upload.Destination | index.php:59-61 | no contract of its own; its shape is stated by `Upload.DestinationSplits` and `UploadProperties.StoredNameShape`, and when two uploads share it by `UploadProperties.DestinationCollidesIff` |
| UploadProperties.HandleUploadFollowsPolicy | index.php:24-65 | a handled request failing any check moves nothing and echoes exactly the staged report of its failures; one failing none moves its temporary file to the derived destination and echoes only a failed move |
| UploadProperties.MoveIffAllChecksPass | index.php:17-63 | a file is moved if and only if the request is handled and fails none of the four checks |
| UploadProperties.ReportedIsSound | index.php:24-57 | the staged policy reports something for every non-empty set of failures, and only reasons of checks in the set |
| UploadProperties.RejectionsAreReportedTruthfully | index.php:24-57 | a handled request failing some check echoes at least one message, moves nothing, and every message names a check it really failed |
| UploadProperties.HandledRequestHasEffect | index.php:17-65 | every handled request either echoes a message or moves a file |
| UploadProperties.UploadErrorIff | index.php:28-39 | the invalid-upload message appears if and only if the file record is missing or its status is not `UPLOAD_ERR_OK` |
| UploadProperties.TitleErrorIff | index.php:41-43 | the caption message appears if and only if the trimmed caption is longer than 20 bytes, so 20 bytes pass and 21 fail |
| UploadProperties.FirstStageFailure | index.php:24-33 | when a first-stage check fails, the messages are exactly the failing first-stage ones, upload before caption; no move happens and no type or size message appears |
| UploadProperties.TypeRejectionStopsSizeCheck | index.php:49-52 | with both first-stage checks passed, a type outside the allow-list yields only the type message and no move, whatever the size |
| UploadProperties.SizeCeilingInclusive | index.php:54-57 | with an allowed type, one byte over the ceiling yields only the size message quoting the ceiling, and a size equal to the ceiling leads to a move |
| UploadProperties.DestinationCollidesIff | index.php:59-61 | two uploads get the same path if and only if their sanitised captions and their extensions agree |
| UploadProperties.StoredNameShape | index.php:59-61 | the stored name is a safe stem, one dot and a dot-free extension, and it ends in the dot when the client name has no dot |
| Trimming.Trim | index.php:22 | neither end of the trimmed caption is a trim byte, and it is no longer than the input |
| Trimming.TrimLeft | index.php:22 | the front pass is no longer than its input and does not start with a trim byte; `Trimming.TrimLeftDrops` states what it removes |
| Trimming.TrimRight | index.php:22 | the back pass is no longer than its input and does not end with a trim byte; `Trimming.TrimRightDrops` states what it removes |
| Trimming.TrimLeftDrops | index.php:22 | the front pass keeps a suffix and drops only trim bytes |
| Trimming.TrimRightDrops | index.php:22 | the back pass keeps a prefix and drops only trim bytes |
| Trimming.TrimStrips | index.php:22 | `trim` drops only trim bytes, and only from the two ends |
| Trimming.TrimUnique | index.php:22 | any result obtained by dropping trim bytes from both ends that leaves tight ends is what `trim` returns |
| Trimming.TrimFixedPoint | index.php:22 | `trim` leaves a caption unchanged if and only if neither end is a trim byte |
| Trimming.TrimIdempotent | index.php:22 | trimming twice equals trimming once |
| SafeTitle.Sanitize | index.php:59 | the filtered caption is no longer than the input |
| SafeTitle.SanitizeSafe | index.php:59 | the filtered caption holds only bytes of `A-Z`, `a-z`, `0-9` and `-` |
| SafeTitle.SanitizeConcat | index.php:59 | the filter distributes over concatenation |
| SafeTitle.SanitizeIsSubsequence | index.php:59 | the filtered caption is an in-order subsequence of the input |
| SafeTitle.SanitizeCounts | index.php:59 | each safe byte survives exactly as often as it occurs, and unsafe bytes do not survive |
| SafeTitle.SanitizeFixedPoint | index.php:59 | the filter leaves a caption unchanged if and only if all its bytes are safe |
| SafeTitle.SanitizeNoSafe | index.php:59 | a caption without safe bytes filters to the empty string |
| SafeTitle.SanitizeIdempotent | index.php:59 | filtering twice equals filtering once |
| SafeTitle.SanitizeNoTraversal | index.php:59-61 | the filtered caption contains neither `/` nor `.` |
| PathInfo.LastDot | index.php:60 | a found position holds a dot |
| PathInfo.LastDotSpec | index.php:60 | no dot follows the found position, and nothing is found exactly when the name has no dot |
| PathInfo.Extension | index.php:60 | the extension is no longer than the name |
| PathInfo.ExtensionSpec | index.php:60 | the extension is a dot-free suffix of the name, and it is empty when the name has no dot |
| PathInfo.Stem | index.php:76 | the file name part is no longer than the name |
| PathInfo.StemSpec | index.php:76 | the file name part is a prefix of the name, and it is the whole name when there is no dot |
| PathInfo.StemDotExtension | index.php:60 | a name with a dot is its file name part, a dot and its extension |
| PathInfo.SplitJoin | index.php:60-61 | joining a stem and a dot-free extension with a dot and splitting again gives both parts back |
| Decimal.NatText | index.php:55 | the decimal text of a natural number is non-empty, all digits, and has no leading zero |
| Decimal.IntText | index.php:55 | the text of an integer is digits, preceded by a minus sign exactly when the integer is negative |
| Decimal.NatTextRoundTrip | index.php:55 | reading the digits back gives the number |
| Decimal.IntTextRoundTrip | index.php:55 | reading the text of an integer back gives the integer |
| Decimal.IntTextInjective | index.php:55 | distinct ceilings have distinct texts |
| Messages.Render | index.php:29-64 | every echoed paragraph starts with `<p>Error: ` |
| Messages.RenderInjective | index.php:29-64 | distinct messages render to distinct paragraphs, including size messages for distinct ceilings, so each paragraph identifies its cause |
| UploadScenarios.JpegAllowed | index.php:9 | `image/jpeg` is on the default allow-list |
| UploadScenarios.PdfNotAllowed | index.php:9 | `application/pdf` is not on the default allow-list |
| UploadScenarios.DefaultAllowList | index.php:9 | the default allow-list admits a type if and only if it is `image/jpeg`, `image/png` or `image/gif` |
| UploadScenarios.PhotoAccepted | index.php:16-63 | the caption `My Photo!!` with a JPEG of 1000 bytes is moved from its temporary file |
| UploadScenarios.PhotoDestination | index.php:59-61 | with the default configuration, the destination derived for that caption and `pic.JPG` is `uploads/MyPhoto.JPG`, keeping the extension's case |
| UploadScenarios.PhotoStored | index.php:16-63 | end to end, the handler moves that upload's temporary file to `uploads/MyPhoto.JPG` |
| UploadScenarios.LongCaptionRefused | index.php:24-33 | a 40-byte caption is refused with the caption message, after the upload message when the transfer failed, and nothing is moved |
| UploadScenarios.PdfRefused | index.php:49-52 | a PDF with a valid caption is refused with the type message alone |
| UploadScenarios.MissingFileRefused | index.php:21-29 | a request without a file record is refused with the invalid-upload message alone |
| UploadScenarios.OneByteOverRefused | index.php:54-57 | a JPEG one byte over the default ceiling is refused with the message quoting 30000000 |
| UploadScenarios.AtCeilingAccepted | index.php:54-63 | a JPEG of exactly 30000000 bytes is moved |
| UploadScenarios.IgnoredRequests | index.php:17-19 | a GET, a missing caption, the caption `""` and the caption `0` have no effect |
| UploadScenarios.TransferErrorHidesType | index.php:24-33 | a PDF whose transfer failed is reported only as an invalid upload |
| UploadScenarios.TypeHidesSize | index.php:49-57 | an oversized PDF is reported only for its type |
| UploadScenarios.CaptionsCollide | index.php:59-61 | `My Photo!!` and `MyPhoto` with the same extension get the same path, so the later upload replaces the earlier |
| UploadScenarios.PhpNamedJpegAccepted | index.php:49-63 | a file declared as JPEG but named `shell.php` is moved, because the name's extension is never checked |
| UploadScenarios.PhpNamedJpegDestination | index.php:59-61 | the destination derived for the caption `x` and the name `shell.php` is `uploads/x.php` |
| UploadScenarios.PhpNamedJpegStored | index.php:16-63 | end to end, the handler moves that upload's temporary file to `uploads/x.php` |
| UploadScenarios.BlankCaptionAccepted | index.php:17-25 | a caption of three spaces is not empty in the entry guard's sense, trims to nothing, and the file is moved |
| UploadScenarios.BlankCaptionDestination | index.php:59-61 | the destination derived for the trimmed blank caption and the name `a.gif` is `uploads/.gif` |
| UploadScenarios.BlankCaptionStored | index.php:16-63 | end to end, the handler moves the temporary file of a blank-captioned `a.gif` declared as JPEG to `uploads/.gif` |

## Left out

- `GalleryDisplay` (index.php:69-87) is left out because it only lists a directory and echoes HTML. Only the `PATHINFO_FILENAME` split it applies to stored names is modelled, as `PathInfo.Stem`.
- The HTML page, the form and the styling are presentation only.
- Reading `$_SERVER`, `$_POST` and `$_FILES` is replaced by the explicit `Request` and `FileInfo` records. A `title` field holding an array makes `trim` throw a type error, which is not modelled. A multi-file `image[]` record has an array as its `error`, so the strict comparison at index.php:38 is false and the request is refused as an invalid upload; the model covers this as a record whose `error` is not `UPLOAD_ERR_OK`.
- `move_uploaded_file` is a file-system side effect. It appears only as the boolean `moveSucceeds`, and the contents of the upload directory are not modelled. A collision is stated as two uploads having the same destination path.
- The basename step of `pathinfo` and its locale dependence are not modelled. The extension and file name part are taken around the last dot of the whole name.
- `in_array` compares loosely. The model uses exact membership, which is the same for the default allow-list because none of its strings is numeric.
- `echo` is represented by the list of `Messages.Message` values in the outcome. Their exact text is `Messages.Render`.
- The platform removes the temporary file at the end of the request. Temporary-file clean-up and concurrent uploads racing on one path are outside this sequential model.
- Sizes, transfer statuses and the ceiling are unbounded integers. PHP's are 64-bit, and no comparison in the handler depends on the difference.
