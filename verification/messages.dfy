/** The error paragraphs the handler echoes (index.php:29, 32, 50, 55, 64). */
module Messages {

  import Decimal

  /** One echoed error, by cause. The size error carries the ceiling it
      quotes. */
  datatype Message =
    | InvalidUpload
    | TitleTooLong
    | DisallowedType
    | TooLarge(limit: int)
    | MoveFailed

  const Head := "<p>Error: "

  /** What follows the common head: the cause in words. Each text is
      written as its first word followed by the rest of the sentence, so
      that `BodyTag` can read the first two bytes off the first word. */
  function Body(m: Message): (text: string)
    ensures |text| >= 2
  {
    match m
    case InvalidUpload => "Invalid " + "file upload.</p>"
    case TitleTooLong => "Title " + "is too long. Max 20 characters allowed.</p>"
    case DisallowedType => "Only " + "jpg, png, and gif files are allowed.</p>"
    case TooLarge(limit) => SizePrefix + Decimal.IntText(limit) + SizeSuffix
    case MoveFailed => "Failed " + "to move the file to the upload directory.</p>"
  }

  const SizePrefix := "File " + "size must not exceed "

  const SizeSuffix := " bytes.</p>"

  /** The first two bytes of each cause differ from those of every other
      kind of message. */
  function Tag(m: Message): (t: string)
  {
    match m
    case InvalidUpload => "In"
    case TitleTooLong => "Ti"
    case DisallowedType => "On"
    case TooLarge(_) => "Fi"
    case MoveFailed => "Fa"
  }

  lemma BodyTag(m: Message)
    ensures Body(m)[..2] == Tag(m)
  {
    match m
    case InvalidUpload =>
      assert Body(m)[..2] == "Invalid "[..2];
    case TitleTooLong =>
      assert Body(m)[..2] == "Title "[..2];
    case DisallowedType =>
      assert Body(m)[..2] == "Only "[..2];
    case TooLarge(_) =>
      assert Body(m)[..2] == "File "[..2];
    case MoveFailed =>
      assert Body(m)[..2] == "Failed "[..2];
  }

  /** The HTML paragraph echoed for a message. */
  function Render(m: Message): (html: string)
    ensures |html| > |Head| && html[..|Head|] == Head
  {
    Head + Body(m)
  }

  /** Every message names its cause: distinct messages render to distinct
      paragraphs, so the page tells the user which check failed (and for
      a size error, the exact ceiling). */
  lemma RenderInjective(a: Message, b: Message)
    requires Render(a) == Render(b)
    ensures a == b
  {
    assert Body(a) == Render(a)[|Head|..];
    assert Body(b) == Render(b)[|Head|..];
    var x, y := Body(a), Body(b);
    // The first two bytes of the cause tell the kinds apart.
    BodyTag(a);
    BodyTag(b);
    assert Tag(a) == Tag(b);
    if a.TooLarge? && b.TooLarge? {
      var pre, post := |SizePrefix|, |SizeSuffix|;
      assert Decimal.IntText(a.limit) == x[pre..|x| - post];
      assert Decimal.IntText(b.limit) == y[pre..|y| - post];
      Decimal.IntTextInjective(a.limit, b.limit);
    }
  }
}
