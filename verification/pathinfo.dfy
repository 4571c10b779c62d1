/** The two `pathinfo` parts the program uses: PATHINFO_EXTENSION for the
    stored name (index.php:60) and PATHINFO_FILENAME when the gallery turns a
    stored name back into a caption (index.php:76). */
module PathInfo {

  import opened Bytes
  import opened Options

  /** The position of the last dot of `s`, if any. */
  function LastDot(s: Bytes): (r: Option<nat>)
    ensures r.Some? ==> r.value < |s| && s[r.value] == Dot
  {
    if s == [] then None
    else if s[|s| - 1] == Dot then Some(|s| - 1)
    else LastDot(s[..|s| - 1])
  }

  /** `LastDot` finds a dot exactly when there is one, and no dot follows
      the one it finds. */
  lemma {:induction false} LastDotSpec(s: Bytes)
    ensures LastDot(s).Some? ==> forall k :: LastDot(s).value < k < |s| ==> s[k] != Dot
    ensures LastDot(s).None? <==> NoDot(s)
  {
    if s != [] && s[|s| - 1] != Dot {
      var t := s[..|s| - 1];
      LastDotSpec(t);
      assert forall k :: 0 <= k < |t| ==> t[k] == s[k];
    }
  }

  /** The text after the last dot, or nothing when there is no dot. */
  function Extension(name: Bytes): (ext: Bytes)
    ensures |ext| <= |name|
  {
    match LastDot(name)
    case None => []
    case Some(i) => name[i + 1..]
  }

  /** The extension is a dot-free suffix of the name, empty when the name
      has no dot. */
  lemma ExtensionSpec(name: Bytes)
    ensures var ext := Extension(name);
            && NoDot(ext)
            && (NoDot(name) ==> ext == [])
            && ext == name[|name| - |ext|..]
  {
    LastDotSpec(name);
  }

  /** The text before the last dot, or the whole name when there is none. */
  function Stem(name: Bytes): (stem: Bytes)
    ensures |stem| <= |name|
  {
    match LastDot(name)
    case None => name
    case Some(i) => name[..i]
  }

  /** The stem is a prefix of the name, all of it when the name has no
      dot. */
  lemma StemSpec(name: Bytes)
    ensures var stem := Stem(name);
            && stem == name[..|stem|]
            && (NoDot(name) ==> stem == name)
  {
    LastDotSpec(name);
  }

  /** A name with a dot splits at its last dot into stem and extension. */
  lemma StemDotExtension(name: Bytes)
    requires !NoDot(name)
    ensures name == Stem(name) + [Dot] + Extension(name)
  {
    LastDotSpec(name);
    var i := LastDot(name).value;
    assert name == name[..i] + [name[i]] + name[i + 1..];
  }

  /** Joining a stem and a dot-free extension with a dot and splitting again
      gives both parts back, whatever the stem holds. */
  lemma SplitJoin(stem: Bytes, ext: Bytes)
    requires NoDot(ext)
    ensures Extension(stem + [Dot] + ext) == ext
    ensures Stem(stem + [Dot] + ext) == stem
  {
    var name := stem + [Dot] + ext;
    assert name[|stem|] == Dot;
    LastDotSpec(name);
    var i := LastDot(name).value;
    assert i == |stem|;
    assert name[i + 1..] == ext;
    assert name[..i] == stem;
  }
}
