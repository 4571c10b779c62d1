/** The caption filter `preg_replace('/[^A-Za-z0-9\-]/', '', $title)`
    (index.php:59): every byte outside the safe class is deleted and the rest
    are kept in order. */
module SafeTitle {

  import opened Bytes

  /** The part one byte contributes to the filtered caption. */
  function Keep(b: Byte): Bytes {
    if IsSafe(b) then [b] else []
  }

  function Sanitize(s: Bytes): (r: Bytes)
    ensures |r| <= |s|
  {
    if s == [] then [] else Keep(s[0]) + Sanitize(s[1..])
  }

  /** Only safe bytes survive the filter. */
  lemma {:induction false} SanitizeSafe(s: Bytes)
    ensures AllSafe(Sanitize(s))
  {
    if s != [] {
      SanitizeSafe(s[1..]);
      var r := Sanitize(s);
      assert r == Keep(s[0]) + Sanitize(s[1..]);
      forall k | 0 <= k < |r|
        ensures IsSafe(r[k])
      {
        if k >= |Keep(s[0])| {
          assert r[k] == Sanitize(s[1..])[k - |Keep(s[0])|];
        }
      }
    }
  }

  /** `a` can be obtained from `b` by deleting bytes (greedy matching from
      the front decides this exactly). */
  predicate IsSubsequence(a: Bytes, b: Bytes)
    decreases |b|
  {
    if a == [] then true
    else if b == [] then false
    else if a[0] == b[0] then IsSubsequence(a[1..], b[1..])
    else IsSubsequence(a, b[1..])
  }

  /** The filter distributes over concatenation: it decides byte by byte. */
  lemma {:induction false} SanitizeConcat(a: Bytes, b: Bytes)
    ensures Sanitize(a + b) == Sanitize(a) + Sanitize(b)
  {
    if a == [] {
      assert a + b == b;
    } else {
      assert (a + b)[1..] == a[1..] + b;
      SanitizeConcat(a[1..], b);
    }
  }

  /** The filtered caption keeps the bytes of `s` in their order. */
  lemma {:induction false} SanitizeIsSubsequence(s: Bytes)
    ensures IsSubsequence(Sanitize(s), s)
  {
    if s != [] {
      SanitizeIsSubsequence(s[1..]);
      var r := Sanitize(s);
      if IsSafe(s[0]) {
        assert r[0] == s[0] && r[1..] == Sanitize(s[1..]);
      } else {
        SanitizeSafe(s[1..]);
        assert r == Sanitize(s[1..]);
      }
    }
  }

  /** Every safe byte of `s` survives as often as it occurs, and no other
      byte survives at all. */
  lemma {:induction false} SanitizeCounts(s: Bytes, b: Byte)
    ensures multiset(Sanitize(s))[b] == if IsSafe(b) then multiset(s)[b] else 0
  {
    if s != [] {
      SanitizeCounts(s[1..], b);
      assert s == [s[0]] + s[1..];
      assert multiset(s)[b] == multiset([s[0]])[b] + multiset(s[1..])[b];
      assert Sanitize(s) == Keep(s[0]) + Sanitize(s[1..]);
      assert multiset(Sanitize(s))[b] == multiset(Keep(s[0]))[b] + multiset(Sanitize(s[1..]))[b];
      if IsSafe(s[0]) {
        assert Keep(s[0]) == [s[0]];
      } else {
        assert multiset(Keep(s[0]))[b] == 0;
      }
    }
  }

  /** A caption is left unchanged exactly when it holds only safe bytes. */
  lemma {:induction false} SanitizeFixedPoint(s: Bytes)
    ensures Sanitize(s) == s <==> AllSafe(s)
  {
    SanitizeSafe(s);
    if s != [] && AllSafe(s) {
      assert AllSafe(s[1..]);
      SanitizeFixedPoint(s[1..]);
      assert s == [s[0]] + s[1..];
    }
  }

  /** A caption without a single safe byte vanishes entirely. */
  lemma {:induction false} SanitizeNoSafe(s: Bytes)
    requires forall k :: 0 <= k < |s| ==> !IsSafe(s[k])
    ensures Sanitize(s) == []
  {
    if s != [] {
      SanitizeNoSafe(s[1..]);
    }
  }

  /** Sanitising twice is sanitising once. */
  lemma SanitizeIdempotent(s: Bytes)
    ensures Sanitize(Sanitize(s)) == Sanitize(s)
  {
    SanitizeSafe(s);
    SanitizeFixedPoint(Sanitize(s));
  }

  /** The filtered caption holds neither a path separator nor a dot, so it
      can neither climb out of the upload directory nor fake an extension. */
  lemma SanitizeNoTraversal(s: Bytes)
    ensures forall k :: 0 <= k < |Sanitize(s)| ==> Sanitize(s)[k] != Slash && Sanitize(s)[k] != Dot
  {
    SanitizeSafe(s);
  }
}
