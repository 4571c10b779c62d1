/** PHP `trim` with its default character list (index.php:22). */
module Trimming {

  import opened Bytes

  /** `r` is what is left of `s` once the first `i` bytes and every byte
      after `r` are dropped, and all of the dropped bytes are trim bytes. */
  ghost predicate StripsTo(s: Bytes, r: Bytes, i: int) {
    && 0 <= i
    && i + |r| <= |s|
    && r == s[i..i + |r|]
    && (forall k :: 0 <= k < i ==> IsTrimSpace(s[k]))
    && (forall k :: i + |r| <= k < |s| ==> IsTrimSpace(s[k]))
  }

  /** Neither end of `r` is a trim byte. */
  ghost predicate Tight(r: Bytes) {
    r == [] || (!IsTrimSpace(r[0]) && !IsTrimSpace(r[|r| - 1]))
  }

  /** Drops the leading trim bytes. */
  function TrimLeft(s: Bytes): (r: Bytes)
    ensures |r| <= |s|
    ensures r == [] || !IsTrimSpace(r[0])
  {
    if |s| > 0 && IsTrimSpace(s[0]) then TrimLeft(s[1..]) else s
  }

  /** What `TrimLeft` keeps is a suffix, and all it drops are trim bytes. */
  lemma {:induction false} TrimLeftDrops(s: Bytes)
    ensures var r := TrimLeft(s);
            && r == s[|s| - |r|..]
            && forall k :: 0 <= k < |s| - |r| ==> IsTrimSpace(s[k])
  {
    if |s| > 0 && IsTrimSpace(s[0]) {
      TrimLeftDrops(s[1..]);
      var r := TrimLeft(s);
      assert r == s[1..][|s| - 1 - |r|..];
      forall k | 1 <= k < |s| - |r|
        ensures IsTrimSpace(s[k])
      {
        assert s[k] == s[1..][k - 1];
      }
    }
  }

  /** Drops the trailing trim bytes. */
  function TrimRight(s: Bytes): (r: Bytes)
    ensures |r| <= |s|
    ensures r == [] || !IsTrimSpace(r[|r| - 1])
  {
    if |s| > 0 && IsTrimSpace(s[|s| - 1]) then TrimRight(s[..|s| - 1]) else s
  }

  /** What `TrimRight` keeps is a prefix, and all it drops are trim bytes. */
  lemma {:induction false} TrimRightDrops(s: Bytes)
    ensures var r := TrimRight(s);
            && r == s[..|r|]
            && forall k :: |r| <= k < |s| ==> IsTrimSpace(s[k])
  {
    if |s| > 0 && IsTrimSpace(s[|s| - 1]) {
      var t := s[..|s| - 1];
      TrimRightDrops(t);
      var r := TrimRight(s);
      assert r == t[..|r|];
      forall k | |r| <= k < |s| - 1
        ensures IsTrimSpace(s[k])
      {
        assert s[k] == t[k];
      }
    }
  }

  /** PHP `trim($s)`: the front trim bytes dropped, then the back ones.
      Neither end of the result is a trim byte; `TrimStrips` shows that only
      trim bytes were dropped. */
  function Trim(s: Bytes): (r: Bytes)
    ensures |r| <= |s|
    ensures Tight(r)
  {
    var l := TrimLeft(s);
    var r := TrimRight(l);
    TrimRightDrops(l);
    assert r != [] ==> r[0] == l[0];
    r
  }

  /** `Trim` strips `s` down to its result, dropping only trim bytes. */
  lemma TrimStrips(s: Bytes)
    ensures StripsTo(s, Trim(s), |s| - |TrimLeft(s)|)
  {
    var l := TrimLeft(s);
    var r := Trim(s);
    var i := |s| - |l|;
    TrimLeftDrops(s);
    TrimRightDrops(l);
    assert r == TrimRight(l);
    assert r == s[i..i + |r|];
    forall k | i + |r| <= k < |s|
      ensures IsTrimSpace(s[k])
    {
      assert s[k] == l[k - i];
    }
  }

  /** Any way of stripping trim bytes from both ends of `s` that leaves a part
      with tight ends is what `Trim` computes: the characterisation pins the
      result down uniquely. */
  lemma TrimUnique(s: Bytes, r: Bytes, i: int)
    requires StripsTo(s, r, i) && Tight(r)
    ensures Trim(s) == r
  {
    var l := TrimLeft(s);
    var lead := |s| - |l|;
    TrimLeftDrops(s);
    TrimRightDrops(l);
    if r == [] {
      assert l == [];
    } else {
      assert s[i] == r[0];
      assert lead <= i;
      assert s[lead] == l[0];
      assert lead == i;
      assert l == s[i..];
      var t := TrimRight(l);
      assert r == l[..|r|];
      assert |t| <= |r|;
      assert r[|r| - 1] == l[|r| - 1];
      assert |t| == |r|;
    }
  }

  /** A caption whose ends are not trim bytes is left as it is, and only
      such a caption is. */
  lemma TrimFixedPoint(s: Bytes)
    ensures Trim(s) == s <==> Tight(s)
  {
    if Tight(s) {
      assert s[0..|s|] == s;
      TrimUnique(s, s, 0);
    }
  }

  /** Trimming twice is trimming once. */
  lemma TrimIdempotent(s: Bytes)
    ensures Trim(Trim(s)) == Trim(s)
  {
    TrimFixedPoint(Trim(s));
  }
}
