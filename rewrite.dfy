/**
 * The two rewrites of a pattern, position by position. A flag sequence says,
 * for each byte of the pattern, whether that byte is deleted (`Strip`) or
 * preceded by an inserted backslash (`Escape`).
 */
module Rewrite {
  import opened Bytes
  import opened Runes

  /** The number of raised flags. */
  function Count(f: seq<bool>): (n: nat)
    ensures n <= |f|
  {
    if f == [] then 0 else Count(f[..|f| - 1]) + if f[|f| - 1] then 1 else 0
  }

  /** `p` without the bytes whose flag is raised. */
  function Strip(p: seq<byte>, del: seq<bool>): (r: seq<byte>)
    requires |del| == |p|
    ensures |r| == |p| - Count(del)
  {
    if p == [] then []
    else
      Strip(p[..|p| - 1], del[..|p| - 1]) + if del[|p| - 1] then [] else [p[|p| - 1]]
  }

  /** `p` with a backslash put in front of every byte whose flag is raised. */
  function Escape(p: seq<byte>, esc: seq<bool>): (r: seq<byte>)
    requires |esc| == |p|
    ensures |r| == |p| + Count(esc)
  {
    if p == [] then []
    else
      Escape(p[..|p| - 1], esc[..|p| - 1]) + if esc[|p| - 1] then [BACKSLASH, p[|p| - 1]] else [p[|p| - 1]]
  }

  /** Deletes the byte in front of every byte whose flag is raised. */
  function Unescape(e: seq<byte>, esc: seq<bool>): seq<byte>
    decreases |esc|
  {
    if esc == [] || e == [] then []
    else if esc[|esc| - 1] then
      if |e| < 2 then [] else Unescape(e[..|e| - 2], esc[..|esc| - 1]) + [e[|e| - 1]]
    else Unescape(e[..|e| - 1], esc[..|esc| - 1]) + [e[|e| - 1]]
  }

  /**
   * Strip keeps every unflagged byte, in order: the byte at position `i`
   * lands at `i` less the number of deletions before it.
   */
  lemma {:induction false} StripKeeps(p: seq<byte>, del: seq<bool>, i: nat)
    requires |del| == |p| && i < |p| && !del[i]
    ensures i - Count(del[..i]) < |Strip(p, del)|
    ensures Strip(p, del)[i - Count(del[..i])] == p[i]
  {
    var n := |p| - 1;
    var s0 := Strip(p[..n], del[..n]);
    assert Strip(p, del) == s0 + if del[n] then [] else [p[n]];
    if i < n {
      StripKeeps(p[..n], del[..n], i);
      assert del[..n][..i] == del[..i];
    } else {
      assert del[..n] == del[..i];
    }
  }

  /** Without a raised flag nothing is deleted. */
  lemma {:induction false} StripNothing(p: seq<byte>, del: seq<bool>)
    requires |del| == |p| && forall k :: 0 <= k < |del| ==> !del[k]
    ensures Strip(p, del) == p
  {
    if p != [] {
      StripNothing(p[..|p| - 1], del[..|p| - 1]);
    }
  }

  /** The last step of `Escape`, for the last byte of `p`. */
  lemma EscapeLast(p: seq<byte>, esc: seq<bool>)
    requires |esc| == |p| && p != []
    ensures Escape(p, esc) == Escape(p[..|p| - 1], esc[..|p| - 1]) + if esc[|p| - 1] then [BACKSLASH, p[|p| - 1]] else [p[|p| - 1]]
  {
  }

  /**
   * Where each byte of `p` lands in `Escape(p, esc)`: after the bytes and
   * backslashes written for the positions before it, and after its own
   * backslash when its flag is raised.
   */
  lemma {:induction false} EscapeAt(p: seq<byte>, esc: seq<bool>, i: nat)
    requires |esc| == |p| && i < |p|
    ensures i + Count(esc[..i]) + (if esc[i] then 1 else 0) < |Escape(p, esc)|
    ensures Escape(p, esc)[i + Count(esc[..i]) + if esc[i] then 1 else 0] == p[i]
  {
    var n := |p| - 1;
    var e0 := Escape(p[..n], esc[..n]);
    EscapeLast(p, esc);
    var c := Count(esc[..i]);
    var b := if esc[i] then 1 else 0;
    if i < n {
      EscapeAt(p[..n], esc[..n], i);
      assert esc[..n][..i] == esc[..i];
      assert esc[..n][i] == esc[i];
      assert p[..n][i] == p[i];
      assert i + c + b < |e0|;
    } else {
      assert esc[..n] == esc[..i];
      assert |e0| == i + c;
    }
  }

  /** A raised flag puts a backslash right in front of its byte. */
  lemma {:induction false} EscapeBackslash(p: seq<byte>, esc: seq<bool>, i: nat)
    requires |esc| == |p| && i < |p| && esc[i]
    ensures i + Count(esc[..i]) < |Escape(p, esc)|
    ensures Escape(p, esc)[i + Count(esc[..i])] == BACKSLASH
  {
    var n := |p| - 1;
    var e0 := Escape(p[..n], esc[..n]);
    EscapeLast(p, esc);
    var c := Count(esc[..i]);
    if i < n {
      EscapeBackslash(p[..n], esc[..n], i);
      assert esc[..n][..i] == esc[..i];
      assert i + c < |e0|;
    } else {
      assert esc[..n] == esc[..i];
      assert |e0| == i + c;
    }
  }

  /** Deleting from one more byte of `p`: that byte is kept unless flagged. */
  lemma StripStep(p: seq<byte>, del: seq<bool>, i: nat)
    requires |del| == |p| && i < |p|
    ensures del[i] ==> Strip(p[..i + 1], del[..i + 1]) == Strip(p[..i], del[..i])
    ensures !del[i] ==> Strip(p[..i + 1], del[..i + 1]) == Strip(p[..i], del[..i]) + [p[i]]
  {
    assert p[..i + 1][..i] == p[..i];
    assert del[..i + 1][..i] == del[..i];
  }

  /** Escaping one more byte of `p`: that byte, behind a backslash when flagged. */
  lemma EscapeStep(p: seq<byte>, esc: seq<bool>, i: nat)
    requires |esc| == |p| && i < |p|
    ensures esc[i] ==> Escape(p[..i + 1], esc[..i + 1]) == Escape(p[..i], esc[..i]) + [BACKSLASH] + [p[i]]
    ensures !esc[i] ==> Escape(p[..i + 1], esc[..i + 1]) == Escape(p[..i], esc[..i]) + [p[i]]
  {
    assert p[..i + 1][..i] == p[..i];
    assert esc[..i + 1][..i] == esc[..i];
    var e := Escape(p[..i], esc[..i]);
    assert e + [BACKSLASH, p[i]] == e + [BACKSLASH] + [p[i]];
  }

  /** Undoing the last step of `Escape`. */
  lemma UnescapeLast(e0: seq<byte>, f: seq<bool>, x: byte)
    requires f != []
    ensures Unescape(e0 + (if f[|f| - 1] then [BACKSLASH, x] else [x]), f) == Unescape(e0, f[..|f| - 1]) + [x]
  {
    var e := e0 + (if f[|f| - 1] then [BACKSLASH, x] else [x]);
    if f[|f| - 1] {
      assert e[..|e| - 2] == e0;
    } else {
      assert e[..|e| - 1] == e0;
    }
  }

  /** Deleting the inserted backslashes gives the pattern back. */
  lemma {:induction false} UnescapeEscape(p: seq<byte>, esc: seq<bool>)
    requires |esc| == |p|
    ensures Unescape(Escape(p, esc), esc) == p
  {
    if p != [] {
      var n := |p| - 1;
      EscapeLast(p, esc);
      UnescapeEscape(p[..n], esc[..n]);
      UnescapeLast(Escape(p[..n], esc[..n]), esc, p[n]);
      assert p == p[..n] + [p[n]];
    }
  }

  /**
   * Two flag sequences that raise a flag exactly at the positions of one
   * kind of byte between them raise as many flags as there are such bytes.
   */
  lemma {:induction false} CountSplit(del: seq<bool>, esc: seq<bool>, both: seq<bool>)
    requires |del| == |esc| == |both|
    requires forall k :: 0 <= k < |both| ==> (both[k] <==> del[k] || esc[k]) && !(del[k] && esc[k])
    ensures Count(del) + Count(esc) == Count(both)
  {
    if both != [] {
      var n := |both| - 1;
      CountSplit(del[..n], esc[..n], both[..n]);
    }
  }

  /** No raised flag, no count. */
  lemma {:induction false} CountNone(f: seq<bool>)
    requires forall k :: 0 <= k < |f| ==> !f[k]
    ensures Count(f) == 0
  {
    if f != [] {
      CountNone(f[..|f| - 1]);
    }
  }

  /** Raising one more flag adds one to the count. */
  lemma {:induction false} CountRaise(f: seq<bool>, i: nat)
    requires i < |f| && !f[i]
    ensures Count(f[i := true]) == Count(f) + 1
  {
    var n := |f| - 1;
    if i < n {
      CountRaise(f[..n], i);
      assert f[i := true][..n] == f[..n][i := true];
    } else {
      assert f[i := true][..n] == f[..n];
    }
  }

  // ---------------------------------------------------------------------
  // The rewrites as the program writes them: each kept byte goes through
  // `string(b)`, so the output is the encoding of the byte-wise rewrite.

  /** The deletion from `p` begins with the deletion from each prefix of `p`. */
  lemma {:induction false} StripUpTo(p: seq<byte>, del: seq<bool>, i: nat)
    requires |del| == |p| && i <= |p|
    ensures i - Count(del[..i]) <= |Strip(p, del)|
    ensures Strip(p, del)[..i - Count(del[..i])] == Strip(p[..i], del[..i])
  {
    if i < |p| {
      var n := |p| - 1;
      var q, f := p[..n], del[..n];
      assert Strip(p, del) == Strip(q, f) + if del[n] then [] else [p[n]];
      assert q[..i] == p[..i] && f[..i] == del[..i];
      StripUpTo(q, f, i);
    } else {
      assert p[..i] == p && del[..i] == del;
    }
  }

  /** Deleting only ASCII bytes keeps every high byte. */
  lemma {:induction false} StripHigh(p: seq<byte>, del: seq<bool>)
    requires |del| == |p| && forall k :: 0 <= k < |p| && del[k] ==> !IsHigh(p[k])
    ensures HighCount(Strip(p, del)) == HighCount(p)
  {
    if p != [] {
      var n := |p| - 1;
      var s := Strip(p[..n], del[..n]);
      StripHigh(p[..n], del[..n]);
      if del[n] {
        assert Strip(p, del) == s + [];
        assert s + [] == s;
      } else {
        assert (s + [p[n]])[..|s|] == s;
      }
    }
  }

  /** A kept byte of `p` in the deletion: where it sits, and the high bytes before it. */
  lemma StripLanding(p: seq<byte>, del: seq<bool>, i: nat, k: int)
    requires |del| == |p| && forall j :: 0 <= j < |p| && del[j] ==> !IsHigh(p[j])
    requires i < |p| && !del[i] && k == i - Count(del[..i])
    ensures 0 <= k < |Strip(p, del)| && Strip(p, del)[k] == p[i]
    ensures HighCount(Strip(p, del)[..k]) == HighCount(p[..i])
  {
    var x := Strip(p, del);
    assert k < |x| && x[k] == p[i] by {
      StripKeeps(p, del, i);
    }
    assert HighCount(x[..k]) == HighCount(p[..i]) by {
      StripUpTo(p, del, i);
      StripHigh(p[..i], del[..i]);
    }
  }

  /**
   * Where a kept byte's encoding lands in the encoded deletion: at its
   * position, less the deletions before it, plus one for every high byte
   * before it.
   */
  lemma StripEncodedKeeps(p: seq<byte>, del: seq<bool>, i: nat, at: int)
    requires |del| == |p| && forall j :: 0 <= j < |p| && del[j] ==> !IsHigh(p[j])
    requires i < |p| && !del[i] && at == i - Count(del[..i]) + HighCount(p[..i])
    ensures EncodedAt(Encode(Strip(p, del)), at, p[i])
  {
    var x, k := Strip(p, del), i - Count(del[..i]);
    StripLanding(p, del, i, k);
    assert at == k + HighCount(x[..k]);
    EncodeLanding(x, k, p[i], at);
  }

  /** Inserting backslashes adds no high byte. */
  lemma {:induction false} EscapeHigh(p: seq<byte>, esc: seq<bool>)
    requires |esc| == |p|
    ensures HighCount(Escape(p, esc)) == HighCount(p)
  {
    if p != [] {
      var n := |p| - 1;
      var s := Escape(p[..n], esc[..n]);
      EscapeHigh(p[..n], esc[..n]);
      if esc[n] {
        assert s + [BACKSLASH, p[n]] == s + [BACKSLASH] + [p[n]];
        HighCountSnoc(s + [BACKSLASH], p[n]);
        HighCountSnoc(s, BACKSLASH);
      } else {
        HighCountSnoc(s, p[n]);
      }
    }
  }

  /** The escaping's first bytes are the escaping of `p`'s first bytes. */
  lemma {:induction false} EscapeUpTo(p: seq<byte>, esc: seq<bool>, i: nat)
    requires |esc| == |p| && i <= |p|
    ensures i + Count(esc[..i]) <= |Escape(p, esc)|
    ensures Escape(p, esc)[..i + Count(esc[..i])] == Escape(p[..i], esc[..i])
  {
    if i < |p| {
      var n := |p| - 1;
      var q, f := p[..n], esc[..n];
      EscapeLast(p, esc);
      assert q[..i] == p[..i] && f[..i] == esc[..i];
      EscapeUpTo(q, f, i);
    } else {
      assert p[..i] == p && esc[..i] == esc;
    }
  }

  /** An unflagged byte of `p` in the escaping: where it sits, and the high bytes before it. */
  lemma EscapeLandingKept(p: seq<byte>, esc: seq<bool>, i: nat, k: int)
    requires |esc| == |p| && i < |p| && !esc[i] && k == i + Count(esc[..i])
    ensures 0 <= k < |Escape(p, esc)| && Escape(p, esc)[k] == p[i]
    ensures HighCount(Escape(p, esc)[..k]) == HighCount(p[..i])
  {
    var x := Escape(p, esc);
    assert k < |x| && x[k] == p[i] by {
      EscapeAt(p, esc, i);
    }
    assert HighCount(x[..k]) == HighCount(p[..i]) by {
      EscapeUpTo(p, esc, i);
      EscapeHigh(p[..i], esc[..i]);
    }
  }

  /** A flagged byte of `p` in the escaping: where it sits behind its backslash, and the high bytes before it. */
  lemma EscapeLandingFlagged(p: seq<byte>, esc: seq<bool>, i: nat, k: int)
    requires |esc| == |p| && i < |p| && esc[i] && k == i + Count(esc[..i]) + 1
    ensures 0 <= k < |Escape(p, esc)| && Escape(p, esc)[k] == p[i] && Escape(p, esc)[k - 1] == BACKSLASH
    ensures HighCount(Escape(p, esc)[..k]) == HighCount(p[..i])
  {
    var x := Escape(p, esc);
    assert k < |x| && x[k] == p[i] by {
      EscapeAt(p, esc, i);
    }
    assert x[k - 1] == BACKSLASH by {
      EscapeBackslash(p, esc, i);
    }
    assert HighCount(x[..k - 1]) == HighCount(p[..i]) by {
      EscapeUpTo(p, esc, i);
      EscapeHigh(p[..i], esc[..i]);
    }
    assert x[..k][..k - 1] == x[..k - 1];
  }

  /** The backslash in front of a flagged byte in the escaping: where it sits, and the high bytes before it. */
  lemma EscapeBackslashLanding(p: seq<byte>, esc: seq<bool>, i: nat)
    requires |esc| == |p| && i < |p| && esc[i]
    ensures i + Count(esc[..i]) < |Escape(p, esc)| && Escape(p, esc)[i + Count(esc[..i])] == BACKSLASH
    ensures HighCount(Escape(p, esc)[..i + Count(esc[..i])]) == HighCount(p[..i])
  {
    EscapeBackslash(p, esc, i);
    assert HighCount(Escape(p, esc)[..i + Count(esc[..i])]) == HighCount(p[..i]) by {
      EscapeUpTo(p, esc, i);
      EscapeHigh(p[..i], esc[..i]);
    }
  }

  /** Where an unflagged byte's encoding lands in the encoded escaping. */
  lemma EscapeEncodedKept(p: seq<byte>, esc: seq<bool>, i: nat, at: int)
    requires |esc| == |p| && i < |p| && !esc[i] && at == i + Count(esc[..i]) + HighCount(p[..i])
    ensures EncodedAt(Encode(Escape(p, esc)), at, p[i])
  {
    var x, k := Escape(p, esc), i + Count(esc[..i]);
    EscapeLandingKept(p, esc, i, k);
    assert at == k + HighCount(x[..k]);
    EncodeLanding(x, k, p[i], at);
  }

  /** Where a flagged byte's encoding lands in the encoded escaping: behind its backslash. */
  lemma EscapeEncodedFlagged(p: seq<byte>, esc: seq<bool>, i: nat, at: int)
    requires |esc| == |p| && i < |p| && esc[i] && at == i + Count(esc[..i]) + HighCount(p[..i]) + 1
    ensures EncodedAt(Encode(Escape(p, esc)), at, p[i])
  {
    var x, k := Escape(p, esc), i + Count(esc[..i]) + 1;
    assert k < |x| && x[k] == p[i] && HighCount(x[..k]) == HighCount(p[..i]) by {
      EscapeLandingFlagged(p, esc, i, k);
    }
    assert at == k + HighCount(x[..k]);
    EncodeLanding(x, k, p[i], at);
  }

  /** A flagged byte's encoding comes right behind a backslash in the encoded escaping. */
  lemma EscapeEncodedBackslash(p: seq<byte>, esc: seq<bool>, i: nat, at: int)
    requires |esc| == |p| && i < |p| && esc[i] && at == i + Count(esc[..i]) + HighCount(p[..i])
    ensures 0 <= at < |Encode(Escape(p, esc))| && Encode(Escape(p, esc))[at] == BACKSLASH
  {
    EscapeBackslashLanding(p, esc, i);
    EncodeAtAscii(Escape(p, esc), i + Count(esc[..i]), at);
  }
}
