/**
 * Go's conversion `string(b)` of a byte `b`. The conversion reads `b` as a
 * code point, not as a byte: a byte below 0x80 stays one byte, and a byte
 * from 0x80 on becomes the two bytes of its UTF-8 encoding.
 */
module Runes {
  import opened Bytes

  /** A byte outside ASCII: `string(b)` writes two bytes for it. */
  predicate IsHigh(b: byte) {
    b >= 0x80
  }

  /** The code point that a two-byte UTF-8 sequence for a byte stands for. */
  function FromRune(lead: byte, cont: byte): byte {
    (((lead as int % 32) * 64 + cont as int % 64) % 256) as byte
  }

  /**
   * `string(b)`: the UTF-8 encoding of code point `b`. A high byte becomes
   * a lead byte 0xC2 or 0xC3 followed by a continuation byte.
   */
  function AsRune(b: byte): (r: seq<byte>)
    ensures !IsHigh(b) ==> r == [b]
    ensures IsHigh(b) ==> |r| == 2 && 0xC2 <= r[0] <= 0xC3 && 0x80 <= r[1] < 0xC0
  {
    if b < 0x80 then [b]
    else [(0xC0 + b as int / 64) as byte, (0x80 + b as int % 64) as byte]
  }

  /** The two bytes written for a high byte stand for that byte. */
  lemma AsRuneDecodes(b: byte)
    requires IsHigh(b)
    ensures FromRune(AsRune(b)[0], AsRune(b)[1]) == b
  {
  }

  /** The number of high bytes in `p`. */
  function HighCount(p: seq<byte>): (n: nat)
    ensures n <= |p|
  {
    if p == [] then 0 else HighCount(p[..|p| - 1]) + if IsHigh(p[|p| - 1]) then 1 else 0
  }

  /** What appending `string(p[i])` for every byte of `p` in turn builds. */
  function Encode(p: seq<byte>): (r: seq<byte>)
    ensures |r| == |p| + HighCount(p)
  {
    if p == [] then [] else Encode(p[..|p| - 1]) + AsRune(p[|p| - 1])
  }

  /** Reads `Encode`'s output back, one byte or one two-byte sequence at a time from the end. */
  function Decode(e: seq<byte>): seq<byte> {
    if e == [] then []
    else if !IsHigh(e[|e| - 1]) || |e| == 1 then Decode(e[..|e| - 1]) + [e[|e| - 1]]
    else Decode(e[..|e| - 2]) + [FromRune(e[|e| - 2], e[|e| - 1])]
  }

  /** One more byte adds one to the count when it is high. */
  lemma HighCountSnoc(s: seq<byte>, b: byte)
    ensures IsHigh(b) ==> HighCount(s + [b]) == HighCount(s) + 1
    ensures !IsHigh(b) ==> HighCount(s + [b]) == HighCount(s)
  {
    assert (s + [b])[..|s|] == s;
  }

  /** Encoding one more byte appends its encoding. */
  lemma EncodeSnoc(s: seq<byte>, b: byte)
    ensures Encode(s + [b]) == Encode(s) + AsRune(b)
  {
    assert (s + [b])[..|s|] == s;
  }

  /** Decoding reads the encoding of one more byte back as that byte. */
  lemma DecodeSnoc(e0: seq<byte>, b: byte)
    ensures Decode(e0 + AsRune(b)) == Decode(e0) + [b]
  {
    var r := AsRune(b);
    var e := e0 + r;
    if IsHigh(b) {
      assert e[..|e| - 2] == e0 && e[|e| - 2] == r[0] && e[|e| - 1] == r[1];
      AsRuneDecodes(b);
    } else {
      assert e[..|e| - 1] == e0;
    }
  }

  /** Decoding undoes the encoding: no information is lost, only the width changes. */
  lemma {:induction false} DecodeEncode(p: seq<byte>)
    ensures Decode(Encode(p)) == p
  {
    if p != [] {
      var n := |p| - 1;
      DecodeEncode(p[..n]);
      DecodeSnoc(Encode(p[..n]), p[n]);
      assert p == p[..n] + [p[n]];
    }
  }

  /** The encoding leaves `p` as it is exactly when `p` is ASCII. */
  lemma {:induction false} EncodeAscii(p: seq<byte>)
    ensures Encode(p) == p <==> HighCount(p) == 0
  {
    if p != [] && HighCount(p) == 0 {
      var n := |p| - 1;
      EncodeAscii(p[..n]);
      assert p == p[..n] + [p[n]];
    }
  }

  /** "é" is stored as the bytes C3 A9; writing each of them through `string(b)` gives four bytes. */
  lemma EncodeAcute()
    ensures Encode([0xC3, 0xA9]) == [0xC3, 0x83, 0xC2, 0xA9]
  {
    var p: seq<byte> := [0xC3, 0xA9];
    assert p[..1] == [0xC3];
    assert Encode([0xC3]) == [0xC3, 0x83];
    assert AsRune(0xA9) == [0xC2, 0xA9];
    assert Encode(p) == [0xC3, 0x83] + [0xC2, 0xA9];
  }

  /** `e` holds the encoding of `b` from position `at` on: one byte, or two for a high byte. */
  predicate EncodedAt(e: seq<byte>, at: int, b: byte) {
    0 <= at && at + |AsRune(b)| <= |e| && e[at] == AsRune(b)[0] && (IsHigh(b) ==> e[at + 1] == AsRune(b)[1])
  }

  /**
   * Where the encoding of `x[j]` lands: after the bytes before it, shifted
   * by one for each high byte among them.
   */
  lemma {:induction false} EncodeAt(x: seq<byte>, j: nat)
    requires j < |x|
    ensures EncodedAt(Encode(x), j + HighCount(x[..j]), x[j])
  {
    var n := |x| - 1;
    var init := x[..n];
    assert Encode(x) == Encode(init) + AsRune(x[n]);
    if j < n {
      assert init[..j] == x[..j] && init[j] == x[j];
      EncodeAt(init, j);
    } else {
      assert init == x[..j];
    }
  }

  /** `EncodeAt`, for a byte `b` at position `j` whose encoding is to start at `at`. */
  lemma EncodeLanding(x: seq<byte>, j: nat, b: byte, at: int)
    requires j < |x| && x[j] == b && at == j + HighCount(x[..j])
    ensures EncodedAt(Encode(x), at, b)
  {
    EncodeAt(x, j);
  }

  /** An ASCII byte of `x` keeps its value, shifted by one for each high byte before it. */
  lemma EncodeAtAscii(x: seq<byte>, j: nat, at: int)
    requires j < |x| && !IsHigh(x[j]) && at == j + HighCount(x[..j])
    ensures 0 <= at < |Encode(x)| && Encode(x)[at] == x[j]
  {
    EncodeLanding(x, j, x[j], at);
  }
}
