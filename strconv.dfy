/**
 * Decimal integer parsing as `strconv.Atoi` does it on a 64-bit platform:
 * an optional sign followed by one or more decimal digits, whose value must
 * lie in the range of `int64`.
 */
module Strconv {
  import opened Bytes

  datatype Option<T> = None | Some(value: T)

  const MIN_INT64: int := -0x8000_0000_0000_0000
  const MAX_INT64: int := 0x7FFF_FFFF_FFFF_FFFF

  predicate InInt64(n: int) {
    MIN_INT64 <= n <= MAX_INT64
  }

  /** The value of a run of decimal digits, most significant digit first. */
  function DigitsValue(s: seq<byte>): nat
    requires AllDigits(s)
  {
    if s == [] then 0 else DigitsValue(s[..|s| - 1]) * 10 + (s[|s| - 1] - ZERO) as int
  }

  /**
   * `strconv.Atoi(s)`: `None` stands for the non-nil error, which it returns
   * for text that is not a sign and digits and for a value outside `int64`.
   */
  function Atoi(s: seq<byte>): (r: Option<int>)
    ensures r.Some? ==> InInt64(r.value)
    ensures r.Some? ==> |s| > 0 && (IsDigit(s[0]) || |s| > 1) && forall k :: 0 < k < |s| ==> IsDigit(s[k])
    ensures r.Some? ==> IsDigit(s[0]) || s[0] == PLUS || s[0] == MINUS
    ensures r.Some? && r.value < 0 ==> s[0] == MINUS
  {
    var v :=
      if |s| == 0 then None
      else if s[0] == PLUS || s[0] == MINUS then
        if |s| > 1 && AllDigits(s[1..]) then
          Some(if s[0] == MINUS then 0 - DigitsValue(s[1..]) else DigitsValue(s[1..]) as int)
        else None
      else if AllDigits(s) then Some(DigitsValue(s))
      else None;
    if v.Some? && InInt64(v.value) then v else None
  }

  /** The shortest decimal spelling of a natural number. */
  function Digits(n: nat): (s: seq<byte>)
    ensures |s| > 0 && AllDigits(s)
  {
    if n < 10 then [ZERO + n as byte] else Digits(n / 10) + [ZERO + (n % 10) as byte]
  }

  /** The decimal spelling of an integer, with a leading '-' when negative. */
  function FormatInt(n: int): seq<byte> {
    if n < 0 then [MINUS] + Digits(-n) else Digits(n)
  }

  lemma {:induction false} DigitsValueOfDigits(n: nat)
    ensures DigitsValue(Digits(n)) == n
  {
    if n >= 10 {
      var s := Digits(n);
      assert s[..|s| - 1] == Digits(n / 10);
      DigitsValueOfDigits(n / 10);
    }
  }

  /**
   * Atoi accepts the decimal spelling of an integer exactly when the integer
   * fits in `int64`, and then gives back that integer, also with an
   * explicit '+' in front of a non-negative one.
   */
  lemma AtoiFormatInt(n: int)
    ensures Atoi(FormatInt(n)) == if InInt64(n) then Some(n) else None
    ensures n >= 0 ==> Atoi([PLUS] + FormatInt(n)) == if InInt64(n) then Some(n) else None
  {
    if n < 0 {
      DigitsValueOfDigits(-n);
      assert FormatInt(n)[1..] == Digits(-n);
    } else {
      DigitsValueOfDigits(n);
      assert ([PLUS] + FormatInt(n))[1..] == Digits(n);
    }
  }

  lemma {:induction false} DigitsValueLeadingZero(s: seq<byte>)
    requires AllDigits(s)
    ensures AllDigits([ZERO] + s) && DigitsValue([ZERO] + s) == DigitsValue(s)
  {
    if s != [] {
      var n := |s| - 1;
      DigitsValueLeadingZero(s[..n]);
      assert ([ZERO] + s)[..|s|] == [ZERO] + s[..n];
    }
  }

  /** A leading zero changes nothing: "007" is read as 7, however many zeros come first. */
  lemma AtoiLeadingZero(s: seq<byte>)
    requires s != [] && AllDigits(s)
    ensures Atoi([ZERO] + s) == Atoi(s)
  {
    DigitsValueLeadingZero(s);
  }

  /** Text with a byte that is neither a digit nor a leading sign is rejected. */
  lemma AtoiRejectsNonDigit(s: seq<byte>, k: nat)
    requires k < |s| && !IsDigit(s[k])
    requires k > 0 || (s[0] != PLUS && s[0] != MINUS)
    ensures Atoi(s) == None
  {
    if |s| > 1 && (s[0] == PLUS || s[0] == MINUS) {
      assert s[1..][k - 1] == s[k];
    }
  }
}
