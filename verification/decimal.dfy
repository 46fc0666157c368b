/** Decimal integers as text: the subset of Go's `strconv.Atoi` that a
    base-10 `Content-Length` goes through, and the `%d` formatting that
    writes one. Go's `int` is 64 bits wide here, so both are bounded by
    the signed 64-bit range. */
module Decimal {
  import opened Tokens

  const MinInt64: int := -0x8000_0000_0000_0000
  const MaxInt64: int := 0x7FFF_FFFF_FFFF_FFFF

  predicate InInt64(n: int) {
    MinInt64 <= n <= MaxInt64
  }

  predicate IsDigit(b: Byte) {
    '0' <= b <= '9'
  }

  predicate AllDigits(s: Bytes) {
    forall i :: 0 <= i < |s| ==> IsDigit(s[i])
  }

  function DigitValue(b: Byte): nat
    requires IsDigit(b)
  {
    b as int - '0' as int
  }

  function DigitByte(d: nat): (b: Byte)
    requires d < 10
    ensures IsDigit(b) && DigitValue(b) == d
  {
    (d + '0' as int) as char
  }

  /** The number a non-empty run of decimal digits denotes, most
      significant digit first; leading zeros are allowed. */
  function ValueOf(s: Bytes): nat
    requires AllDigits(s)
  {
    if |s| == 0 then 0 else ValueOf(s[..|s| - 1]) * 10 + DigitValue(s[|s| - 1])
  }

  /** Go's `strconv.Atoi` in base 10: an optional `+` or `-`, then at least
      one decimal digit, and the value must fit a signed 64-bit `int`;
      everything else is an error (`None`). */
  function Atoi(s: Bytes): (r: Option<int>)
    ensures r.Some? <==>
      var digits := if |s| > 0 && (s[0] == '+' || s[0] == '-') then s[1..] else s;
      && |digits| > 0
      && AllDigits(digits)
      && InInt64(if s[0] == '-' then -(ValueOf(digits) as int) else ValueOf(digits))
    ensures r.Some? && s[0] != '-' ==> r.value >= 0
    ensures r.Some? ==> InInt64(r.value)
  {
    var digits := if |s| > 0 && (s[0] == '+' || s[0] == '-') then s[1..] else s;
    if |digits| == 0 || !AllDigits(digits) then None
    else
      var v := if s[0] == '-' then -(ValueOf(digits) as int) else ValueOf(digits);
      if InInt64(v) then Some(v) else None
  }

  /** The decimal digits of `m`, with no leading zero except for `0`
      itself. */
  function Digits(m: nat): (r: Bytes)
    ensures |r| > 0 && AllDigits(r)
    ensures r[0] == '0' ==> m == 0
  {
    if m < 10 then [DigitByte(m)] else Digits(m / 10) + [DigitByte(m % 10)]
  }

  /** `fmt.Sprintf("%d", n)`: a `-` for negative numbers, then the digits
      of the magnitude. */
  function FormatInt(n: int): (r: Bytes)
    ensures |r| > 0
    ensures n >= 0 <==> r[0] != '-'
  {
    if n < 0 then "-" + Digits(-n) else Digits(n)
  }

  lemma {:induction false} ValueOfDigits(m: nat)
    ensures ValueOf(Digits(m)) == m
    decreases m
  {
    if m >= 10 {
      var d := Digits(m);
      assert d[..|d| - 1] == Digits(m / 10);
      ValueOfDigits(m / 10);
    }
  }

  /** Formatting then parsing gives the number back, for every 64-bit
      integer: a `Content-Length` the server writes is one it reads. */
  lemma AtoiFormatInt(n: int)
    requires InInt64(n)
    ensures Atoi(FormatInt(n)) == Some(n)
  {
    if n < 0 {
      var d := Digits(-n);
      assert Atoi(['-'] + d) == Some(n) by {
        ValueOfDigits(-n);
        AtoiSigned('-', d);
      }
      assert FormatInt(n) == ['-'] + d;
    } else {
      assert Atoi(Digits(n)) == Some(n) by {
        ValueOfDigits(n);
        AtoiUnsigned(Digits(n));
      }
    }
  }

  /** `k` zero digits. */
  function Zeros(k: nat): (z: Bytes)
    ensures |z| == k && AllDigits(z)
    ensures forall i :: 0 <= i < k ==> z[i] == '0'
  {
    if k == 0 then [] else Zeros(k - 1) + "0"
  }

  /** Zero digits denote zero. */
  lemma {:induction false} ValueOfAllZeros(k: nat)
    ensures ValueOf(Zeros(k)) == 0
    decreases k
  {
    if k > 0 {
      var z := Zeros(k);
      assert z[..k - 1] == Zeros(k - 1) && z[k - 1] == '0';
      ValueOfAllZeros(k - 1);
      assert ValueOf(z) == ValueOf(Zeros(k - 1)) * 10 + DigitValue('0');
    }
  }

  /** Leading zeros do not change the value of a digit string. */
  lemma {:induction false} ValueOfZeros(k: nat, d: Bytes)
    requires AllDigits(d)
    ensures AllDigits(Zeros(k) + d) && ValueOf(Zeros(k) + d) == ValueOf(d)
    decreases |d|
  {
    var s := Zeros(k) + d;
    assert AllDigits(s) by {
      forall i | 0 <= i < |s| ensures IsDigit(s[i]) {
        if i >= k {
          assert s[i] == d[i - k];
        }
      }
    }
    if |d| == 0 {
      assert s == Zeros(k);
      ValueOfAllZeros(k);
    } else {
      assert s[..|s| - 1] == Zeros(k) + d[..|d| - 1];
      assert s[|s| - 1] == d[|d| - 1];
      ValueOfZeros(k, d[..|d| - 1]);
    }
  }

  /** The value `Atoi` returns: for no sign, `+` or `-`, then any number
      of leading zeros, then the digits of `m`, it is `m`, negated after
      a `-`, whenever that fits 64 bits. */
  lemma AtoiValue(sign: Bytes, k: nat, m: nat)
    requires sign == [] || sign == "+" || sign == "-"
    requires InInt64(if sign == "-" then -(m as int) else m)
    ensures Atoi(sign + Zeros(k) + Digits(m)) == Some(if sign == "-" then -(m as int) else m)
  {
    var d := Zeros(k) + Digits(m);
    assert sign + Zeros(k) + Digits(m) == sign + d;
    assert |d| > 0 && AllDigits(d) && ValueOf(d) == m by {
      ValueOfZeros(k, Digits(m));
      ValueOfDigits(m);
    }
    if sign == [] {
      assert sign + d == d;
      AtoiUnsigned(d);
    } else {
      assert sign == [sign[0]];
      AtoiSigned(sign[0], d);
    }
  }

  /** Unsigned digits up to the 64-bit maximum parse to their value. */
  lemma AtoiUnsigned(d: Bytes)
    requires |d| > 0 && AllDigits(d) && ValueOf(d) <= MaxInt64
    ensures Atoi(d) == Some(ValueOf(d))
  {
    assert IsDigit(d[0]);
  }

  /** A sign then digits parse to the digits' value, negated after `-`. */
  lemma AtoiSigned(c: Byte, d: Bytes)
    requires c == '+' || c == '-'
    requires |d| > 0 && AllDigits(d)
    requires InInt64(if c == '-' then -(ValueOf(d) as int) else ValueOf(d))
    ensures Atoi([c] + d) == Some(if c == '-' then -(ValueOf(d) as int) else ValueOf(d))
  {
    var s := [c] + d;
    assert |s| > 0 && (s[0] == '+' || s[0] == '-') && s[1..] == d;
    var v := if c == '-' then -(ValueOf(d) as int) else ValueOf(d);
    assert v == if s[0] == '-' then -(ValueOf(s[1..]) as int) else ValueOf(s[1..]);
  }
}
