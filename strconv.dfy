/** Decimal integer text as the Go standard library reads and writes it:
    the syntax accepted by `strconv.Atoi`, and the `%d` verb of `fmt`
    applied to a non-negative integer. */
module Strconv {

  datatype Option<T> = None | Some(value: T)

  predicate IsDigit(c: char) {
    '0' <= c <= '9'
  }

  predicate AllDigits(s: string) {
    forall i :: 0 <= i < |s| ==> IsDigit(s[i])
  }

  function DigitValue(c: char): (d: nat)
    requires IsDigit(c)
    ensures d < 10
  {
    c as int - '0' as int
  }

  function DigitChar(d: nat): (c: char)
    requires d < 10
    ensures IsDigit(c) && DigitValue(c) == d
  {
    ('0' as int + d) as char
  }

  /** The number a string of decimal digits denotes, most significant digit first. */
  function DigitsValue(s: string): nat
    requires AllDigits(s)
  {
    if |s| == 0 then 0 else DigitsValue(s[..|s| - 1]) * 10 + DigitValue(s[|s| - 1])
  }

  /** `fmt.Sprintf("%d", n)` for n >= 0: the shortest digit string, no leading zero. */
  function DecimalString(n: nat): string {
    if n < 10 then [DigitChar(n)] else DecimalString(n / 10) + [DigitChar(n % 10)]
  }

  /** What `%d` writes is a non-empty string of digits without a leading zero. */
  lemma {:induction false} DecimalStringDigits(n: nat)
    ensures 1 <= |DecimalString(n)| && AllDigits(DecimalString(n))
    ensures |DecimalString(n)| > 1 ==> DecimalString(n)[0] != '0'
  {
    if n >= 10 {
      DecimalStringDigits(n / 10);
    }
  }

  /** The canonical text of an integer, as `fmt.Sprintf("%d", v)` writes it for any
      sign: a minus sign for negative values, then the digits of |v|. */
  function Itoa(v: int): string {
    if v < 0 then "-" + DecimalString(-v) else DecimalString(v)
  }

  /** `strconv.Atoi(s)` up to its syntax: one optional '+' or '-', then at least one
      decimal digit and nothing else. Every other string (the empty string included)
      is a syntax error, reported here as None. */
  function Atoi(s: string): (r: Option<int>)
    ensures |s| == 0 ==> r == None
    ensures r.Some? ==> forall i :: 0 < i < |s| ==> IsDigit(s[i])
    ensures r.Some? && r.value < 0 ==> s[0] == '-'
    ensures |s| > 0 && AllDigits(s) ==> r == Some(DigitsValue(s))
    ensures |s| > 1 && s[0] == '+' && AllDigits(s[1..]) ==> r == Some(DigitsValue(s[1..]))
    ensures |s| > 1 && s[0] == '-' && AllDigits(s[1..]) ==> r == Some(-(DigitsValue(s[1..]) as int))
  {
    var digits := if |s| > 0 && (s[0] == '+' || s[0] == '-') then s[1..] else s;
    if |digits| > 0 && AllDigits(digits) then
      var magnitude: int := DigitsValue(digits);
      Some(if s[0] == '-' then -magnitude else magnitude)
    else
      None
  }

  /** Reading back what `%d` wrote gives the number again. */
  lemma {:induction false} DigitsValueOfDecimalString(n: nat)
    ensures AllDigits(DecimalString(n)) && DigitsValue(DecimalString(n)) == n
  {
    DecimalStringDigits(n);
    var s := DecimalString(n);
    if n >= 10 {
      DigitsValueOfDecimalString(n / 10);
      assert s[..|s| - 1] == DecimalString(n / 10);
    }
  }

  /** Round trip: Atoi accepts every string Itoa produces and returns the number written. */
  lemma AtoiItoa(v: int)
    ensures Atoi(Itoa(v)) == Some(v)
  {
    var digits := DecimalString(if v < 0 then -v else v);
    DigitsValueOfDecimalString(if v < 0 then -v else v);
    if v < 0 {
      assert Itoa(v) == "-" + digits;
      assert ("-" + digits)[1..] == digits;
    } else {
      assert Itoa(v) == digits;
      assert digits[0] != '+' && digits[0] != '-' by {
        assert IsDigit(digits[0]);
      }
    }
  }

  /** `k` zero digits. */
  function Zeros(k: nat): (z: string)
    ensures |z| == k && AllDigits(z)
  {
    if k == 0 then "" else "0" + Zeros(k - 1)
  }

  /** One leading zero does not change the value of a digit string. */
  lemma {:induction false} DigitsValueLeadingZero(d: string)
    requires AllDigits(d)
    ensures AllDigits("0" + d) && DigitsValue("0" + d) == DigitsValue(d)
    decreases |d|
  {
    var t := "0" + d;
    assert AllDigits(t) by {
      forall i | 0 <= i < |t| ensures IsDigit(t[i]) {
        if i > 0 { assert t[i] == d[i - 1]; }
      }
    }
    if |d| == 0 {
      assert t[..0] == "";
    } else {
      var init := d[..|d| - 1];
      DigitsValueLeadingZero(init);
      assert t[..|t| - 1] == "0" + init;
      assert t[|t| - 1] == d[|d| - 1];
    }
  }

  /** Leading zeros do not change the value of a digit string. */
  lemma {:induction false} DigitsValueZeroPadded(k: nat, d: string)
    requires AllDigits(d)
    ensures AllDigits(Zeros(k) + d) && DigitsValue(Zeros(k) + d) == DigitsValue(d)
  {
    if k > 0 {
      var rest := Zeros(k - 1) + d;
      DigitsValueZeroPadded(k - 1, d);
      DigitsValueLeadingZero(rest);
      assert Zeros(k) + d == "0" + rest;
    } else {
      assert Zeros(k) + d == d;
    }
  }

  /** Atoi reads an optional sign followed by a non-empty digit string as the
      value of those digits, negated after '-'. */
  lemma AtoiSigned(sign: string, d: string, v: nat)
    requires sign == "" || sign == "+" || sign == "-"
    requires |d| > 0 && AllDigits(d) && DigitsValue(d) == v
    ensures Atoi(sign + d) == Some(if sign == "-" then -(v as int) else v)
  {
    var t := sign + d;
    if sign == "" {
      assert t == d;
    } else {
      assert t[0] == sign[0] && t[1..] == d;
    }
  }

  /** Atoi reads any well-formed text of a number: an optional '+' or '-', any number
      of leading zeros, then the digits of the magnitude. So "+1500" and "01500" are
      1500, and "-0" is 0. */
  lemma AtoiSignedPadded(sign: string, k: nat, m: nat)
    requires sign == "" || sign == "+" || sign == "-"
    ensures Atoi(sign + (Zeros(k) + DecimalString(m))) == Some(if sign == "-" then -(m as int) else m)
  {
    var d := Zeros(k) + DecimalString(m);
    PaddedDecimalString(k, m, d);
    AtoiSigned(sign, d, m);
  }

  /** `%d`'s text after any number of leading zeros is a digit string denoting the same number. */
  lemma PaddedDecimalString(k: nat, m: nat, d: string)
    requires d == Zeros(k) + DecimalString(m)
    ensures |d| > 0 && AllDigits(d) && DigitsValue(d) == m
  {
    DigitsValueOfDecimalString(m);
    DecimalStringDigits(m);
    DigitsValueZeroPadded(k, DecimalString(m));
  }

  /** A text without any digit, such as "", "+" or "-", is a syntax error. */
  lemma AtoiNeedsADigit(s: string)
    requires forall i :: 0 <= i < |s| ==> !IsDigit(s[i])
    ensures Atoi(s) == None
  {
    if |s| > 1 {
      assert !IsDigit(s[1]);
    }
  }

  /** A character other than a digit anywhere after the optional sign is a syntax error. */
  lemma AtoiRejectsNonDigit(s: string, i: nat)
    requires i < |s| && !IsDigit(s[i])
    requires i == 0 ==> s[0] != '+' && s[0] != '-'
    ensures Atoi(s) == None
  {
  }
}
