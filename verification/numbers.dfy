/** Decimal text and numbers: Python 2 `int(field)`, `float(field)`, `'%d' % n`,
    `str(n)` and `'%04d' % n` on the fields the scripts handle. */
module Numbers {
  import opened Results
  import opened Text

  predicate IsDigit(c: char) {
    '0' <= c <= '9'
  }

  predicate AllDigits(s: string) {
    forall i :: 0 <= i < |s| ==> IsDigit(s[i])
  }

  function DigitValue(c: char): nat
    requires IsDigit(c)
  {
    (c as int) - ('0' as int)
  }

  function DigitChar(d: nat): (c: char)
    requires d < 10
    ensures IsDigit(c) && DigitValue(c) == d
  {
    (('0' as int) + d) as char
  }

  /** The number a string of decimal digits denotes (the empty string denotes 0). */
  function DigitsValue(s: string): nat
    requires AllDigits(s)
  {
    if |s| == 0 then 0 else DigitsValue(s[..|s| - 1]) * 10 + DigitValue(s[|s| - 1])
  }

  function Pow10(k: nat): (p: nat)
    ensures p > 0
  {
    if k == 0 then 1 else 10 * Pow10(k - 1)
  }

  /** The canonical decimal digits of `n`: no leading zero, and they denote `n`. */
  function Digits(n: nat): (s: string)
    ensures |s| > 0 && AllDigits(s)
    ensures |s| == 1 || s[0] != '0'
    ensures DigitsValue(s) == n
  {
    if n < 10 then [DigitChar(n)]
    else
      var s := Digits(n / 10) + [DigitChar(n % 10)];
      assert s[..|s| - 1] == Digits(n / 10);
      s
  }

  /** A number below `10^k` has at most `k` digits. */
  lemma {:induction false} DigitsLength(n: nat, k: nat)
    requires k > 0 && n < Pow10(k)
    ensures |Digits(n)| <= k
    decreases k
  {
    if n >= 10 {
      assert k > 1;
      assert n / 10 < Pow10(k - 1);
      DigitsLength(n / 10, k - 1);
    }
  }

  /** `'%d' % n` and `str(n)`: a minus sign for negative numbers, then the digits. */
  function FormatInt(n: int): string {
    if n < 0 then "-" + Digits(-n) else Digits(n)
  }

  function Zeros(k: int): (z: string)
    ensures |z| == (if k <= 0 then 0 else k)
    ensures forall i :: 0 <= i < |z| ==> z[i] == '0'
  {
    if k <= 0 then "" else "0" + Zeros(k - 1)
  }

  /** `'%0Wd' % n`: zeros inserted after the sign until the text is `width` long; never truncated. */
  function FormatPadded(n: int, width: nat): string {
    if n < 0 then "-" + (Zeros(width - 1 - |Digits(-n)|) + Digits(-n))
    else Zeros(width - |Digits(n)|) + Digits(n)
  }

  /** Python 2 `int(field)` on a whitespace-free field: an optional sign, then one or more digits. */
  function ParseInt(s: string): Result<int> {
    if |s| > 0 && (s[0] == '-' || s[0] == '+') then
      if |s| > 1 && AllDigits(s[1..]) then
        Ok(if s[0] == '-' then -(DigitsValue(s[1..]) as int) else DigitsValue(s[1..]))
      else Err(ValueError)
    else if |s| > 0 && AllDigits(s) then Ok(DigitsValue(s))
    else Err(ValueError)
  }

  /** Position of the first `c` in `s`, or `|s|` when there is none. */
  function IndexOf(s: string, c: char): (k: nat)
    ensures k <= |s|
    ensures k < |s| ==> s[k] == c
    ensures forall i :: 0 <= i < k ==> s[i] != c
  {
    if |s| == 0 then 0 else if s[0] == c then 0 else 1 + IndexOf(s[1..], c)
  }

  /** Python 2 `float(field)` on a field without sign, in plain decimal notation. */
  function ParseUnsignedDecimal(s: string): Result<real> {
    var dot := IndexOf(s, '.');
    var whole := s[..dot];
    var fraction := if dot < |s| then s[dot + 1..] else "";
    if AllDigits(whole) && AllDigits(fraction) && |whole| + |fraction| > 0 then
      Ok(DigitsValue(whole) as real + (DigitsValue(fraction) as real) / (Pow10(|fraction|) as real))
    else Err(ValueError)
  }

  /** Python 2 `float(field)` on a whitespace-free field in plain decimal notation. */
  function ParseDecimal(s: string): Result<real> {
    if |s| > 0 && (s[0] == '-' || s[0] == '+') then
      var m :- ParseUnsignedDecimal(s[1..]);
      Ok(if s[0] == '-' then -m else m)
    else ParseUnsignedDecimal(s)
  }

  /** The text `ParseUnsignedDecimal` accepts: digits with at most one '.', and at least one digit. */
  predicate UnsignedDecimalSyntax(s: string) {
    && (forall i :: 0 <= i < |s| ==> IsDigit(s[i]) || s[i] == '.')
    && (forall i, j :: 0 <= i < j < |s| && s[i] == '.' ==> s[j] != '.')
    && (exists i :: 0 <= i < |s| && IsDigit(s[i]))
  }

  /** The text `ParseDecimal` accepts: an optional sign, then unsigned decimal syntax. */
  predicate DecimalSyntax(s: string) {
    if |s| > 0 && (s[0] == '-' || s[0] == '+') then UnsignedDecimalSyntax(s[1..])
    else UnsignedDecimalSyntax(s)
  }

  // ---------------------------------------------------------------------------
  // Round trips and agreement lemmas

  /** `int()` reads back what `%d` writes. */
  lemma {:induction false} ParseFormatInt(n: int)
    ensures ParseInt(FormatInt(n)) == Ok(n)
  {
    if n < 0 {
      var s := FormatInt(n);
      assert s[1..] == Digits(-n);
    }
  }

  /** What `%d` writes is a single field for `split()`. */
  lemma {:induction false} FormatIntIsWord(n: int)
    ensures IsWord(FormatInt(n))
  {
    var s := FormatInt(n);
    forall i | 0 <= i < |s| ensures !IsSpace(s[i]) {
      if n < 0 && i > 0 {
        assert s[i] == Digits(-n)[i - 1];
      }
    }
  }

  /** Leading zeros do not change the value of a digit string. */
  lemma {:induction false} DigitsValueLeadingZeros(k: int, s: string)
    requires AllDigits(s)
    ensures AllDigits(Zeros(k) + s)
    ensures DigitsValue(Zeros(k) + s) == DigitsValue(s)
    decreases |s|
  {
    var z := Zeros(k);
    var t := z + s;
    assert AllDigits(t) by {
      forall i | 0 <= i < |t| ensures IsDigit(t[i]) {
        if i < |z| { assert t[i] == z[i]; } else { assert t[i] == s[i - |z|]; }
      }
    }
    if |s| == 0 {
      assert t == z;
      ZerosValue(k);
    } else {
      assert t[..|t| - 1] == z + s[..|s| - 1];
      DigitsValueLeadingZeros(k, s[..|s| - 1]);
    }
  }

  lemma {:induction false} ZerosValue(k: int)
    ensures AllDigits(Zeros(k)) && DigitsValue(Zeros(k)) == 0
    decreases k
  {
    if k > 0 {
      var z := Zeros(k);
      assert z == Zeros(k - 1) + "0" by { ZerosSnoc(k); }
      assert z[..|z| - 1] == Zeros(k - 1);
      ZerosValue(k - 1);
    }
  }

  lemma {:induction false} ZerosSnoc(k: int)
    requires k > 0
    ensures Zeros(k) == Zeros(k - 1) + "0"
    decreases k
  {
    if k > 1 {
      ZerosSnoc(k - 1);
    }
  }

  /** `'%0Wd' % n` is `width` characters long when the number fits, longer only when it does not,
      and `int()` reads the number back. */
  lemma {:induction false} FormatPaddedRoundTrip(n: int, width: nat)
    ensures |FormatPadded(n, width)| == (if |FormatInt(n)| < width then width else |FormatInt(n)|)
    ensures ParseInt(FormatPadded(n, width)) == Ok(n)
  {
    FormatPaddedLength(n, width);
    if n < 0 {
      PaddedNegative(n, width);
    } else {
      PaddedNonNegative(n, width);
    }
  }

  lemma {:induction false} FormatPaddedLength(n: int, width: nat)
    ensures |FormatPadded(n, width)| == (if |FormatInt(n)| < width then width else |FormatInt(n)|)
  {
  }

  lemma {:induction false} PaddedNonNegative(n: nat, width: nat)
    ensures ParseInt(FormatPadded(n, width)) == Ok(n)
  {
    var d := Digits(n);
    ParsePaddedDigits(width - |d|, d);
  }

  lemma {:induction false} PaddedNegative(n: int, width: nat)
    requires n < 0
    ensures ParseInt(FormatPadded(n, width)) == Ok(n)
  {
    var d := Digits(-n);
    ParsePaddedDigits(width - 1 - |d|, d);
  }

  /** `int()` reads zero-padded digits, with or without a minus sign in front, as the number
      the digits denote. */
  lemma {:induction false} ParsePaddedDigits(k: int, d: string)
    requires |d| > 0 && AllDigits(d)
    ensures ParseInt(Zeros(k) + d) == Ok(DigitsValue(d) as int)
    ensures ParseInt("-" + (Zeros(k) + d)) == Ok(-(DigitsValue(d) as int))
  {
    var u := Zeros(k) + d;
    DigitsValueLeadingZeros(k, d);
    assert IsDigit(u[0]);
    var s := "-" + u;
    assert s[0] == '-' && s[1..] == u;
  }

  /** A field `int()` accepts is read by `float()` as the same number. */
  lemma {:induction false} ParseDecimalOfInt(s: string, n: int)
    requires ParseInt(s) == Ok(n)
    ensures ParseDecimal(s) == Ok(n as real)
  {
    if |s| > 0 && (s[0] == '-' || s[0] == '+') {
      UnsignedOfDigits(s[1..]);
    } else {
      UnsignedOfDigits(s);
    }
  }

  lemma {:induction false} UnsignedOfDigits(s: string)
    requires |s| > 0 && AllDigits(s)
    ensures ParseUnsignedDecimal(s) == Ok(DigitsValue(s) as real)
  {
    var dot := IndexOf(s, '.');
    assert forall i :: 0 <= i < |s| ==> s[i] != '.' by {
      forall i | 0 <= i < |s| ensures s[i] != '.' {
        assert IsDigit(s[i]);
      }
    }
    assert dot == |s|;
    assert s[..dot] == s;
    assert DigitsValue("") == 0 && Pow10(0) == 1;
    assert ParseUnsignedDecimal(s) == Ok(DigitsValue(s) as real + (DigitsValue("") as real) / (Pow10(0) as real));
  }

  /** `float()` succeeds exactly on the plain decimal syntax. */
  lemma {:induction false} ParseDecimalSyntax(s: string)
    ensures ParseDecimal(s).Ok? <==> DecimalSyntax(s)
  {
    if |s| > 0 && (s[0] == '-' || s[0] == '+') {
      ParseUnsignedSyntax(s[1..]);
    } else {
      ParseUnsignedSyntax(s);
    }
  }

  lemma {:induction false} ParseUnsignedSyntax(s: string)
    ensures ParseUnsignedDecimal(s).Ok? <==> UnsignedDecimalSyntax(s)
  {
    var dot := IndexOf(s, '.');
    var whole := s[..dot];
    var fraction := if dot < |s| then s[dot + 1..] else "";
    if ParseUnsignedDecimal(s).Ok? {
      forall i | 0 <= i < |s| ensures IsDigit(s[i]) || s[i] == '.' {
        if i < dot { assert s[i] == whole[i]; }
        else if i > dot { assert s[i] == fraction[i - dot - 1]; }
      }
      forall i, j | 0 <= i < j < |s| && s[i] == '.' ensures s[j] != '.' {
        assert i == dot;
        assert s[j] == fraction[j - dot - 1];
      }
      if |whole| > 0 {
        assert IsDigit(s[0]);
      } else {
        assert IsDigit(s[dot + 1]) by { assert s[dot + 1] == fraction[0]; }
      }
    }
    if UnsignedDecimalSyntax(s) {
      var k :| 0 <= k < |s| && IsDigit(s[k]);
      assert AllDigits(whole);
      assert AllDigits(fraction) by {
        forall i | 0 <= i < |fraction| ensures IsDigit(fraction[i]) {
          assert fraction[i] == s[dot + 1 + i];
        }
      }
      if k < dot {
        assert whole[k] == s[k];
      } else {
        assert k != dot;
        assert fraction[k - dot - 1] == s[k];
      }
    }
  }
}
