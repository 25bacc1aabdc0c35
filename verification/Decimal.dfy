/** Decimal text: how numbers are printed into file names and parsed back. */
module Decimal {
  import opened Basics

  predicate IsDigit(c: char) {
    '0' <= c <= '9'
  }

  predicate AllDigits(s: string) {
    forall i :: 0 <= i < |s| ==> IsDigit(s[i])
  }

  function DigitOf(c: char): nat
    requires IsDigit(c)
  {
    (c - '0') as nat
  }

  function DigitChar(d: nat): char
    requires d < 10
  {
    '0' + d as char
  }

  /** The number a digit string denotes; the empty string denotes 0. */
  function Value(s: string): nat
    requires AllDigits(s)
  {
    if s == "" then 0 else 10 * Value(s[..|s| - 1]) + DigitOf(s[|s| - 1])
  }

  /** The shortest decimal numeral of `n`. */
  function Format(n: nat): string {
    if n < 10 then [DigitChar(n)] else Format(n / 10) + [DigitChar(n % 10)]
  }

  function Zeros(k: nat): (s: string)
    ensures |s| == k && forall i :: 0 <= i < k ==> s[i] == '0'
  {
    seq(k, _ => '0')
  }

  /** Zero-padding to a minimum width: never truncates. */
  function Pad(s: string, width: nat): string {
    if |s| < width then Zeros(width - |s|) + s else s
  }

  /** An integer parse as the standard library does it: an optional `+`, then at least one digit,
      nothing else, and a value below `limit`. */
  function ParseUnsigned(s: string, limit: nat): Option<nat> {
    var digits := if s != "" && s[0] == '+' then s[1..] else s;
    if digits != "" && AllDigits(digits) && Value(digits) < limit then Some(Value(digits)) else None
  }

  /** What is parsed: digits, at least one, after a plus sign or not, worth less than the limit. */
  lemma ParsedIff(s: string, limit: nat, n: nat)
    ensures ParseUnsigned(s, limit) == Some(n) <==>
            exists sign, digits :: SignedDigits(s, sign, digits) && Value(digits) == n < limit
  {
    if ParseUnsigned(s, limit) == Some(n) {
      if s[0] == '+' {
        assert s == "+" + s[1..];
        assert SignedDigits(s, "+", s[1..]);
      } else {
        assert s == "" + s;
        assert SignedDigits(s, "", s);
      }
    }
    if sign, digits :| SignedDigits(s, sign, digits) && Value(digits) == n < limit {
      assert sign == "+" ==> s[1..] == digits;
      assert sign == "" ==> s == digits && IsDigit(s[0]);
    }
  }

  predicate SignedDigits(s: string, sign: string, digits: string) {
    s == sign + digits && (sign == "" || sign == "+") && digits != "" && AllDigits(digits)
  }

  lemma {:induction false} ValueOfFormat(n: nat)
    ensures Format(n) != "" && AllDigits(Format(n)) && Value(Format(n)) == n
  {
    if n >= 10 {
      ValueOfFormat(n / 10);
      assert Format(n)[..|Format(n)| - 1] == Format(n / 10);
    } else {
      assert Format(n)[..0] == "";
    }
  }

  lemma {:induction false} ValueOfZerosThen(k: nat, s: string)
    requires AllDigits(s)
    ensures AllDigits(Zeros(k) + s) && Value(Zeros(k) + s) == Value(s)
  {
    var padded := Zeros(k) + s;
    if s == "" {
      assert padded == Zeros(k);
      if k > 0 {
        assert Zeros(k)[..k - 1] == Zeros(k - 1);
        assert Zeros(k - 1) + "" == Zeros(k - 1);
        ValueOfZerosThen(k - 1, "");
      }
    } else {
      ValueOfZerosThen(k, s[..|s| - 1]);
      assert padded[..|padded| - 1] == Zeros(k) + s[..|s| - 1];
    }
  }

  /** Reading a padded numeral gives the number back, whatever the width. */
  lemma ParseOfPaddedFormat(n: nat, width: nat, limit: nat)
    requires n < limit
    ensures ParseUnsigned(Pad(Format(n), width), limit) == Some(n)
    ensures Pad(Format(n), width) != "" && AllDigits(Pad(Format(n), width))
  {
    ValueOfFormat(n);
    var s := Format(n);
    if |s| < width {
      ValueOfZerosThen(width - |s|, s);
    }
    assert AllDigits(Pad(s, width)) && Value(Pad(s, width)) == n;
    assert IsDigit(Pad(s, width)[0]);
  }

  /** Digits appended to a numeral shift it: the positional meaning of a split numeral. */
  lemma {:induction false} ValueOfConcat(a: string, b: string)
    requires AllDigits(a) && AllDigits(b)
    ensures AllDigits(a + b) && Value(a + b) == Value(a) * Power10(|b|) + Value(b)
  {
    if b == "" {
      assert a + b == a;
    } else {
      var shorter := b[..|b| - 1];
      ValueOfConcat(a, shorter);
      var whole := a + b;
      assert whole[..|whole| - 1] == a + shorter && whole[|whole| - 1] == b[|b| - 1];
      assert Value(whole) == 10 * (Value(a) * Power10(|shorter|) + Value(shorter)) + DigitOf(b[|b| - 1]);
      Shift(Value(a), Power10(|shorter|));
    }
  }

  lemma Shift(a: nat, p: nat)
    ensures 10 * (a * p) == a * (10 * p)
  {
  }

  lemma {:induction false} ValueBelowPower(s: string)
    requires AllDigits(s)
    ensures Value(s) < Power10(|s|)
  {
    if s != "" {
      ValueBelowPower(s[..|s| - 1]);
    }
  }

  function Power10(k: nat): (p: nat)
    ensures p > 0
  {
    if k == 0 then 1 else 10 * Power10(k - 1)
  }
}
