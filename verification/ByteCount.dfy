/** Parsing byte counts such as `1.5 GiB` exactly (src/cli_app.rs). */
module ByteCount {
  import opened Basics
  import opened Decimal

  // ---------- decimal numbers ----------

  /** Position of the first dot, or the length when there is none. */
  function DotAt(s: string): (k: nat)
    ensures k <= |s| && '.' !in s[..k] && (k < |s| ==> s[k] == '.')
  {
    if s == "" || s[0] == '.' then 0
    else
      var k := DotAt(s[1..]);
      assert s[..k + 1] == [s[0]] + s[1..][..k];
      k + 1
  }

  function Whole(number: string): string {
    number[..DotAt(number)]
  }

  /** The text after the first dot, if there is a dot. */
  function Fraction(number: string): Option<string> {
    if DotAt(number) < |number| then Some(number[DotAt(number) + 1..]) else None
  }

  function Digits(fraction: Option<string>): string {
    if fraction.None? then "" else fraction.value
  }

  function FloorDiv(n: nat, d: nat): (q: nat)
    requires d > 0
    ensures q * d <= n < q * d + d
  {
    n / d
  }

  function CheckedMul(a: nat, b: nat): Option<nat> {
    if a * b < U128_LIMIT then Some(a * b) else None
  }

  /** The bytes of the fractional part, computed in 128 bits: None when any step overflows. */
  function FractionBytes(fraction: string, multiplier: nat): Option<nat> {
    if |fraction| >= U32_LIMIT || Power10(|fraction|) >= U128_LIMIT then None
    else
      match ParseUnsigned(fraction, U128_LIMIT)
      case None => None
      case Some(value) =>
        match CheckedMul(value, multiplier)
        case None => None
        case Some(scaled) => Some(FloorDiv(scaled, Power10(|fraction|)))
  }

  /** The whole computation; None for every error. */
  function ParseDecimal(number: string, multiplier: nat): Option<u64> {
    var whole, fraction := Whole(number), Fraction(number);
    if number == "" || '.' in Digits(fraction) then None
    else if whole == "" && Digits(fraction) == "" then None
    else if !AllDigits(whole) then None
    else
      match WholeBytes(whole, multiplier)
      case None => None
      case Some(total) =>
        if Digits(fraction) == "" then Narrow(total)
        else if !AllDigits(Digits(fraction)) then None
        else
          match FractionBytes(Digits(fraction), multiplier)
          case None => None
          case Some(bytes) => if total + bytes < U128_LIMIT then Narrow(total + bytes) else None
  }

  /** The bytes of the whole part, computed in 128 bits; an absent whole part is 0. */
  function WholeBytes(whole: string, multiplier: nat): Option<nat> {
    var value := if whole == "" then Some(0) else ParseUnsigned(whole, U128_LIMIT);
    if value.None? then None else CheckedMul(value.value, multiplier)
  }

  function Narrow(total: nat): Option<u64> {
    if total < U64_LIMIT then Some(total) else None
  }

  // ---------- what it should be ----------

  /** Digits with at most one dot, and at least one digit. */
  predicate WellFormed(number: string) {
    var whole, fraction := Whole(number), Digits(Fraction(number));
    AllDigits(whole) && AllDigits(fraction) && (whole != "" || fraction != "")
  }

  function Scaled(value: nat, multiplier: nat): nat {
    value * multiplier
  }

  /** Digits, or digits around a dot, at least one in all. */
  predicate Shaped(number: string, whole: string, fraction: string) {
    && AllDigits(whole) && AllDigits(fraction) && whole + fraction != ""
    && (number == whole + "." + fraction || (fraction == "" && number == whole))
  }

  /** The floor of the exact decimal times the multiplier. */
  function Exact(number: string, multiplier: nat): nat
    requires WellFormed(number)
  {
    var whole, fraction := Whole(number), Digits(Fraction(number));
    ValueOfConcat(whole, fraction);
    FloorDiv(Scaled(Value(whole + fraction), multiplier), Power10(|fraction|))
  }

  /** The numbers accepted in principle, and what they are worth. */
  lemma WellFormedIff(number: string, multiplier: nat)
    ensures WellFormed(number) <==> exists whole, fraction :: Shaped(number, whole, fraction)
    ensures forall whole, fraction :: Shaped(number, whole, fraction) ==>
              && WellFormed(number) && AllDigits(whole + fraction)
              && Exact(number, multiplier) == FloorDiv(Scaled(Value(whole + fraction), multiplier), Power10(|fraction|))
  {
    if WellFormed(number) {
      var k := DotAt(number);
      assert number == if k < |number| then Whole(number) + "." + Digits(Fraction(number)) else Whole(number);
      assert Shaped(number, Whole(number), Digits(Fraction(number)));
    }
    forall whole, fraction | Shaped(number, whole, fraction)
      ensures Whole(number) == whole && Digits(Fraction(number)) == fraction && AllDigits(whole + fraction)
    {
      ShapeIsUnique(number, whole, fraction);
    }
  }

  lemma ShapeIsUnique(number: string, whole: string, fraction: string)
    requires Shaped(number, whole, fraction)
    ensures Whole(number) == whole && Digits(Fraction(number)) == fraction && AllDigits(whole + fraction)
  {
    var k := DotAt(number);
    forall i | 0 <= i < |whole|
      ensures number[i] != '.'
    {
      assert number[i] == whole[i] && IsDigit(whole[i]);
    }
    forall i | 0 <= i < k
      ensures number[i] != '.'
    {
      assert number[i] in number[..k];
    }
    if number == whole + "." + fraction {
      assert number[|whole|] == '.';
      assert k == |whole|;
    } else {
      assert k == |number|;
    }
  }

  /** The fraction can be scaled in 128 bits. */
  predicate FractionFits(number: string, multiplier: nat)
    requires WellFormed(number)
  {
    var fraction := Digits(Fraction(number));
    fraction == "" || (Power10(|fraction|) < U128_LIMIT && Value(fraction) * multiplier < U128_LIMIT)
  }

  lemma AtLeast(a: int, d: nat)
    requires a >= 1
    ensures a * d >= d
  {
  }

  lemma Distribute(a: int, b: int, d: int)
    ensures (a - b) * d == a * d - b * d
    ensures (a + b) * d == a * d + b * d
  {
  }

  lemma DivIsQuotient(n: nat, d: nat, q: nat, r: nat)
    requires 0 < d && r < d && n == q * d + r
    ensures FloorDiv(n, d) == q
  {
    var q1 := FloorDiv(n, d);
    Distribute(q, q1, d);
    Distribute(q1, q, d);
    if q1 < q {
      AtLeast(q - q1, d);
    } else if q < q1 {
      AtLeast(q1 - q, d);
    }
  }

  /** Splitting off the whole part before the division loses nothing. */
  lemma FloorSplits(w: nat, f: nat, m: nat, s: nat)
    requires s > 0
    ensures FloorDiv((w * s + f) * m, s) == w * m + FloorDiv(f * m, s)
  {
    var scaled := f * m;
    var q := FloorDiv(scaled, s);
    var r := scaled - q * s;
    Distribute(w * s, f, m);
    Distribute(w * m, q, s);
    assert (w * s) * m == (w * m) * s;
    DivIsQuotient((w * s + f) * m, s, w * m + q, r);
  }

  lemma ExactSplits(number: string, multiplier: nat)
    requires WellFormed(number)
    ensures var whole, fraction := Whole(number), Digits(Fraction(number));
            Exact(number, multiplier)
            == Value(whole) * multiplier + FloorDiv(Value(fraction) * multiplier, Power10(|fraction|))
  {
    var whole, fraction := Whole(number), Digits(Fraction(number));
    ValueOfConcat(whole, fraction);
    FloorSplits(Value(whole), Value(fraction), multiplier, Power10(|fraction|));
  }

  lemma DigitsParse(s: string, limit: nat)
    requires AllDigits(s) && s != ""
    ensures ParseUnsigned(s, limit) == if Value(s) < limit then Some(Value(s)) else None
  {
    assert IsDigit(s[0]);
  }

  lemma DigitsHoldNoDot(s: string)
    requires AllDigits(s)
    ensures '.' !in s
  {
  }

  /** The scaled fraction, once its digits are known to be digits. */
  lemma FractionBytesExact(fraction: string, multiplier: nat)
    requires AllDigits(fraction) && fraction != ""
    ensures FractionBytes(fraction, multiplier) ==
            if Power10(|fraction|) < U128_LIMIT && Value(fraction) * multiplier < U128_LIMIT
            then Some(FloorDiv(Value(fraction) * multiplier, Power10(|fraction|))) else None
  {
    DigitsParse(fraction, U128_LIMIT);
    ValueBelowPower(fraction);
    if Power10(|fraction|) < U128_LIMIT {
      SmallPowers(|fraction|);
    }
  }

  /** A scale that fits in 128 bits has at most 38 digits. */
  lemma {:induction false} SmallPowers(k: nat)
    requires Power10(k) < U128_LIMIT
    ensures k < 39
  {
    if k >= 39 {
      PowersIncrease(39, k);
      TenToThe39();
    }
  }

  lemma {:induction false} PowersIncrease(j: nat, k: nat)
    requires j <= k
    ensures Power10(j) <= Power10(k)
    decreases k - j
  {
    if j < k {
      PowersIncrease(j, k - 1);
    }
  }

  lemma {:induction false} PowerSum(j: nat, k: nat)
    ensures Power10(j + k) == Power10(j) * Power10(k)
  {
    if j > 0 {
      PowerSum(j - 1, k);
      assert Power10(j) * Power10(k) == 10 * Power10(j - 1) * Power10(k);
    }
  }

  lemma TenToThe13()
    ensures Power10(13) == 10_000_000_000_000
  {
    assert Power10(4) == 10_000;
    assert Power10(8) == 100_000_000;
    assert Power10(12) == 1_000_000_000_000;
  }

  lemma TenToThe26()
    ensures Power10(26) == 100_000_000_000_000_000_000_000_000
  {
    TenToThe13();
    PowerSum(13, 13);
  }

  lemma TenToThe39()
    ensures Power10(39) == 1_000_000_000_000_000_000_000_000_000_000_000_000_000
  {
    TenToThe13();
    TenToThe26();
    PowerSum(13, 26);
  }

  lemma WholeBytesExact(whole: string, multiplier: nat)
    requires AllDigits(whole) && multiplier > 0
    ensures WholeBytes(whole, multiplier) ==
            if Value(whole) * multiplier < U128_LIMIT then Some(Value(whole) * multiplier) else None
  {
    AtLeastFactor(Value(whole), multiplier);
    if whole != "" {
      DigitsParse(whole, U128_LIMIT);
    }
  }

  lemma AtLeastFactor(a: nat, m: nat)
    requires m > 0
    ensures a <= a * m
  {
  }

  /** Exactly when a number is accepted, and with which value, for every text and multiplier. */
  lemma ParseIsExact(number: string, multiplier: nat)
    requires multiplier > 0
    ensures ParseDecimal(number, multiplier).Some? <==>
            WellFormed(number) && FractionFits(number, multiplier) && Exact(number, multiplier) < U64_LIMIT
    ensures ParseDecimal(number, multiplier).Some? ==>
            ParseDecimal(number, multiplier).value == Exact(number, multiplier)
  {
    var whole, fraction := Whole(number), Digits(Fraction(number));
    if WellFormed(number) {
      DigitsHoldNoDot(fraction);
      ExactSplits(number, multiplier);
      WholeBytesExact(whole, multiplier);
      if fraction != "" {
        FractionBytesExact(fraction, multiplier);
      } else {
        DivIsQuotient(0, 1, 0, 0);
      }
    }
  }

  /** With at most 26 fractional digits and a multiplier up to 2^40, nothing is refused for the
      size of its fraction: a well-formed number is accepted exactly when its floor fits. */
  lemma ShortFractionsAlwaysFit(number: string, multiplier: nat)
    requires WellFormed(number) && |Digits(Fraction(number))| <= 26
    requires 0 < multiplier <= 0x100_0000_0000
    ensures ParseDecimal(number, multiplier).Some? <==> Exact(number, multiplier) < U64_LIMIT
  {
    var fraction := Digits(Fraction(number));
    ValueBelowPower(fraction);
    PowersIncrease(|fraction|, 26);
    TenToThe26();
    Product(Value(fraction), multiplier);
    ParseIsExact(number, multiplier);
  }

  lemma Product(value: nat, multiplier: nat)
    requires value < 100_000_000_000_000_000_000_000_000 && multiplier <= 0x100_0000_0000
    ensures value * multiplier < U128_LIMIT
  {
    assert value * multiplier <= value * 0x100_0000_0000;
  }

  /** A longer fraction can be refused although its value fits: the code, not the value, runs out. */
  lemma LongFractionIsRefused()
    ensures var number := "0." + seq(27, _ => '9');
            && WellFormed(number) && Exact(number, 0x100_0000_0000) < U64_LIMIT
            && ParseDecimal(number, 0x100_0000_0000) == None
  {
    var nines := seq(27, _ => '9');
    var number := "0." + nines;
    assert DotAt(number[1..]) == 0;
    assert DotAt(number) == 1;
    assert Whole(number) == "0" && Digits(Fraction(number)) == nines;
    assert AllDigits(nines) && AllDigits("0");
    Nines(27);
    TenToThe27();
    ParseIsExact(number, 0x100_0000_0000);
    ExactSplits(number, 0x100_0000_0000);
    assert "0"[..0] == "" && Value("0") == 0;
    var scaled := Value(nines) * 0x100_0000_0000;
    assert FloorDiv(scaled, Power10(27)) <= 0x100_0000_0000 by {
      DivIsQuotient(scaled, Power10(27), 0x100_0000_0000 - 1, Power10(27) - 0x100_0000_0000);
    }
  }

  lemma {:induction false} Nines(k: nat)
    ensures var s := seq(k, _ => '9'); AllDigits(s) && Value(s) == Power10(k) - 1
  {
    var s := seq(k, _ => '9');
    if k > 0 {
      Nines(k - 1);
      assert s[..k - 1] == seq(k - 1, _ => '9');
    }
  }

  lemma TenToThe27()
    ensures Power10(27) == 1_000_000_000_000_000_000_000_000_000
  {
    TenToThe26();
  }

  // ---------- suffixes and spacing ----------

  /** Unicode white space, as trimming understands it. */
  predicate IsWhite(c: char) {
    '\t' <= c <= '\r' || c == ' ' || c == '\U{0085}' || c == '\U{00A0}' || c == '\U{1680}'
    || '\U{2000}' <= c <= '\U{200A}' || c == '\U{2028}' || c == '\U{2029}' || c == '\U{202F}'
    || c == '\U{205F}' || c == '\U{3000}'
  }

  function TrimStart(s: string): string {
    if s != "" && IsWhite(s[0]) then TrimStart(s[1..]) else s
  }

  function TrimEnd(s: string): string {
    if s != "" && IsWhite(s[|s| - 1]) then TrimEnd(s[..|s| - 1]) else s
  }

  function Trim(s: string): string {
    TrimEnd(TrimStart(s))
  }

  function LowerChar(c: char): char {
    if 'A' <= c <= 'Z' then c - 'A' + 'a' else c
  }

  function Lower(s: string): string {
    seq(|s|, i requires 0 <= i < |s| => LowerChar(s[i]))
  }

  predicate IsNumeric(c: char) {
    IsDigit(c) || c == '.'
  }

  /** Where the leading digits and dots end. */
  function NumberEnd(s: string): (k: nat)
    ensures k <= |s| && (forall i :: 0 <= i < k ==> IsNumeric(s[i])) && (k < |s| ==> !IsNumeric(s[k]))
  {
    if s == "" || !IsNumeric(s[0]) then 0 else 1 + NumberEnd(s[1..])
  }

  function Multiplier(unit: string): Option<nat> {
    if unit in {"", "b", "byte", "bytes"} then Some(1)
    else if unit in {"k", "kb", "kib"} then Some(0x400)
    else if unit in {"m", "mb", "mib"} then Some(0x10_0000)
    else if unit in {"g", "gb", "gib"} then Some(0x4000_0000)
    else if unit in {"t", "tb", "tib"} then Some(0x100_0000_0000)
    else None
  }

  function Times1024(n: nat): nat {
    if n == 0 then 1 else 1024 * Times1024(n - 1)
  }

  predicate Spells(unit: string, n: nat, ending: string) {
    n < 4 && ending in ["", "b", "ib"] && unit == ["kmgt"[n]] + ending
  }

  /** The n-th unit above bytes multiplies by 1024 to the n: a letter of "kmgt", alone or with "b" or
      "ib"; bytes have names of their own, and there are no other units. */
  lemma MultiplierIsPower(unit: string)
    ensures unit in ["", "b", "byte", "bytes"] ==> Multiplier(unit) == Some(1)
    ensures forall n: nat, ending :: Spells(unit, n, ending) ==> Multiplier(unit) == Some(Times1024(n + 1))
    ensures Multiplier(unit).Some? ==>
              unit in ["", "b", "byte", "bytes"] || exists n: nat, ending :: Spells(unit, n, ending)
  {
    forall n: nat, ending | Spells(unit, n, ending)
      ensures Multiplier(unit) == Some(Times1024(n + 1))
    {
      PowerOfUnit(n, ending);
    }
    if Multiplier(unit).Some? && unit !in ["", "b", "byte", "bytes"] {
      UnitHasShape(unit);
    }
  }

  lemma PowersOf1024()
    ensures Times1024(1) == 0x400 && Times1024(2) == 0x10_0000
    ensures Times1024(3) == 0x4000_0000 && Times1024(4) == 0x100_0000_0000
  {
    assert Times1024(2) == 1024 * Times1024(1);
    assert Times1024(3) == 1024 * Times1024(2);
  }

  lemma PowerOfUnit(n: nat, ending: string)
    requires n < 4 && ending in ["", "b", "ib"]
    ensures Multiplier(["kmgt"[n]] + ending) == Some(Times1024(n + 1))
  {
    PowersOf1024();
    if n == 0 {
      assert "k" + "" == "k" && "k" + "b" == "kb" && "k" + "ib" == "kib";
    } else if n == 1 {
      assert "m" + "" == "m" && "m" + "b" == "mb" && "m" + "ib" == "mib";
    } else if n == 2 {
      assert "g" + "" == "g" && "g" + "b" == "gb" && "g" + "ib" == "gib";
    } else {
      assert "t" + "" == "t" && "t" + "b" == "tb" && "t" + "ib" == "tib";
    }
    assert ["kmgt"[n]] + ending == ["kmgt"[n]] + (if ending == "" then "" else if ending == "b" then "b" else "ib");
    OneLetter(n);
  }

  lemma OneLetter(n: nat)
    requires n < 4
    ensures ["kmgt"[n]] == if n == 0 then "k" else if n == 1 then "m" else if n == 2 then "g" else "t"
  {
  }

  lemma UnitHasShape(unit: string)
    requires Multiplier(unit).Some? && unit !in ["", "b", "byte", "bytes"]
    ensures exists n: nat, ending :: Spells(unit, n, ending)
  {
    var n :=
      if unit in {"k", "kb", "kib"} then 0 else if unit in {"m", "mb", "mib"} then 1
      else if unit in {"g", "gb", "gib"} then 2 else 3;
    var ending := if |unit| == 1 then "" else if |unit| == 2 then "b" else "ib";
    OneLetter(n);
    if n == 0 {
      assert "k" + "" == "k" && "k" + "b" == "kb" && "k" + "ib" == "kib";
    } else if n == 1 {
      assert "m" + "" == "m" && "m" + "b" == "mb" && "m" + "ib" == "mib";
    } else if n == 2 {
      assert "g" + "" == "g" && "g" + "b" == "gb" && "g" + "ib" == "gib";
    } else {
      assert "t" + "" == "t" && "t" + "b" == "tb" && "t" + "ib" == "tib";
    }
    assert Spells(unit, n, ending);
  }

  function ParseByteCount(raw: string): Option<u64> {
    if Trim(raw) == "" then None else ParseParts(NumberText(raw), Multiplier(UnitText(raw)))
  }

  function NumberText(raw: string): string {
    var input := Trim(raw);
    input[..NumberEnd(input)]
  }

  function UnitText(raw: string): string {
    var input := Trim(raw);
    Lower(Trim(input[NumberEnd(input)..]))
  }

  function ParseParts(number: string, multiplier: Option<nat>): Option<u64> {
    match multiplier
    case None => None
    case Some(m) => ParseDecimal(number, m)
  }

  lemma NumericIs(c: char)
    ensures IsNumeric(c) <==> c in "0123456789."
  {
    if IsDigit(c) {
      assert "0123456789."[c as int - 48] == c;
    }
    assert "0123456789."[10] == '.';
  }

  /** White space, by code point: the Unicode property White_Space. */
  lemma WhiteIs(c: char)
    ensures IsWhite(c) <==>
            || 9 <= c as int <= 13 || 0x2000 <= c as int <= 0x200A
            || c as int in {0x20, 0x85, 0xA0, 0x1680, 0x2028, 0x2029, 0x202F, 0x205F, 0x3000}
  {
  }

  /** Lower case: the 26 capital letters become their small ones, all else stays. */
  lemma LowerIs(s: string, i: nat)
    requires i < |s|
    ensures |Lower(s)| == |s|
    ensures forall n :: 0 <= n < 26 && s[i] == "ABCDEFGHIJKLMNOPQRSTUVWXYZ"[n] ==>
              Lower(s)[i] == "abcdefghijklmnopqrstuvwxyz"[n]
    ensures s[i] !in "ABCDEFGHIJKLMNOPQRSTUVWXYZ" ==> Lower(s)[i] == s[i]
  {
    var upper, lower := "ABCDEFGHIJKLMNOPQRSTUVWXYZ", "abcdefghijklmnopqrstuvwxyz";
    forall n | 0 <= n < 26
      ensures upper[n] as int == 65 + n && lower[n] as int == 97 + n
    {
      Letters(n);
    }
    if 'A' <= s[i] <= 'Z' {
      assert upper[s[i] as int - 65] == s[i];
    }
  }

  lemma Letters(n: nat)
    requires n < 26
    ensures "ABCDEFGHIJKLMNOPQRSTUVWXYZ"[n] as int == 65 + n && "abcdefghijklmnopqrstuvwxyz"[n] as int == 97 + n
  {
  }

  predicate AllWhite(s: string) {
    forall i :: 0 <= i < |s| ==> IsWhite(s[i])
  }

  /** No white space at either end. */
  predicate Tight(s: string) {
    s != "" ==> !IsWhite(s[0]) && !IsWhite(s[|s| - 1])
  }

  lemma {:induction false} TrimStartDrops(lead: string, s: string)
    requires AllWhite(lead) && (s != "" ==> !IsWhite(s[0]))
    ensures TrimStart(lead + s) == s
    decreases |lead|
  {
    if lead == "" {
      assert lead + s == s;
    } else {
      assert (lead + s)[1..] == lead[1..] + s;
      TrimStartDrops(lead[1..], s);
    }
  }

  lemma {:induction false} TrimEndDrops(s: string, trail: string)
    requires AllWhite(trail) && (s != "" ==> !IsWhite(s[|s| - 1]))
    ensures TrimEnd(s + trail) == s
    decreases |trail|
  {
    if trail == "" {
      assert s + trail == s;
    } else {
      assert (s + trail)[..|s + trail| - 1] == s + trail[..|trail| - 1];
      TrimEndDrops(s, trail[..|trail| - 1]);
    }
  }

  lemma {:induction false} TrimTight(lead: string, s: string, trail: string)
    requires AllWhite(lead) && AllWhite(trail) && Tight(s)
    ensures Trim(lead + s + trail) == s
  {
    if s == "" {
      assert lead + s + trail == (lead + trail) + "";
      TrimStartDrops(lead + trail, "");
    } else {
      assert lead + s + trail == lead + (s + trail);
      TrimStartDrops(lead, s + trail);
      TrimEndDrops(s, trail);
    }
  }

  lemma {:induction false} NumberEndsAt(number: string, rest: string)
    requires (forall i :: 0 <= i < |number| ==> IsNumeric(number[i])) && (rest != "" ==> !IsNumeric(rest[0]))
    ensures NumberEnd(number + rest) == |number|
    decreases |number|
  {
    if number == "" {
      assert number + rest == rest;
    } else {
      assert (number + rest)[1..] == number[1..] + rest;
      NumberEndsAt(number[1..], rest);
    }
  }

  /** The number of an input and its unit, once the white space around the whole is gone. */
  lemma InputParts(number: string, gap: string, unit: string)
    requires number != "" && (forall i :: 0 <= i < |number| ==> IsNumeric(number[i])) && AllWhite(gap)
    requires if unit == "" then gap == "" else Tight(unit) && !IsNumeric(unit[0])
    ensures Tight(number + (gap + unit)) && NumberEnd(number + (gap + unit)) == |number| && Trim(gap + unit) == unit
  {
    var rest := gap + unit;
    var input := number + rest;
    assert input[0] == number[0];
    assert input[|input| - 1] == if unit == "" then number[|number| - 1] else unit[|unit| - 1];
    assert unit != "" ==> rest[0] == if gap == "" then unit[0] else gap[0];
    NumberEndsAt(number, rest);
    TrimTight(gap, unit, "");
    assert gap + unit + "" == rest;
  }

  /** A number and an optional unit in any letter case, with any white space before, between and
      after, parse as the number times the unit's multiplier; an unknown unit is refused. */
  lemma SpacingAndCaseAreFree(lead: string, number: string, gap: string, unit: string, trail: string)
    requires AllWhite(lead) && AllWhite(gap) && AllWhite(trail)
    requires number != "" && forall i :: 0 <= i < |number| ==> number[i] in "0123456789."
    requires if unit == "" then gap == "" else Tight(unit) && unit[0] !in "0123456789."
    ensures ParseByteCount(lead + number + gap + unit + trail) ==
            match Multiplier(Lower(unit))
            case None => None
            case Some(multiplier) => ParseDecimal(number, multiplier)
  {
    var rest := gap + unit;
    var input := number + rest;
    forall i | 0 <= i < |number|
      ensures IsNumeric(number[i])
    {
      NumericIs(number[i]);
    }
    if unit != "" {
      NumericIs(unit[0]);
    }
    InputParts(number, gap, unit);
    assert lead + number + gap + unit + trail == lead + input + trail;
    TrimTight(lead, input, trail);
    assert input[..|number|] == number && input[|number|..] == rest;
  }

  /** End to end, for every text: what is returned is the exact floor, it fits in 64 bits, and the
      unit is known. */
  lemma ByteCountIsExact(raw: string)
    requires ParseByteCount(raw).Some?
    ensures Multiplier(UnitText(raw)).Some? && WellFormed(NumberText(raw))
    ensures ParseByteCount(raw).value == Exact(NumberText(raw), Multiplier(UnitText(raw)).value) < U64_LIMIT
  {
    MultiplierIsPositive(UnitText(raw));
    ParseIsExact(NumberText(raw), Multiplier(UnitText(raw)).value);
  }

  lemma MultiplierIsPositive(unit: string)
    ensures Multiplier(unit).Some? ==> Multiplier(unit).value > 0
  {
  }
}
