/**
 Numbers as they are written: an optional sign, digits with an optional point, and an optional
 exponent. What they are worth is defined by the place values of their digits; the parser, which
 reads digits from the left and divides by powers of ten, arrives at the same value.
 */
module Numerals {
  import opened Wrappers
  import opened Exprs
  import opened Scanner
  import opened DslParser

  datatype Exponent = Exponent(mark: char, sign: string, digits: string)

  datatype Numeral = Numeral(sign: string, whole: string, fraction: Option<string>, exponent: Option<Exponent>)

  predicate IsSign(c: char) { c == '+' || c == '-' }

  predicate IsSignText(s: string) { s == "" || s == "+" || s == "-" }

  predicate IsExponent(x: Exponent) {
    (x.mark == 'e' || x.mark == 'E') && IsSignText(x.sign) && x.digits != [] && AllDigits(x.digits)
  }

  /** The digits behind the point. */
  function Decimals(n: Numeral): string {
    if n.fraction.Some? then n.fraction.value else []
  }

  /** At least one digit before or behind the point. */
  predicate IsNumeral(n: Numeral) {
    && IsSignText(n.sign) && AllDigits(n.whole) && AllDigits(Decimals(n)) && n.whole + Decimals(n) != []
    && (n.exponent.Some? ==> IsExponent(n.exponent.value))
  }

  type Written = n: Numeral | IsNumeral(n) witness Numeral("", "0", None, None)

  function PointText(n: Numeral): string {
    if n.fraction.Some? then "." + n.fraction.value else []
  }

  function ExponentText(n: Numeral): string {
    if n.exponent.Some? then [n.exponent.value.mark] + (n.exponent.value.sign + n.exponent.value.digits) else []
  }

  function Body(n: Numeral): string {
    n.whole + (PointText(n) + ExponentText(n))
  }

  function NumeralText(n: Numeral): string {
    n.sign + Body(n)
  }

  function Unsigned(n: Written): Written {
    n.(sign := "")
  }

  // ---------------------------------------------------------------- what a numeral is worth

  /** n times ten to the k. */
  function Tenfold(n: nat, k: nat): nat {
    if k == 0 then n else 10 * Tenfold(n, k - 1)
  }

  /** Each digit times ten to the number of digits behind it. */
  function PlaceValue(s: string): nat
    requires AllDigits(s)
  {
    if s == [] then 0 else Tenfold(DigitOf(s[0]), |s| - 1) + PlaceValue(s[1..])
  }

  const DIGITS := "0123456789"

  function DigitOf(c: char): (d: nat)
    requires IsDigit(c)
    ensures d < 10 && DIGITS[d] == c
  {
    c as int - 48
  }

  function Signed(sign: string, v: int): int {
    if sign == "-" then -v else v
  }

  function Power(n: Numeral): int
    requires IsNumeral(n)
  {
    if n.exponent.Some? then Signed(n.exponent.value.sign, PlaceValue(n.exponent.value.digits)) else 0
  }

  function AllOfDigits(n: Numeral): nat
    requires IsNumeral(n)
  {
    PlaceValue(n.whole + Decimals(n))
  }

  /** All digits as one number, with the point moved back over the decimals and then as far as
      the exponent says. */
  function Magnitude(n: Numeral): real
    requires IsNumeral(n)
  {
    TimesTen(AllOfDigits(n) as real, Power(n) - |Decimals(n)|)
  }

  /** Two's complement in 64 bits. */
  predicate FitsI64(v: int) {
    -9223372036854775808 <= v <= 9223372036854775807
  }

  predicate IsInteger(n: Numeral)
    requires IsNumeral(n)
  {
    n.fraction.None? && n.exponent.None? && FitsI64(Signed(n.sign, PlaceValue(n.whole)))
  }

  /** A whole number that fits is an integer, any other numeral a float. */
  function NumeralLiteral(n: Numeral): Literal
    requires IsNumeral(n)
  {
    if IsInteger(n) then Integer(Signed(n.sign, PlaceValue(n.whole)))
    else Float(Finite(if n.sign == "-" then -Magnitude(n) else Magnitude(n)))
  }

  // ---------------------------------------------------------------- digits

  lemma {:induction false} TenfoldTwice(n: nat, a: nat, b: nat)
    ensures Tenfold(Tenfold(n, a), b) == Tenfold(n, a + b)
    decreases b
  {
    if b > 0 { TenfoldTwice(n, a, b - 1); }
  }

  lemma {:induction false} TenfoldSum(m: nat, n: nat, k: nat)
    ensures Tenfold(m + n, k) == Tenfold(m, k) + Tenfold(n, k)
    decreases k
  {
    if k > 0 { TenfoldSum(m, n, k - 1); }
  }

  lemma AllDigitsConcat(a: string, b: string)
    ensures AllDigits(a + b) <==> AllDigits(a) && AllDigits(b)
  {
    assert forall c :: c in a + b <==> c in a || c in b;
  }

  lemma {:induction false} PlaceValueConcat(a: string, b: string)
    requires AllDigits(a) && AllDigits(b)
    ensures AllDigits(a + b) && PlaceValue(a + b) == Tenfold(PlaceValue(a), |b|) + PlaceValue(b)
    decreases |a|
  {
    AllDigitsConcat(a, b);
    if a == [] {
      assert a + b == b;
      TenfoldOfZero(|b|);
    } else {
      PlaceValueConcat(a[1..], b);
      TenfoldTwice(DigitOf(a[0]), |a| - 1, |b|);
      TenfoldSum(Tenfold(DigitOf(a[0]), |a| - 1), PlaceValue(a[1..]), |b|);
      assert (a + b)[1..] == a[1..] + b;
    }
  }

  lemma {:induction false} TenfoldOfZero(k: nat)
    ensures Tenfold(0, k) == 0
  {
    if k > 0 { TenfoldOfZero(k - 1); }
  }

  lemma PlaceValueOfOne(c: char)
    requires IsDigit(c)
    ensures AllDigits([c]) && PlaceValue([c]) == DigitOf(c)
  {
    assert [c][1..] == [] && Tenfold(DigitOf(c), 0) == DigitOf(c);
  }

  /** Reading digits from the left gives their place value. */
  lemma {:induction false} DigitsValueIsPlaceValue(s: string)
    requires AllDigits(s)
    ensures DigitsValue(s) == PlaceValue(s)
    decreases |s|
  {
    if s != [] {
      var (init, last) := (s[..|s| - 1], s[|s| - 1..]);
      assert s == init + last;
      DigitsValueIsPlaceValue(init);
      AllDigitsConcat(init, last);
      PlaceValueConcat(init, last);
      assert s[|s| - 1] in s && last == [s[|s| - 1]];
      PlaceValueOfOne(s[|s| - 1]);
      assert Tenfold(PlaceValue(init), 1) == 10 * Tenfold(PlaceValue(init), 0);
    }
  }

  function Zeros(k: nat): string {
    if k == 0 then [] else Zeros(k - 1) + "0"
  }

  /** Ten to the k. */
  function TenTo(k: nat): nat {
    Tenfold(1, k)
  }

  /** Ten to the k is what 1 followed by k zeros is worth. */
  lemma {:induction false} TenToIsPlaceValue(k: nat)
    ensures AllDigits("1" + Zeros(k)) && DigitsValue("1" + Zeros(k)) == TenTo(k)
    decreases k
  {
    if k == 0 {
      assert "1" + Zeros(0) == "1" && "1"[..0] == [];
      assert DigitsValue("1") == DigitsValue([]) * 10 + DigitValue('1');
    } else {
      TenToIsPlaceValue(k - 1);
      var s := "1" + Zeros(k);
      assert s == ("1" + Zeros(k - 1)) + "0";
      AllDigitsConcat("1" + Zeros(k - 1), "0");
      assert s[..|s| - 1] == "1" + Zeros(k - 1) && s[|s| - 1] == '0';
    }
  }

  function DigitChar(d: nat): char
    requires d < 10
  {
    DIGITS[d]
  }

  /** A natural number in decimal, without leading zeros. */
  function Digits(n: nat): (s: string)
    ensures s != []
  {
    if n < 10 then [DigitChar(n)] else Digits(n / 10) + [DigitChar(n % 10)]
  }

  lemma DigitCharIsDigit(d: nat)
    requires d < 10
    ensures IsDigit(DigitChar(d)) && DigitOf(DigitChar(d)) == d
  {
  }

  lemma {:induction false} DigitsAreDigits(n: nat)
    ensures AllDigits(Digits(n)) && PlaceValue(Digits(n)) == n
    decreases n
  {
    DigitCharIsDigit(n % 10);
    var last := [DigitChar(n % 10)];
    PlaceValueOfOne(DigitChar(n % 10));
    if n < 10 {
      assert Digits(n) == last;
    } else {
      DigitsAreDigits(n / 10);
      PlaceValueConcat(Digits(n / 10), last);
      assert Tenfold(n / 10, 1) == 10 * Tenfold(n / 10, 0);
    }
  }

  // ---------------------------------------------------------------- moving the point

  lemma {:induction false} TimesTenStep(x: real, k: int)
    ensures TimesTen(x * 10.0, k) == TimesTen(x, k) * 10.0 == TimesTen(x, k + 1)
    ensures TimesTen(x / 10.0, k) == TimesTen(x, k) / 10.0 == TimesTen(x, k - 1)
    decreases if k >= 0 then k else -k
  {
    if k > 0 {
      TimesTenStep(x * 10.0, k - 1);
      assert x * 10.0 / 10.0 == x / 10.0 * 10.0 == x;
    } else if k < 0 {
      TimesTenStep(x / 10.0, k + 1);
      assert x * 10.0 / 10.0 == x / 10.0 * 10.0 == x;
    }
  }

  lemma {:induction false} TimesTenTwice(x: real, a: int, b: int)
    ensures TimesTen(TimesTen(x, a), b) == TimesTen(x, a + b)
    decreases if b >= 0 then b else -b
  {
    if b > 0 {
      TimesTenStep(x, a);
      TimesTenTwice(x, a + 1, b - 1);
    } else if b < 0 {
      TimesTenStep(x, a);
      TimesTenTwice(x, a - 1, b + 1);
    }
  }

  lemma {:induction false} TimesTenSum(x: real, y: real, k: int)
    ensures TimesTen(x + y, k) == TimesTen(x, k) + TimesTen(y, k)
    decreases if k >= 0 then k else -k
  {
    if k > 0 {
      TimesTenSum(x * 10.0, y * 10.0, k - 1);
    } else if k < 0 {
      TimesTenSum(x / 10.0, y / 10.0, k + 1);
    }
  }

  lemma {:induction false} TimesTenNat(n: nat, k: nat)
    ensures TimesTen(n as real, k) == Tenfold(n, k) as real
    decreases k
  {
    if k > 0 {
      TimesTenNat(n, k - 1);
      TimesTenStep(n as real, k - 1);
    }
  }

  /** Moving the point k places multiplies by ten to the k, or divides by it. */
  lemma {:induction false} TimesTenExactly(x: real, k: nat)
    ensures TimesTen(x, k) == x * TenTo(k) as real
    ensures TimesTen(x, 0 - k) * TenTo(k) as real == x
    decreases k
  {
    if k > 0 {
      TimesTenExactly(x * 10.0, k - 1);
      TimesTenExactly(x / 10.0, k - 1);
      Regroup(x, TenTo(k - 1) as real, TimesTen(x, 0 - k));
    }
  }

  lemma Regroup(x: real, p: real, y: real)
    ensures x * (10.0 * p) == (x * 10.0) * p && y * (10.0 * p) == (y * p) * 10.0
  {
  }

  // ---------------------------------------------------------------- the characters of a numeral

  predicate NumberChar(c: char) {
    IsDigit(c) || IsSign(c) || c == '.' || c == 'e' || c == 'E'
  }

  predicate NumberChars(s: string) {
    forall c :: c in s ==> NumberChar(c)
  }

  lemma NumberCharsConcat(a: string, b: string)
    requires NumberChars(a) && NumberChars(b)
    ensures NumberChars(a + b)
  {
  }

  /** Begins with a digit or the point; ends in one of them. */
  predicate DigitEnds(s: string) {
    && s != [] && (IsDigit(s[0]) || s[0] == '.')
    && (IsDigit(s[|s| - 1]) || s[|s| - 1] == '.')
  }

  lemma DigitsAreNumberChars(s: string)
    requires AllDigits(s)
    ensures NumberChars(s) && (s != [] ==> DigitEnds(s))
  {
    if s != [] { assert s[0] in s && s[|s| - 1] in s; }
  }

  lemma ExponentChars(n: Numeral)
    requires IsNumeral(n)
    ensures NumberChars(ExponentText(n))
    ensures var t := ExponentText(n); t != [] ==> IsDigit(t[|t| - 1]) && (t[0] == 'e' || t[0] == 'E')
  {
    if n.exponent.Some? {
      var x := n.exponent.value;
      DigitsAreNumberChars(x.digits);
      NumberCharsConcat(x.sign, x.digits);
      NumberCharsConcat([x.mark], x.sign + x.digits);
      assert x.digits[|x.digits| - 1] in x.digits;
    }
  }

  lemma BodyChars(n: Numeral)
    requires IsNumeral(n)
    ensures NumberChars(Body(n)) && DigitEnds(Body(n))
  {
    DigitsAreNumberChars(n.whole);
    DigitsAreNumberChars(Decimals(n));
    ExponentChars(n);
    NumberCharsConcat(".", Decimals(n));
    NumberCharsConcat(PointText(n), ExponentText(n));
    NumberCharsConcat(n.whole, PointText(n) + ExponentText(n));
  }

  lemma NumeralChars(n: Numeral)
    requires IsNumeral(n)
    ensures var t := NumeralText(n);
            && NumberChars(t) && t != [] && (IsSign(t[0]) <==> n.sign != "")
            && (IsDigit(t[0]) || IsSign(t[0]) || t[0] == '.') && (IsDigit(t[|t| - 1]) || t[|t| - 1] == '.')
  {
    BodyChars(n);
    NumberCharsConcat(n.sign, Body(n));
  }

  // ---------------------------------------------------------------- how the parser reads a numeral

  lemma {:induction false} DigitPrefixStops(d: string, rest: string)
    requires AllDigits(d) && (rest == [] || !IsDigit(rest[0]))
    ensures DigitPrefix(d + rest) == |d|
    decreases |d|
  {
    if d == [] {
      assert d + rest == rest;
    } else {
      assert d[0] in d && (d + rest)[1..] == d[1..] + rest;
      DigitPrefixStops(d[1..], rest);
    }
  }

  lemma SignIsDropped(sign: string, body: string)
    requires IsSignText(sign) && body != [] && !IsSign(body[0])
    ensures DropSign(sign + body) == body && (IsNegative(sign + body) <==> sign == "-")
  {
    assert sign == "" ==> sign + body == body;
  }

  lemma ExponentIsRead(n: Numeral)
    requires IsNumeral(n)
    ensures ParseExponent(ExponentText(n)) == Some(Power(n))
  {
    if n.exponent.Some? {
      var x := n.exponent.value;
      assert x.digits[0] in x.digits;
      SignIsDropped(x.sign, x.digits);
      assert ExponentText(n)[1..] == x.sign + x.digits;
      DigitsValueIsPlaceValue(x.digits);
    }
  }

  /** Whole part and fraction are all the digits with the point moved back. */
  lemma FractionIsMovedBack(whole: string, decimals: string)
    requires AllDigits(whole) && AllDigits(decimals)
    ensures AllDigits(whole + decimals)
    ensures DecimalValue(whole, decimals, 0) == TimesTen(PlaceValue(whole + decimals) as real, 0 - |decimals|)
  {
    var (w, f, m) := (DigitsValue(whole), DigitsValue(decimals), |decimals|);
    DigitsValueIsPlaceValue(whole);
    DigitsValueIsPlaceValue(decimals);
    PlaceValueConcat(whole, decimals);
    TimesTenNat(w, m);
    TimesTenTwice(w as real, m, 0 - m);
    TimesTenSum(Tenfold(w, m) as real, f as real, 0 - m);
  }

  lemma ExponentIsLast(whole: string, decimals: string, e: int)
    requires AllDigits(whole) && AllDigits(decimals)
    ensures DecimalValue(whole, decimals, e) == TimesTen(DecimalValue(whole, decimals, 0), e)
  {
  }

  lemma ValueIsMagnitude(n: Numeral)
    requires IsNumeral(n)
    ensures DecimalValue(n.whole, Decimals(n), Power(n)) == Magnitude(n)
  {
    FractionIsMovedBack(n.whole, Decimals(n));
    ExponentIsLast(n.whole, Decimals(n), Power(n));
    TimesTenTwice(AllOfDigits(n) as real, 0 - |Decimals(n)|, Power(n));
  }

  lemma PrefixParts(d: string, rest: string)
    requires AllDigits(d) && (rest == [] || !IsDigit(rest[0]))
    ensures DigitPrefix(d + rest) == |d| && (d + rest)[..|d|] == d && (d + rest)[|d|..] == rest
  {
    DigitPrefixStops(d, rest);
  }

  lemma WholeIsSplit(whole: string, rest: string)
    requires AllDigits(whole) && (rest == [] || (!IsDigit(rest[0]) && rest[0] != '.'))
    ensures SplitDecimal(whole + rest) == DecimalText(whole, [], rest)
  {
    PrefixParts(whole, rest);
  }

  lemma PointIsSplit(whole: string, decimals: string, tail: string)
    requires AllDigits(whole) && AllDigits(decimals) && (tail == [] || !IsDigit(tail[0]))
    ensures SplitDecimal(whole + ("." + (decimals + tail))) == DecimalText(whole, decimals, tail)
  {
    var rest := "." + (decimals + tail);
    PrefixParts(whole, rest);
    PrefixParts(decimals, tail);
    assert rest[1..] == decimals + tail;
  }

  /** The parser finds the parts of a numeral. */
  lemma BodyIsSplit(n: Numeral)
    requires IsNumeral(n)
    ensures SplitDecimal(Body(n)) == DecimalText(n.whole, Decimals(n), ExponentText(n))
  {
    ExponentChars(n);
    BodyForm(n);
    if n.fraction.Some? {
      PointIsSplit(n.whole, n.fraction.value, ExponentText(n));
    } else {
      WholeIsSplit(n.whole, ExponentText(n));
    }
  }

  lemma BodyForm(n: Numeral)
    ensures Body(n) ==
            n.whole + if n.fraction.Some? then "." + (n.fraction.value + ExponentText(n)) else ExponentText(n)
  {
    assert n.fraction.Some? ==> PointText(n) + ExponentText(n) == "." + (n.fraction.value + ExponentText(n));
    assert n.fraction.None? ==> PointText(n) + ExponentText(n) == ExponentText(n);
  }

  lemma DecimalOfParts(s: string, t: DecimalText, e: int)
    requires SplitDecimal(s) == t && (t.whole != [] || t.decimals != []) && ParseExponent(t.tail) == Some(e)
    ensures ParseDecimal(s) == Some(DecimalValue(t.whole, t.decimals, e))
  {
  }

  /** The text without its sign is read as its magnitude. */
  lemma BodyIsRead(n: Numeral)
    requires IsNumeral(n)
    ensures ParseDecimal(Body(n)) == Some(Magnitude(n))
  {
    BodyIsSplit(n);
    ExponentIsRead(n);
    ValueIsMagnitude(n);
    DecimalOfParts(Body(n), DecimalText(n.whole, Decimals(n), ExponentText(n)), Power(n));
  }

  /** A text with a point or an exponent is no integer. */
  lemma BodyIsDigits(n: Numeral)
    requires IsNumeral(n)
    ensures AllDigits(Body(n)) <==> n.fraction.None? && n.exponent.None?
    ensures n.fraction.None? && n.exponent.None? ==> Body(n) == n.whole
  {
    AllDigitsConcat(n.whole, PointText(n) + ExponentText(n));
    AllDigitsConcat(PointText(n), ExponentText(n));
    if n.fraction.Some? { assert PointText(n)[0] in PointText(n); }
    if n.exponent.Some? { assert ExponentText(n)[0] in ExponentText(n); }
  }

  /** Of integers, exactly those are read whose signed value fits 64 bits. */
  lemma IntegerWithSign(sign: string, s: string)
    requires IsSignText(sign) && s != [] && !IsSign(s[0])
    ensures ParseI64(sign + s) ==
            if AllDigits(s) && FitsI64(Signed(sign, DigitsValue(s))) then Some(Signed(sign, DigitsValue(s))) else None
  {
    SignIsDropped(sign, s);
  }

  lemma IntegerIsRead(n: Numeral)
    requires IsNumeral(n)
    ensures ParseI64(NumeralText(n)) == if IsInteger(n) then Some(Signed(n.sign, PlaceValue(n.whole))) else None
  {
    BodyChars(n);
    IntegerWithSign(n.sign, Body(n));
    BodyIsDigits(n);
    DigitsValueIsPlaceValue(n.whole);
  }

  lemma BodyIsNoWord(n: Numeral, word: string)
    requires IsNumeral(n) && word != [] && IsAlpha(word[0])
    ensures !SameText(Body(n), word)
  {
    BodyChars(n);
    assert SameText(Body(n), word) ==> Upper(Body(n)[0]) == Upper(word[0]);
  }

  /** What an unsigned text is read as. */
  function Magnitudes(s: string): Option<Float64> {
    if SameText(s, "inf") || SameText(s, "infinity") then Some(Infinite(false))
    else if SameText(s, "nan") then Some(NaN)
    else match ParseDecimal(s) case Some(r) => Some(Finite(r)) case None => None
  }

  function Negated(f: Float64): Float64 {
    match f
    case Finite(r) => Finite(-r)
    case Infinite(negative) => Infinite(!negative)
    case NaN => NaN
  }

  /** A minus sign negates a float, a plus sign changes nothing. */
  lemma FloatWithSign(sign: string, s: string)
    requires IsSignText(sign) && s != [] && !IsSign(s[0])
    ensures ParseF64(sign + s) ==
            match Magnitudes(s)
            case Some(f) => Some(if sign == "-" then Negated(f) else f)
            case None => None
  {
    SignIsDropped(sign, s);
  }

  lemma FloatOfDecimal(sign: string, s: string, v: real)
    requires IsSignText(sign) && s != [] && !IsSign(s[0]) && ParseDecimal(s) == Some(v)
    requires !SameText(s, "inf") && !SameText(s, "infinity") && !SameText(s, "nan")
    ensures ParseF64(sign + s) == Some(Finite(if sign == "-" then -v else v))
  {
    SignIsDropped(sign, s);
  }

  lemma FloatIsRead(n: Numeral, v: real)
    requires IsNumeral(n) && ParseDecimal(Body(n)) == Some(v)
    ensures ParseF64(NumeralText(n)) == Some(Finite(if n.sign == "-" then -v else v))
  {
    BodyChars(n);
    BodyIsNoWord(n, "inf");
    BodyIsNoWord(n, "infinity");
    BodyIsNoWord(n, "nan");
    FloatOfDecimal(n.sign, Body(n), v);
  }

  lemma ExponentEnd(s: string)
    requires ParseExponent(s).Some? && s != []
    ensures IsDigit(s[|s| - 1])
  {
    var body := DropSign(s[1..]);
    assert body[|body| - 1] in body && body[|body| - 1] == s[|s| - 1];
  }

  lemma PrefixEnd(s: string)
    requires DigitPrefix(s) == |s| > 0
    ensures IsDigit(s[|s| - 1])
  {
    assert s[..|s|] == s && s[|s| - 1] in s[..DigitPrefix(s)];
  }

  lemma DecimalEnd(s: string)
    requires ParseDecimal(s).Some?
    ensures s != [] && (IsDigit(s[|s| - 1]) || s[|s| - 1] == '.')
  {
    var t := SplitDecimal(s);
    var rest := s[DigitPrefix(s)..];
    if t.tail != [] {
      ExponentEnd(t.tail);
      assert t.tail[|t.tail| - 1] == s[|s| - 1];
    } else if rest == [] {
      PrefixEnd(s);
    } else if rest[1..] != [] {
      PrefixEnd(rest[1..]);
    }
  }

  lemma IntegerEnd(s: string)
    requires ParseI64(s).Some?
    ensures s != [] && IsDigit(s[|s| - 1])
  {
    var body := DropSign(s);
    assert body[|body| - 1] in body && body[|body| - 1] == s[|s| - 1];
  }

  lemma FloatWordEnd(s: string)
    requires SameText(s, "inf") || SameText(s, "infinity") || SameText(s, "nan")
    ensures IsAlpha(s[|s| - 1])
  {
    assert Upper(s[|s| - 1]) == 'F' || Upper(s[|s| - 1]) == 'Y' || Upper(s[|s| - 1]) == 'N';
  }

  /** Every number ends in a digit, a point or the letter of a word. */
  lemma FloatEnd(s: string)
    requires ParseF64(s).Some?
    ensures s != [] && (IsDigit(s[|s| - 1]) || s[|s| - 1] == '.' || IsAlpha(s[|s| - 1]))
  {
    var body := DropSign(s);
    if ParseDecimal(body).Some? { DecimalEnd(body); } else { FloatWordEnd(body); }
    assert body[|body| - 1] == s[|s| - 1];
  }

  /** What remains when a text is no word, no quotation and no reference. */
  lemma AtomIsNumber(t: string, i: Option<int>, f: Float64)
    requires t != [] && !IsIdentifier(t) && t[0] != '\'' && t[0] != '{'
    requires !SameText(t, "TRUE") && !SameText(t, "FALSE") && !SameText(t, "NULL")
    requires ParseI64(t) == i && ParseF64(t) == Some(f)
    ensures ParseAtom(t) == ParseTopAtom(t) == Lit(if i.Some? then Integer(i.value) else Float(f))
  {
    assert |t| >= 2 ==> t[..2][0] == t[0];
  }

  lemma NumeralIsNoWord(n: Numeral)
    requires IsNumeral(n)
    ensures var t := NumeralText(n);
            && !IsIdentifier(t) && t[0] != '\'' && t[0] != '{' && t[0] != '('
            && !SameText(t, "TRUE") && !SameText(t, "FALSE") && !SameText(t, "NULL")
  {
    NumeralChars(n);
    var t := NumeralText(n);
    assert t[0] in t;
  }

  lemma NumberIsRead(n: Numeral, i: Option<int>, v: real)
    requires IsNumeral(n) && ParseI64(NumeralText(n)) == i && ParseDecimal(Body(n)) == Some(v)
    ensures ParseTopAtom(NumeralText(n)) == ParseAtom(NumeralText(n))
    ensures ParseAtom(NumeralText(n)) ==
            Lit(if i.Some? then Integer(i.value) else Float(Finite(if n.sign == "-" then -v else v)))
  {
    NumeralIsNoWord(n);
    NumeralChars(n);
    FloatIsRead(n, v);
    AtomIsNumber(NumeralText(n), i, Finite(if n.sign == "-" then -v else v));
  }

  lemma ReadAsLiteral(n: Numeral, i: Option<int>, v: real, l: Literal)
    requires IsNumeral(n) && ParseI64(NumeralText(n)) == i && ParseDecimal(Body(n)) == Some(v)
    requires l == if i.Some? then Integer(i.value) else Float(Finite(if n.sign == "-" then -v else v))
    ensures ParseAtom(NumeralText(n)) == Lit(l) && ParseTopAtom(NumeralText(n)) == Lit(l)
  {
    NumberIsRead(n, i, v);
  }

  lemma PartsAreRead(n: Numeral)
    requires IsNumeral(n)
    ensures ParseI64(NumeralText(n)) == if IsInteger(n) then Some(Signed(n.sign, PlaceValue(n.whole))) else None
    ensures ParseDecimal(Body(n)) == Some(Magnitude(n))
  {
    IntegerIsRead(n);
    BodyIsRead(n);
  }

  lemma LiteralOf(n: Numeral, i: Option<int>, v: real)
    requires IsNumeral(n) && v == Magnitude(n)
    requires i == if IsInteger(n) then Some(Signed(n.sign, PlaceValue(n.whole))) else None
    ensures NumeralLiteral(n) == if i.Some? then Integer(i.value) else Float(Finite(if n.sign == "-" then -v else v))
  {
  }

  lemma LiteralIsRead(n: Numeral, i: Option<int>, v: real)
    requires IsNumeral(n) && ParseI64(NumeralText(n)) == i && ParseDecimal(Body(n)) == Some(v) && v == Magnitude(n)
    requires i == if IsInteger(n) then Some(Signed(n.sign, PlaceValue(n.whole))) else None
    ensures ParseAtom(NumeralText(n)) == Lit(NumeralLiteral(n))
    ensures ParseTopAtom(NumeralText(n)) == Lit(NumeralLiteral(n))
  {
    LiteralOf(n, i, v);
    ReadAsLiteral(n, i, v, NumeralLiteral(n));
  }

  /** A numeral is read as its value, as an operand and alone: the integer if it is one that fits
      64 bits, and otherwise the number that its digits, its point and its exponent say. */
  lemma NumeralIsRead(n: Numeral)
    requires IsNumeral(n)
    ensures ParseAtom(NumeralText(n)) == Lit(NumeralLiteral(n))
    ensures ParseTopAtom(NumeralText(n)) == Lit(NumeralLiteral(n))
  {
    PartsAreRead(n);
    LiteralIsRead(n, ParseI64(NumeralText(n)), Magnitude(n));
  }

  /** A whole number as a numeral, without leading zeros. */
  function WholeNumeral(i: int): (n: Written)
    ensures n.sign == (if i < 0 then "-" else "") && PlaceValue(n.whole) == (if i < 0 then -i else i)
    ensures FitsI64(i) ==> NumeralLiteral(n) == Integer(i)
  {
    DigitsAreDigits(if i < 0 then -i else i);
    Numeral(if i < 0 then "-" else "", Digits(if i < 0 then -i else i), None, None)
  }

  /** A decimal with its point moved back over the decimals is the number that the digits write
      without a point. */
  lemma DecimalsExactly(whole: string, fraction: string) returns (v: real)
    requires AllDigits(whole) && AllDigits(fraction) && whole + fraction != []
    ensures ParseDecimal(whole + ("." + fraction)) == Some(v)
    ensures AllDigits(whole + fraction) && TimesTen(v, |fraction|) == DigitsValue(whole + fraction) as real
  {
    var n := Numeral("", whole, Some(fraction), None);
    v := Magnitude(n);
    BodyOfDecimals(n);
    MagnitudeOfDecimals(n);
    AllDigitsConcat(whole, fraction);
    DigitsValueIsPlaceValue(whole + fraction);
  }

  lemma BodyOfDecimals(n: Numeral)
    requires IsNumeral(n) && n.fraction.Some? && n.exponent.None?
    ensures ParseDecimal(n.whole + ("." + n.fraction.value)) == Some(Magnitude(n))
  {
    BodyIsRead(n);
    assert Body(n) == n.whole + ("." + n.fraction.value);
  }

  lemma MagnitudeOfDecimals(n: Numeral)
    requires IsNumeral(n) && n.exponent.None?
    ensures TimesTen(Magnitude(n), |Decimals(n)|) == AllOfDigits(n) as real
  {
    TimesTenTwice(AllOfDigits(n) as real, 0 - |Decimals(n)|, |Decimals(n)|);
  }
}
