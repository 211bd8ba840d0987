/**
 Writing decimal digits and an exponent as a floating-point number, in exponent notation or
 with the decimal point after, within or before the digits; and reading such text back.
 */
module FloatWriter {
  import opened Powers
  import opened RealPowers
  import opened Wrappers
  import opened DigitSpec
  import opened Decimals
  import opened Integers

  datatype Format = General | Exponent | Fixed

  datatype FloatSpecs = FloatSpecs(precision: int, format: Format, sign: Sign, upper: bool, showpoint: bool)

  // ---------- reading ----------

  /** The number m * 10^e that a text stands for: digits, then possibly a point and more
      digits, then possibly an exponent. */
  function ReadDecimal(s: string, point: char): Option<(int, int)> {
    match ReadDigits(s, point)
    case None => None
    case Some((p, m, scale)) => ReadExponent(s, p, m, scale)
  }

  /** Where the digits end, the number they spell, and how many are after the point. */
  function ReadDigits(s: string, point: char): (r: Option<(nat, int, nat)>)
    ensures r.Some? ==> r.value.0 <= |s|
  {
    var i := RunEnd(s, 0);
    if i == 0 then None
    else if i < |s| && s[i] == point then
      var j := RunEnd(s, i + 1);
      Some((j, DecimalValue(s[..i] + s[i + 1..j]), j - (i + 1)))
    else Some((i, DecimalValue(s[..i]), 0))
  }

  function ReadExponent(s: string, p: nat, m: int, scale: int): Option<(int, int)>
    requires p <= |s|
  {
    if p == |s| then Some((m, -scale))
    else if p + 2 < |s| && (s[p] == 'e' || s[p] == 'E') && RunEnd(s, p + 2) == |s| then
      if s[p + 1] == '+' then Some((m, DecimalValue(s[p + 2..]) - scale))
      else if s[p + 1] == '-' then Some((m, -DecimalValue(s[p + 2..]) - scale))
      else None
    else None
  }

  /** m1 * 10^e1 and m2 * 10^e2 are the same number. */
  ghost predicate SameNumber(m1: int, e1: int, m2: int, e2: int) {
    if e1 <= e2 then m1 == Mul(m2, Pow(10, e2 - e1)) else m2 == Mul(m1, Pow(10, e1 - e2))
  }

  lemma SameNumberIsEqual(m1: int, e1: int, m2: int, e2: int)
    ensures SameNumber(m1, e1, m2, e2) <==> RMul(m1 as real, Ten(e1)) == RMul(m2 as real, Ten(e2))
  {
    if e1 <= e2 {
      ScaledBy(m2, e1, e2 - e1);
      RMulCancel(m1 as real, Mul(m2, Pow(10, e2 - e1)) as real, Ten(e1));
    } else {
      ScaledBy(m1, e2, e1 - e2);
      RMulCancel(m2 as real, Mul(m1, Pow(10, e1 - e2)) as real, Ten(e2));
    }
  }

  lemma ScaledBy(m: int, e: int, k: nat)
    ensures RMul(Mul(m, Pow(10, k)) as real, Ten(e)) == RMul(m as real, Ten(e + k))
  {
    RealOfMul(m, Pow(10, k));
    TenIsPow(k);
    RMulAssoc(m as real, Ten(k), Ten(e));
    TenAdd(k, e);
  }

  /** The text is readable and stands for m * 10^e. */
  ghost predicate ReadsAs(s: string, point: char, m: int, e: int) {
    match ReadDecimal(s, point)
    case None => false
    case Some((m', e')) => SameNumber(m', e', m, e)
  }

  predicate IsPoint(c: char) {
    !IsDigit(c) && c != 'e' && c != 'E'
  }

  // ---------- digits and zeros ----------

  function Zeros(n: int): (s: string)
    ensures |s| == if n < 0 then 0 else n
    ensures AllDigits(s)
  {
    if n <= 0 then "" else Zeros(n - 1) + "0"
  }

  lemma Regrouped(a: string, b: string, c: string)
    ensures a + (b + c) == a + b + c
  {
  }

  lemma {:induction false} TrailingZeros(s: string, n: nat)
    ensures DecimalValue(s + Zeros(n)) == Mul(DecimalValue(s), Pow(10, n))
  {
    if n == 0 {
      assert s + Zeros(0) == s;
      MulOne(DecimalValue(s));
    } else {
      TrailingZeros(s, n - 1);
      Regrouped(s, Zeros(n - 1), "0");
      DecimalSnoc(s + Zeros(n - 1), '0');
      TimesTen(DecimalValue(s), n - 1);
    }
  }

  lemma {:induction false} LeadingZeros(n: nat, s: string)
    ensures DecimalValue(Zeros(n) + s) == DecimalValue(s)
  {
    if |s| > 0 {
      LeadingZeros(n, s[..|s| - 1]);
      assert (Zeros(n) + s)[..n + |s| - 1] == Zeros(n) + s[..|s| - 1];
    } else {
      TrailingZeros("", n);
      assert Zeros(n) + s == "" + Zeros(n);
      MulIs(0, Pow(10, n));
    }
  }

  /** Digits without their trailing zeros beyond the first ones. */
  function Stripped(digits: string, keep: nat): (s: string)
    requires keep <= |digits|
    ensures keep <= |s| <= |digits| && s == digits[..|s|]
  {
    if |digits| > keep && digits[|digits| - 1] == '0' then Stripped(digits[..|digits| - 1], keep) else digits
  }

  lemma {:induction false} StrippedValue(digits: string, keep: nat)
    requires keep <= |digits|
    ensures DecimalValue(digits)
         == Mul(DecimalValue(Stripped(digits, keep)), Pow(10, |digits| - |Stripped(digits, keep)|))
  {
    if |digits| > keep && digits[|digits| - 1] == '0' {
      var init := digits[..|digits| - 1];
      StrippedValue(init, keep);
      TimesTen(DecimalValue(Stripped(init, keep)), |init| - |Stripped(init, keep)|);
    } else {
      MulOne(DecimalValue(digits));
    }
  }

  // ---------- the exponent ----------

  /** A sign and at least two digits. */
  function ExponentText(exp: int): string {
    var n := if exp < 0 then -exp else exp;
    (if exp < 0 then "-" else "+") + ExponentDigits(n)
  }

  function ExponentDigits(n: nat): string {
    if n < 10 then "0" + Decimal(n) else Decimal(n)
  }

  method WriteExponent(exp0: int, out: string) returns (it: string)
    requires -10000 < exp0 < 10000
    ensures it == out + ExponentText(exp0)
  {
    var exp := exp0;
    if exp < 0 {
      it := out + "-";
      exp := -exp;
    } else {
      it := out + "+";
    }
    ghost var sign := if exp0 < 0 then "-" else "+";
    assert it == out + sign;
    FourDigits(exp);
    it := WriteDigits(exp, it);
    assert out + sign + ExponentDigits(exp) == out + (sign + ExponentDigits(exp));
  }

  method WriteDigits(exp0: nat, signed: string) returns (it: string)
    requires exp0 < 10000
    ensures it == signed + ExponentDigits(exp0)
  {
    var exp := exp0;
    it := signed;
    if exp >= 100 {
      var top := Pair(exp / 100);
      if exp >= 1000 {
        it := it + [top[0]];
      }
      it := it + [top[1]];
      exp := exp % 100;
    }
    var d := Pair(exp);
    ghost var before := it;
    it := it + [d[0]];
    it := it + [d[1]];
    assert it == before + d;
    FourDigits(exp0);
    assert exp0 >= 1000 ==> before == signed + Pair(exp0 / 100);
    Regroup(signed, before, d);
  }

  lemma Regroup(signed: string, before: string, d: string)
    ensures |signed| <= |before| && before[..|signed|] == signed
        ==> before + d == signed + (before[|signed|..] + d)
  {
  }

  lemma FourDigits(n: nat)
    requires n < 10000
    ensures n < 10 ==> "0" + Decimal(n) == Pair(n)
    ensures 10 <= n < 100 ==> Decimal(n) == Pair(n)
    ensures 100 <= n < 1000 ==> Decimal(n) == [Pair(n / 100)[1]] + Pair(n % 100)
    ensures 1000 <= n ==> Decimal(n) == Pair(n / 100) + Pair(n % 100)
  {
    if n >= 10 {
      TwoMore(n);
      if n >= 1000 {
        TwoMore(n / 100);
      }
    }
  }

  // ---------- the layouts ----------

  /** The pieces of a number: digits, perhaps a point and more digits, perhaps an exponent. */
  datatype Pieces = Pieces(whole: string, hasPoint: bool, frac: string, exponent: Option<int>)
  {
    predicate Valid() {
      |whole| >= 1 && AllDigits(whole) && AllDigits(frac) && (!hasPoint ==> frac == "")
    }

    ghost predicate StandsFor(m: int, e: int) {
      SameNumber(DecimalValue(whole + frac), (if exponent.Some? then exponent.value else 0) - |frac|, m, e)
    }
  }

  function Render(n: Pieces, upper: bool, point: char): string {
    Mantissa(n, point) + Suffix(n, upper)
  }

  function Mantissa(n: Pieces, point: char): string {
    n.whole + if n.hasPoint then [point] + n.frac else ""
  }

  function Suffix(n: Pieces, upper: bool): string {
    match n.exponent
    case None => ""
    case Some(e) => [if upper then 'E' else 'e'] + ExponentText(e)
  }

  /** 1234e-6 -> 1.234e-3 */
  function ExponentNotation(digits: string, exp: int, specs: FloatSpecs): Pieces
    requires |digits| >= 1
  {
    var zeros := if specs.showpoint then Zeros(specs.precision - |digits|) else "";
    Pieces(digits[..1], |digits| > 1 || specs.showpoint, digits[1..] + zeros, Some(|digits| + exp - 1))
  }

  /** 1234e7 -> 12340000000[.0+] */
  function Integral(digits: string, exp: nat, specs: FloatSpecs): Pieces {
    var hasPoint := specs.showpoint || specs.precision < 0;
    var missing := specs.precision - (|digits| + exp);
    var zeros := if missing > 0 then missing else if specs.format == Fixed then 0 else 1;
    Pieces(digits + Zeros(exp), hasPoint, Zeros(if hasPoint then zeros else 0), None)
  }

  /** 1234e-2 -> 12.34[0+] */
  function Mixed(digits: string, whole: nat, specs: FloatSpecs): Pieces
    requires whole < |digits|
  {
    var kept := if specs.showpoint then digits + Zeros(specs.precision - |digits|) else Stripped(digits, whole);
    Pieces(kept[..whole], specs.showpoint || |kept| != whole, kept[whole..], None)
  }

  /** 1234e-6 -> 0.001234 */
  function Fraction(digits: string, zeros0: nat, specs: FloatSpecs): Pieces {
    var zeros := if digits == "" && 0 <= specs.precision < zeros0 then specs.precision else zeros0;
    var kept := if specs.showpoint then digits else Stripped(digits, 0);
    Pieces("0", zeros != 0 || kept != "" || specs.showpoint, Zeros(zeros) + kept, None)
  }

  function Layout(digits: string, exp: int, specs: FloatSpecs): Pieces
    requires specs.format == Exponent ==> |digits| >= 1
  {
    var fullExp := |digits| + exp;
    if specs.format == Exponent then ExponentNotation(digits, exp, specs)
    else if |digits| <= fullExp then Integral(digits, exp, specs)
    else if fullExp > 0 then Mixed(digits, fullExp, specs)
    else Fraction(digits, -fullExp, specs)
  }

  // ---------- what the pieces stand for ----------

  lemma OneZero()
    ensures Zeros(1) == "0"
  {
    assert Zeros(1) == Zeros(0) + "0";
  }

  lemma {:induction false} MoreZeros(digits: string, a: nat, b: nat)
    ensures digits + Zeros(a) + Zeros(b) == digits + Zeros(a + b)
  {
    if b == 0 {
      assert digits + Zeros(a) + "" == digits + Zeros(a);
    } else {
      MoreZeros(digits, a, b - 1);
      assert digits + Zeros(a) + Zeros(b) == digits + Zeros(a) + Zeros(b - 1) + "0";
      assert digits + Zeros(a + b) == digits + Zeros(a + b - 1) + "0";
    }
  }

  /** The digits with k zeros more. */
  lemma WithZeros(n: Pieces, digits: string, k: nat, e: int)
    requires n.whole + n.frac == digits + Zeros(k)
    requires (if n.exponent.Some? then n.exponent.value else 0) - |n.frac| == e - k
    ensures n.StandsFor(DecimalValue(digits), e)
  {
    TrailingZeros(digits, k);
    MulOne(DecimalValue(digits));
  }

  /** The digits without trailing zeros. */
  lemma WithoutZeros(n: Pieces, digits: string, kept: string, keep: nat, e: int)
    requires keep <= |digits| && kept == Stripped(digits, keep)
    requires DecimalValue(n.whole + n.frac) == DecimalValue(kept)
    requires (if n.exponent.Some? then n.exponent.value else 0) - |n.frac| == e + |digits| - |kept|
    ensures n.StandsFor(DecimalValue(digits), e)
  {
    StrippedValue(digits, keep);
    MulOne(DecimalValue(digits));
  }

  lemma ExponentNotationIs(digits: string, exp: int, specs: FloatSpecs)
    requires |digits| >= 1 && AllDigits(digits)
    ensures ExponentNotation(digits, exp, specs).Valid()
    ensures ExponentNotation(digits, exp, specs).StandsFor(DecimalValue(digits), exp)
  {
    var k := ExponentNotationDigits(digits, exp, specs);
    WithZeros(ExponentNotation(digits, exp, specs), digits, k, exp);
  }

  lemma ExponentNotationDigits(digits: string, exp: int, specs: FloatSpecs) returns (k: nat)
    requires |digits| >= 1 && AllDigits(digits)
    ensures var n := ExponentNotation(digits, exp, specs);
            && n.Valid() && n.whole + n.frac == digits + Zeros(k) && |n.frac| == |digits| - 1 + k
            && n.exponent == Some(|digits| + exp - 1)
  {
    var zeros := if specs.showpoint then Zeros(specs.precision - |digits|) else Zeros(0);
    k := |zeros|;
    assert zeros == Zeros(k);
    assert digits[..1] + (digits[1..] + zeros) == digits + zeros;
  }

  lemma IntegralIs(digits: string, exp: nat, specs: FloatSpecs)
    requires |digits| >= 1 && AllDigits(digits)
    ensures Integral(digits, exp, specs).Valid()
    ensures Integral(digits, exp, specs).StandsFor(DecimalValue(digits), exp)
  {
    var k := IntegralDigits(digits, exp, specs);
    PlainStands(Integral(digits, exp, specs), digits, exp, k);
  }

  lemma PlainStands(n: Pieces, digits: string, exp: nat, k: nat)
    requires n.whole + n.frac == digits + Zeros(exp + k) && |n.frac| == k && n.exponent == None
    ensures n.StandsFor(DecimalValue(digits), exp)
  {
    WithZeros(n, digits, exp + k, exp);
  }

  lemma IntegralDigits(digits: string, exp: nat, specs: FloatSpecs) returns (k: nat)
    requires |digits| >= 1 && AllDigits(digits)
    ensures var n := Integral(digits, exp, specs);
            && n.Valid() && n.whole + n.frac == digits + Zeros(exp + k) && |n.frac| == k && n.exponent == None
  {
    k := |Integral(digits, exp, specs).frac|;
    MoreZeros(digits, exp, k);
  }

  lemma MixedIs(digits: string, exp: int, specs: FloatSpecs)
    requires AllDigits(digits) && 0 < |digits| + exp < |digits|
    ensures Mixed(digits, |digits| + exp, specs).Valid()
    ensures Mixed(digits, |digits| + exp, specs).StandsFor(DecimalValue(digits), exp)
  {
    var n := Mixed(digits, |digits| + exp, specs);
    if specs.showpoint {
      var k := MixedDigits(digits, |digits| + exp, specs);
      WithZeros(n, digits, k, exp);
    } else {
      MixedStripped(digits, |digits| + exp, specs);
      WithoutZeros(n, digits, Stripped(digits, |digits| + exp), |digits| + exp, exp);
    }
  }

  lemma MixedDigits(digits: string, whole: nat, specs: FloatSpecs) returns (k: nat)
    requires AllDigits(digits) && 0 < whole < |digits| && specs.showpoint
    ensures var n := Mixed(digits, whole, specs);
            && n.Valid() && n.whole + n.frac == digits + Zeros(k) && |n.frac| == |digits| - whole + k
            && n.exponent == None
  {
    var zeros := Zeros(specs.precision - |digits|);
    k := |zeros|;
    assert zeros == Zeros(k);
    var kept := digits + zeros;
    assert kept[..whole] + kept[whole..] == kept;
  }

  lemma MixedStripped(digits: string, whole: nat, specs: FloatSpecs)
    requires AllDigits(digits) && 0 < whole < |digits| && !specs.showpoint
    ensures var n, kept := Mixed(digits, whole, specs), Stripped(digits, whole);
            && n.Valid() && n.whole + n.frac == kept && |n.frac| == |kept| - whole && n.exponent == None
  {
    var kept := Stripped(digits, whole);
    assert kept[..whole] + kept[whole..] == kept;
  }

  lemma FractionIs(digits: string, exp: int, specs: FloatSpecs)
    requires AllDigits(digits) && |digits| + exp <= 0
    ensures Fraction(digits, -(|digits| + exp), specs).Valid()
    ensures Fraction(digits, -(|digits| + exp), specs).StandsFor(DecimalValue(digits), exp)
  {
    FractionStands(digits, -(|digits| + exp), specs, Fraction(digits, -(|digits| + exp), specs), exp);
  }

  lemma FractionStands(digits: string, zeros: nat, specs: FloatSpecs, n: Pieces, exp: int)
    requires AllDigits(digits) && n == Fraction(digits, zeros, specs) && exp + zeros + |digits| == 0
    ensures n.Valid() && n.StandsFor(DecimalValue(digits), exp)
  {
    var kept := FractionDigits(digits, zeros, specs, n);
    KeptStands(digits, kept, n, exp);
  }

  lemma KeptStands(digits: string, kept: string, n: Pieces, exp: int)
    requires n.exponent == None && DecimalValue(n.whole + n.frac) == DecimalValue(kept)
    requires kept == digits || kept == Stripped(digits, 0)
    requires digits != "" ==> |n.frac| - |kept| + exp + |digits| == 0
    ensures n.StandsFor(DecimalValue(digits), exp)
  {
    if digits == "" {
      NoDigits(n, exp);
    } else if kept == digits {
      Unchanged(n, digits, exp);
    } else {
      WithoutZeros(n, digits, kept, 0, exp);
    }
  }

  lemma FractionDigits(digits: string, zeros: nat, specs: FloatSpecs, n: Pieces) returns (kept: string)
    requires AllDigits(digits) && n == Fraction(digits, zeros, specs)
    ensures kept == digits || kept == Stripped(digits, 0)
    ensures n.Valid() && DecimalValue(n.whole + n.frac) == DecimalValue(kept) && n.exponent == None
    ensures digits != "" ==> |n.frac| == zeros + |kept|
  {
    kept := if specs.showpoint then digits else Stripped(digits, 0);
    var z := if digits == "" && 0 <= specs.precision < zeros then specs.precision else zeros;
    assert n == Pieces("0", z != 0 || kept != "" || specs.showpoint, Zeros(z) + kept, None);
    PointFirst(z, kept);
  }

  lemma Unchanged(n: Pieces, digits: string, e: int)
    requires DecimalValue(n.whole + n.frac) == DecimalValue(digits) && n.exponent == None && -|n.frac| == e
    ensures n.StandsFor(DecimalValue(digits), e)
  {
    MulOne(DecimalValue(digits));
  }

  lemma NoDigits(n: Pieces, e: int)
    requires DecimalValue(n.whole + n.frac) == 0
    ensures n.StandsFor(0, e)
  {
    ZeroAnywhere((if n.exponent.Some? then n.exponent.value else 0) - |n.frac|, e);
  }

  lemma ZeroAnywhere(e1: int, e2: int)
    ensures SameNumber(0, e1, 0, e2)
  {
    MulIs(0, Pow(10, if e1 <= e2 then e2 - e1 else e1 - e2));
  }

  lemma PointFirst(zeros: nat, kept: string)
    requires AllDigits(kept)
    ensures DecimalValue("0" + (Zeros(zeros) + kept)) == DecimalValue(kept) && AllDigits(Zeros(zeros) + kept)
  {
    OneZero();
    LeadingZeros(1, Zeros(zeros) + kept);
    LeadingZeros(zeros, kept);
  }

  // ---------- reading back ----------

  lemma RunEndAfter(before: string, digits: string, rest: string)
    requires AllDigits(digits) && (rest != "" ==> !IsDigit(rest[0]))
    ensures RunEnd(before + digits + rest, |before|) == |before| + |digits|
  {
    var s := before + digits + rest;
    assert s[|before|..|before| + |digits|] == digits;
    RunIs(s, |before|, |before| + |digits|);
  }

  lemma ExponentReads(exp: int) returns (sign: char, digits: string)
    ensures ExponentText(exp) == [sign] + digits && AllDigits(digits) && |digits| >= 2
    ensures sign == (if exp < 0 then '-' else '+') && DecimalValue(digits) == if exp < 0 then -exp else exp
  {
    var n: nat := if exp < 0 then -exp else exp;
    sign := if exp < 0 then '-' else '+';
    digits := ExponentDigits(n);
    TwoDigits(n);
  }

  lemma TwoDigits(n: nat)
    ensures AllDigits(ExponentDigits(n)) && |ExponentDigits(n)| >= 2 && DecimalValue(ExponentDigits(n)) == n
  {
    DecimalReadsBack(n);
    if n < 10 {
      OneZero();
      LeadingZeros(1, Decimal(n));
    } else {
      assert Decimal(n) == Decimal(n / 10) + [DigitOf(n % 10)];
    }
  }

  lemma ReadsLetter(before: string, tail: string, letter: char, sign: char, digits: string, m: int, scale: int)
    requires tail == [letter] + ([sign] + digits) && (letter == 'e' || letter == 'E')
    requires (sign == '+' || sign == '-') && digits != "" && AllDigits(digits)
    ensures ReadExponent(before + tail, |before|, m, scale)
         == Some((m, (if sign == '-' then -DecimalValue(digits) else DecimalValue(digits)) - scale))
  {
    var s := before + tail;
    assert s == before + [letter, sign] + digits + "";
    RunEndAfter(before + [letter, sign], digits, "");
    assert s[|before| + 2..] == digits;
  }

  /** After the digits: nothing, or a letter and an exponent. */
  lemma ReadsSuffix(before: string, n: Pieces, upper: bool, tail: string, m: int, scale: int)
    requires tail == Suffix(n, upper)
    ensures ReadExponent(before + tail, |before|, m, scale)
         == Some((m, (if n.exponent.Some? then n.exponent.value else 0) - scale))
    ensures tail != "" ==> tail[0] == 'e' || tail[0] == 'E'
  {
    if n.exponent.Some? {
      var sign, digits := ExponentReads(n.exponent.value);
      ReadsLetter(before, tail, if upper then 'E' else 'e', sign, digits, m, scale);
    }
  }

  lemma RenderReads(n: Pieces, upper: bool, point: char, m: int, e: int)
    requires n.Valid() && IsPoint(point) && n.StandsFor(m, e)
    ensures ReadsAs(Render(n, upper, point), point, m, e)
  {
    RenderReadsTail(n, upper, point, Suffix(n, upper), Mantissa(n, point) + Suffix(n, upper), m, e);
  }

  lemma RenderReadsTail(n: Pieces, upper: bool, point: char, tail: string, s: string, m: int, e: int)
    requires n.Valid() && IsPoint(point) && tail == Suffix(n, upper) && s == Mantissa(n, point) + tail
    requires n.StandsFor(m, e)
    ensures ReadsAs(s, point, m, e)
  {
    ReadsSuffix(Mantissa(n, point), n, upper, tail, DecimalValue(n.whole + n.frac), |n.frac|);
    ReadsMantissa(n, tail, point, DecimalValue(n.whole + n.frac));
    ReadNumber(s, point, |Mantissa(n, point)|, DecimalValue(n.whole + n.frac), |n.frac|,
               (if n.exponent.Some? then n.exponent.value else 0) - |n.frac|, m, e);
  }

  /** Digits, then an exponent, and the number they make. */
  lemma ReadNumber(s: string, point: char, p: nat, m1: int, scale: nat, e1: int, m: int, e: int)
    requires p <= |s| && ReadDigits(s, point) == Some((p, m1, scale))
    requires ReadExponent(s, p, m1, scale) == Some((m1, e1)) && SameNumber(m1, e1, m, e)
    ensures ReadsAs(s, point, m, e)
  {
  }

  lemma ReadsMantissa(n: Pieces, tail: string, point: char, m: int)
    requires m == DecimalValue(n.whole + n.frac) && n.Valid()
    requires IsPoint(point) && (tail != "" ==> tail[0] == 'e' || tail[0] == 'E')
    ensures ReadDigits(Mantissa(n, point) + tail, point) == Some((|Mantissa(n, point)|, m, |n.frac|))
  {
    WholePart(n, tail, point);
    if n.hasPoint {
      FracPart(n, tail, point);
    } else {
      assert n.whole + n.frac == n.whole;
    }
    ReadsFrom(Mantissa(n, point) + tail, |n.whole|, n.hasPoint, |Mantissa(n, point)|, point, m, |n.frac|);
  }

  /** Reading a text whose parts are known. */
  lemma ReadsFrom(s: string, i: nat, hasPoint: bool, p: nat, point: char, m: int, scale: nat)
    requires 1 <= i <= p <= |s| && RunEnd(s, 0) == i && (hasPoint <==> i < |s| && s[i] == point)
    requires hasPoint ==> RunEnd(s, i + 1) == i + 1 + scale == p && m == DecimalValue(s[..i] + s[i + 1..p])
    requires !hasPoint ==> p == i && scale == 0 && m == DecimalValue(s[..i])
    ensures ReadDigits(s, point) == Some((p, m, scale))
  {
  }

  lemma WholePart(n: Pieces, tail: string, point: char)
    requires n.Valid() && IsPoint(point) && (tail != "" ==> tail[0] == 'e' || tail[0] == 'E')
    ensures var s := Mantissa(n, point) + tail;
            && RunEnd(s, 0) == |n.whole| && s[..|n.whole|] == n.whole
            && (n.hasPoint <==> |n.whole| < |s| && s[|n.whole|] == point)
  {
    var rest := (if n.hasPoint then [point] + n.frac else "") + tail;
    assert Mantissa(n, point) + tail == "" + n.whole + rest;
    RunEndAfter("", n.whole, rest);
  }

  lemma FracPart(n: Pieces, tail: string, point: char)
    requires n.Valid() && n.hasPoint && (tail != "" ==> tail[0] == 'e' || tail[0] == 'E')
    ensures var s, i := Mantissa(n, point) + tail, |n.whole| + 1;
            && i <= |s| && RunEnd(s, i) == i + |n.frac| == |Mantissa(n, point)| && s[i..i + |n.frac|] == n.frac
  {
    assert Mantissa(n, point) + tail == (n.whole + [point]) + n.frac + tail;
    RunEndAfter(n.whole + [point], n.frac, tail);
  }

  /** Whatever the layout, the text reads back as digits * 10^exp. */
  lemma LayoutReadsBack(digits: string, exp: int, specs: FloatSpecs, point: char)
    requires AllDigits(digits) && IsPoint(point) && (|digits| >= 1 || (specs.format != Exponent && exp < 0))
    ensures ReadsAs(Render(Layout(digits, exp, specs), specs.upper, point), point, DecimalValue(digits), exp)
  {
    LayoutIs(digits, exp, specs);
    RenderReads(Layout(digits, exp, specs), specs.upper, point, DecimalValue(digits), exp);
  }

  lemma LayoutIs(digits: string, exp: int, specs: FloatSpecs)
    requires AllDigits(digits) && (|digits| >= 1 || (specs.format != Exponent && exp < 0))
    ensures Layout(digits, exp, specs).Valid() && Layout(digits, exp, specs).StandsFor(DecimalValue(digits), exp)
  {
    var fullExp := |digits| + exp;
    if specs.format == Exponent {
      ExponentNotationIs(digits, exp, specs);
    } else if |digits| <= fullExp {
      IntegralIs(digits, exp, specs);
    } else if fullExp > 0 {
      MixedIs(digits, exp, specs);
    } else {
      FractionIs(digits, exp, specs);
    }
  }

  /** A number of at least one starts with its first digit. */
  lemma StartsWithFirst(digits: string, exp: int, specs: FloatSpecs, point: char)
    requires |digits| >= 1 && |digits| + exp >= 1
    ensures var text := Render(Layout(digits, exp, specs), specs.upper, point);
            |text| >= 1 && text[0] == digits[0]
  {
    var n := Layout(digits, exp, specs);
    assert |n.whole| >= 1 && n.whole[0] == digits[0];
    assert Mantissa(n, point)[0] == n.whole[0];
  }

  lemma NotReadable(text: string, point: char)
    requires |text| >= 1 && !IsDigit(text[0])
    ensures ReadDecimal(text, point) == None
  {
  }

  // ---------- what the text looks like ----------

  /** How many digits a text starts with, how many follow the point if there is one, and what
      comes next if anything does. */
  datatype Shape = Shape(whole: nat, frac: Option<nat>, letter: Option<char>)

  function ShapeOf(s: string, point: char): Shape {
    var i := RunEnd(s, 0);
    var hasPoint := i < |s| && s[i] == point;
    var j := if hasPoint then RunEnd(s, i + 1) else i;
    Shape(i, if hasPoint then Some(j - (i + 1)) else None, if j < |s| then Some(s[j]) else None)
  }

  lemma RenderShape(n: Pieces, upper: bool, point: char)
    requires n.Valid() && IsPoint(point)
    ensures ShapeOf(Render(n, upper, point), point)
         == Shape(|n.whole|, if n.hasPoint then Some(|n.frac|) else None,
                  if n.exponent.Some? then Some(if upper then 'E' else 'e') else None)
  {
    hide Suffix, Mantissa;
    var tail := Suffix(n, upper);
    SuffixStarts(n, upper);
    WholePart(n, tail, point);
    MantissaLength(n, point);
    if n.hasPoint {
      FracPart(n, tail, point);
    }
  }

  lemma SuffixStarts(n: Pieces, upper: bool)
    ensures if n.exponent.None? then Suffix(n, upper) == ""
            else Suffix(n, upper) != "" && Suffix(n, upper)[0] == if upper then 'E' else 'e'
  {
  }

  lemma MantissaLength(n: Pieces, point: char)
    ensures |Mantissa(n, point)| == |n.whole| + if n.hasPoint then 1 + |n.frac| else 0
  {
  }

  /** Whether a number whose first digit is at place first is written with an exponent. */
  predicate Scientific(specs: FloatSpecs, first: int) {
    specs.format == Exponent
    || (specs.format == General && (first < -4 || first >= if specs.precision > 0 then specs.precision else 16))
  }

  /** The digits after the point, where the specifications say how many, and whether there is one. */
  function FracLength(numDigits: nat, exp: int, specs: FloatSpecs): Option<nat>
    requires numDigits >= 1 || (specs.format == Fixed && exp < 0)
  {
    var first := numDigits + exp - 1;
    var wanted := if specs.showpoint then specs.precision else 0;
    if Scientific(specs, first) then
      if numDigits > 1 || specs.showpoint then Some((if wanted > numDigits then wanted else numDigits) - 1) else None
    else if exp >= 0 then
      if specs.showpoint || specs.precision < 0 then
        Some(if specs.precision > first + 1 then specs.precision - (first + 1)
             else if specs.format == Fixed then 0 else 1)
      else None
    else if numDigits == 0 && 0 <= specs.precision < -exp then
      if specs.showpoint || specs.precision > 0 then Some(specs.precision) else None
    else Some(-exp + if first >= 0 && wanted > numDigits then wanted - numDigits else 0)
  }

  /** Which of the layouts leave the number of digits after the point to the digits. */
  predicate DropsZeros(digits: string, exp: int, specs: FloatSpecs) {
    && !Scientific(specs, |digits| + exp - 1) && exp < 0 && !specs.showpoint
    && digits != "" && digits[|digits| - 1] == '0'
  }

  /** The look of the text for digits * 10^exp: an exponent exactly if the format or the
      magnitude asks for it, the point where it belongs, and as many digits after it as the
      specifications want, or, if they do not, no trailing zeros. */
  ghost predicate LaidOut(text: string, point: char, digits: string, exp: int, specs: FloatSpecs)
    requires |digits| >= 1 || (specs.format == Fixed && exp < 0)
  {
    var shape, first := ShapeOf(text, point), |digits| + exp - 1;
    && shape.letter == (if Scientific(specs, first) then Some(if specs.upper then 'E' else 'e') else None)
    && shape.whole == (if Scientific(specs, first) || first < 0 then 1 else first + 1)
    && (!DropsZeros(digits, exp, specs) ==> shape.frac == FracLength(|digits|, exp, specs))
    && (DropsZeros(digits, exp, specs) && shape.frac.Some? && DecimalValue(digits) > 0
        ==> text != "" && text[|text| - 1] != '0')
  }

  /** The same of the pieces that the text is made of. */
  ghost predicate Fits(n: Pieces, digits: string, exp: int, specs: FloatSpecs)
    requires |digits| >= 1 || (specs.format == Fixed && exp < 0)
  {
    var first := |digits| + exp - 1;
    && (n.exponent.Some? <==> Scientific(specs, first))
    && |n.whole| == (if Scientific(specs, first) || first < 0 then 1 else first + 1)
    && (!DropsZeros(digits, exp, specs)
        ==> (if n.hasPoint then Some(|n.frac|) else None) == FracLength(|digits|, exp, specs))
    && (DropsZeros(digits, exp, specs) && n.hasPoint && DecimalValue(digits) > 0
        ==> n.frac != "" && n.frac[|n.frac| - 1] != '0')
  }

  /** The look does not depend on the sign. */
  lemma SignIsApart(text: string, digits: string, exp: int, specs: FloatSpecs, specs': FloatSpecs)
    requires specs' == specs.(sign := specs'.sign) && (|digits| >= 1 || (specs.format == Fixed && exp < 0))
    ensures LaidOut(text, '.', digits, exp, specs) <==> LaidOut(text, '.', digits, exp, specs')
  {
  }

  /** The general format turns into exponent notation for very small and very large numbers. */
  function Effective(specs: FloatSpecs, numDigits: nat, exp: int): FloatSpecs {
    var fullExp := numDigits + exp - 1;
    var precision := if specs.precision > 0 then specs.precision else 16;
    if specs.format == General && !(-4 <= fullExp < precision) then specs.(format := Exponent) else specs
  }

  lemma LayoutLooks(digits: string, exp: int, specs: FloatSpecs, point: char)
    requires AllDigits(digits) && IsPoint(point) && (|digits| >= 1 || (specs.format == Fixed && exp < 0))
    ensures var effective := Effective(specs, |digits|, exp);
            LaidOut(Render(Layout(digits, exp, effective), specs.upper, point), point, digits, exp, specs)
  {
    var effective := Effective(specs, |digits|, exp);
    var n := Layout(digits, exp, effective);
    LayoutIs(digits, exp, effective);
    LayoutFits(digits, exp, specs);
    RenderShape(n, specs.upper, point);
    LastOfText(n, specs.upper, point);
  }

  lemma WholeText(digits: string, exp: int, specs: FloatSpecs, point: char)
    requires |digits| >= 1 || specs.format == Fixed
    ensures var effective := Effective(specs, |digits|, exp);
            var text := Render(Layout(digits, exp, effective), effective.upper, point);
            AllDigits(digits) && IsPoint(point) && (|digits| >= 1 || exp < 0)
            ==> LaidOut(text, point, digits, exp, specs) && ReadsAs(text, point, DecimalValue(digits), exp)
  {
    hide Layout, Render, LaidOut, ReadsAs;
    if AllDigits(digits) && IsPoint(point) && (|digits| >= 1 || exp < 0) {
      LayoutLooks(digits, exp, specs, point);
      LayoutReadsBack(digits, exp, Effective(specs, |digits|, exp), point);
    }
  }

  lemma LastOfText(n: Pieces, upper: bool, point: char)
    ensures n.hasPoint && n.exponent == None && n.frac != ""
        ==> && Render(n, upper, point) != ""
            && Render(n, upper, point)[|Render(n, upper, point)| - 1] == n.frac[|n.frac| - 1]
  {
  }

  lemma LayoutFits(digits: string, exp: int, specs: FloatSpecs)
    requires AllDigits(digits) && (|digits| >= 1 || (specs.format == Fixed && exp < 0))
    ensures Fits(Layout(digits, exp, Effective(specs, |digits|, exp)), digits, exp, specs)
  {
    var first := |digits| + exp - 1;
    if !Scientific(specs, first) && exp < 0 {
      if first >= 0 {
        MixedFits(digits, exp, specs);
      } else {
        FractionFits(digits, exp, specs);
      }
    }
  }

  lemma {:induction false} StrippedEnds(digits: string, keep: nat)
    requires keep <= |digits|
    ensures |Stripped(digits, keep)| > keep ==> Stripped(digits, keep)[|Stripped(digits, keep)| - 1] != '0'
    ensures |digits| > 0 && digits[|digits| - 1] != '0' ==> Stripped(digits, keep) == digits
  {
    if |digits| > keep && digits[|digits| - 1] == '0' {
      StrippedEnds(digits[..|digits| - 1], keep);
    }
  }

  lemma MixedFits(digits: string, exp: int, specs: FloatSpecs)
    requires 0 < |digits| + exp < |digits| && !Scientific(specs, |digits| + exp - 1)
    ensures Fits(Mixed(digits, |digits| + exp, specs), digits, exp, specs)
  {
    var kept := Stripped(digits, |digits| + exp);
    StrippedEnds(digits, |digits| + exp);
    assert |kept| > |digits| + exp ==> kept[|digits| + exp..][|kept| - (|digits| + exp) - 1] == kept[|kept| - 1];
  }

  lemma FractionFits(digits: string, exp: int, specs: FloatSpecs)
    requires |digits| + exp <= 0 && exp < 0 && !Scientific(specs, |digits| + exp - 1)
    requires |digits| >= 1 || specs.format == Fixed
    ensures Fits(Fraction(digits, -(|digits| + exp), specs), digits, exp, specs)
  {
    var kept := Stripped(digits, 0);
    StrippedEnds(digits, 0);
    if kept == "" {
      StrippedValue(digits, 0);
      MulIs(0, Pow(10, |digits|));
    }
  }

  // ---------- the writer ----------

  function SignText(sign: Sign): string {
    match sign
    case NoSign => ""
    case Minus => "-"
    case Plus => "+"
    case Space => " "
  }

  class Writer {
    const digits: string
    const exp: int
    const specs: FloatSpecs
    const decimalPoint: char
    var size: nat

    predicate Printable() {
      specs.format == Exponent ==> |digits| >= 1 && -10000 < |digits| + exp - 1 < 10000
    }

    ghost predicate Valid()
      reads this
    {
      Printable() && size == |Text()|
    }

    /** The number without its sign. */
    ghost function Number(): string
      requires Printable()
    {
      Render(Layout(digits, exp, specs), specs.upper, decimalPoint)
    }

    ghost function Text(): string
      requires Printable()
    {
      SignText(specs.sign) + Number()
    }

    constructor (digits: string, exp: int, specs: FloatSpecs, decimalPoint: char)
      requires |digits| >= 1 || specs.format == Fixed
      requires -10000 < |digits| + exp - 1 < 10000
      ensures Valid() && this.digits == digits && this.exp == exp && this.decimalPoint == decimalPoint
      ensures this.specs == Effective(specs, |digits|, exp)
      ensures AllDigits(digits) && IsPoint(decimalPoint) && (|digits| >= 1 || exp < 0)
          ==> && LaidOut(Number(), decimalPoint, digits, exp, specs)
              && ReadsAs(Number(), decimalPoint, DecimalValue(digits), exp)
    {
      this.digits, this.exp, this.decimalPoint := digits, exp, decimalPoint;
      this.specs := Effective(specs, |digits|, exp);
      size := 0;
      new;
      var text := Prettify("");
      size := |text| + if specs.sign != NoSign then 1 else 0;
      assert "" + Render(Layout(digits, exp, this.specs), this.specs.upper, decimalPoint) == text;
      WholeText(digits, exp, specs, decimalPoint);
    }

    method Write(it: string) returns (out: string)
      requires Valid()
      ensures out == it + Text() && |out| == |it| + size
    {
      out := it;
      if specs.sign != NoSign {
        out := out + SignText(specs.sign);
      }
      out := Prettify(out);
      assert it + SignText(specs.sign) + Render(Layout(digits, exp, specs), specs.upper, decimalPoint)
          == it + Text();
    }

    method Prettify(it: string) returns (out: string)
      requires Printable()
      ensures out == it + Render(Layout(digits, exp, specs), specs.upper, decimalPoint)
    {
      var fullExp := |digits| + exp;
      if specs.format == Exponent {
        out := WriteExponentNotation(it);
      } else if |digits| <= fullExp {
        out := WriteIntegral(it);
      } else if fullExp > 0 {
        out := WriteMixed(it);
      } else {
        out := WriteFraction(it);
      }
    }

    method WriteExponentNotation(it: string) returns (out: string)
      requires |digits| >= 1 && -10000 < |digits| + exp - 1 < 10000
      ensures out == it + Render(ExponentNotation(digits, exp, specs), specs.upper, decimalPoint)
    {
      ghost var n := ExponentNotation(digits, exp, specs);
      out := it + digits[..1];
      var numZeros := specs.precision - |digits|;
      if |digits| > 1 || specs.showpoint {
        out := out + [decimalPoint];
      }
      ghost var before := out;
      out := out + digits[1..];
      if specs.showpoint {
        out := Fill(out, numZeros);
      }
      Twice(before, digits[1..], if specs.showpoint then Zeros(numZeros) else "");
      assert out == before + n.frac;
      out := out + [if specs.upper then 'E' else 'e'];
      out := WriteExponent(|digits| + exp - 1, out);
      Twice(before + n.frac, [if specs.upper then 'E' else 'e'], ExponentText(|digits| + exp - 1));
      Assembled(it, n, specs.upper, decimalPoint);
    }

    method WriteIntegral(it: string) returns (out: string)
      requires exp >= 0
      ensures out == it + Render(Integral(digits, exp, specs), specs.upper, decimalPoint)
    {
      out := it + digits;
      out := Fill(out, exp);
      Twice(it, digits, Zeros(exp));
      Assembled(it, Integral(digits, exp, specs), specs.upper, decimalPoint);
      if specs.showpoint || specs.precision < 0 {
        out := out + [decimalPoint];
        var numZeros := specs.precision - (|digits| + exp);
        if numZeros <= 0 {
          OneZero();
          if specs.format != Fixed {
            out := out + "0";
          }
        } else {
          out := Fill(out, numZeros);
        }
      }
    }

    /** How many digits are left without the trailing zeros beyond the first ones. */
    method StripZeros(keep: nat) returns (numDigits: nat)
      requires keep <= |digits|
      ensures numDigits <= |digits| && digits[..numDigits] == Stripped(digits, keep)
    {
      numDigits := |digits|;
      assert digits[..numDigits] == digits;
      while numDigits > keep && digits[numDigits - 1] == '0'
        invariant keep <= numDigits <= |digits| && Stripped(digits[..numDigits], keep) == Stripped(digits, keep)
      {
        assert digits[..numDigits][..numDigits - 1] == digits[..numDigits - 1];
        numDigits := numDigits - 1;
      }
    }

    method WriteMixed(it: string) returns (out: string)
      requires 0 < |digits| + exp < |digits|
      ensures out == it + Render(Mixed(digits, |digits| + exp, specs), specs.upper, decimalPoint)
    {
      var fullExp := |digits| + exp;
      out := it + digits[..fullExp];
      Assembled(it, Mixed(digits, fullExp, specs), specs.upper, decimalPoint);
      if !specs.showpoint {
        var numDigits := StripZeros(fullExp);
        if numDigits != fullExp {
          out := out + [decimalPoint];
        }
        out := out + digits[fullExp..numDigits];
        assert digits[..numDigits][..fullExp] == digits[..fullExp];
        assert digits[..numDigits][fullExp..] == digits[fullExp..numDigits];
        return;
      }
      out := out + [decimalPoint];
      ghost var before := out;
      out := out + digits[fullExp..];
      out := Fill(out, specs.precision - |digits|);
      Twice(before, digits[fullExp..], Zeros(specs.precision - |digits|));
      ghost var kept := digits + Zeros(specs.precision - |digits|);
      assert kept[..fullExp] == digits[..fullExp];
      assert kept[fullExp..] == digits[fullExp..] + Zeros(specs.precision - |digits|);
    }

    method WriteFraction(it: string) returns (out: string)
      requires |digits| + exp <= 0
      ensures out == it + Render(Fraction(digits, -(|digits| + exp), specs), specs.upper, decimalPoint)
    {
      out := it + "0";
      var numZeros: nat := -(|digits| + exp);
      var numDigits: nat := |digits|;
      ghost var n := Fraction(digits, numZeros, specs);
      if numDigits == 0 && specs.precision >= 0 && specs.precision < numZeros {
        numZeros := specs.precision;
      }
      assert digits[..numDigits] == digits;
      if !specs.showpoint {
        numDigits := StripZeros(0);
      }
      assert n.frac == Zeros(numZeros) + digits[..numDigits];
      assert n.hasPoint == (numZeros != 0 || numDigits != 0 || specs.showpoint);
      Assembled(it, n, specs.upper, decimalPoint);
      if numZeros != 0 || numDigits != 0 || specs.showpoint {
        out := out + [decimalPoint];
        ghost var before := out;
        out := Fill(out, numZeros);
        out := out + digits[..numDigits];
        Twice(before, Zeros(numZeros), digits[..numDigits]);
      }
    }
  }

  /** What is left of a text after a prefix and a sign. */
  lemma Appended(it: string, sign: string, text: string)
    ensures it + sign <= it + (sign + text) && (it + (sign + text))[|it + sign|..] == text
  {
    assert it + (sign + text) == (it + sign) + text;
  }

  lemma Twice(a: string, b: string, c: string)
    ensures a + b + c == a + (b + c)
    ensures a + b + "" == a + b
  {
  }

  /** Writing the pieces one after the other. */
  lemma Assembled(it: string, n: Pieces, upper: bool, point: char)
    ensures n.hasPoint ==> it + n.whole + [point] + n.frac + Suffix(n, upper) == it + Render(n, upper, point)
    ensures n.hasPoint && n.exponent == None
        ==> it + n.whole + [point] + n.frac == it + n.whole + [point] + n.frac + Suffix(n, upper)
    ensures !n.hasPoint ==> it + n.whole + Suffix(n, upper) == it + Render(n, upper, point)
    ensures !n.hasPoint && n.frac == "" ==> it + n.whole + n.frac == it + n.whole
    ensures !n.hasPoint && n.exponent == None ==> it + n.whole == it + Render(n, upper, point)
  {
    assert it + n.whole + [point] + n.frac + Suffix(n, upper) == it + (n.whole + ([point] + n.frac) + Suffix(n, upper));
    assert it + n.whole + Suffix(n, upper) == it + (n.whole + "" + Suffix(n, upper));
  }

  /** std::fill_n with zeros. */
  method Fill(it: string, n: int) returns (out: string)
    ensures out == it + Zeros(n)
  {
    out := it;
    for i := 0 to if n < 0 then 0 else n
      invariant out == it + Zeros(i)
    {
      out := out + "0";
    }
  }

  /** What a writer writes without a sign reads back as its digits times a power of ten. */
  lemma WriterReadsBack(w: Writer)
    requires w.Printable() && AllDigits(w.digits) && IsPoint(w.decimalPoint) && w.specs.sign == NoSign
    requires |w.digits| >= 1 || w.exp < 0
    ensures ReadsAs(w.Text(), w.decimalPoint, DecimalValue(w.digits), w.exp)
  {
    var text := Render(Layout(w.digits, w.exp, w.specs), w.specs.upper, w.decimalPoint);
    assert "" + text == text;
    LayoutReadsBack(w.digits, w.exp, w.specs, w.decimalPoint);
  }
}
