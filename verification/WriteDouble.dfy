/**
 Writing a double without a format specification, and what reading the text gives: the
 decimal in it rounds, ties to even, to exactly the double that was written.
 */
module WriteDouble {
  import opened Powers
  import opened RealPowers
  import opened Wrappers
  import opened Floating
  import opened RoundingInterval
  import opened DigitSpec
  import opened FormatFloat
  import opened FloatWriter
  import Fallback = FallbackFormat

  /** q rounds to the nearest double u, a halfway point to the one with even significand. */
  ghost predicate RoundsToEven(u: nat, q: real)
    requires PositiveDouble(u)
  {
    RoundsTo(u, q, Even(u))
  }

  // ---------- a number rounds to one double only ----------

  lemma {:induction false} DoublesIncrease(u: nat, v: nat)
    requires u < v <= INFINITY_BITS
    ensures DoubleValue(u) < DoubleValue(v)
    decreases v
  {
    StepUp(v - 1);
    if u < v - 1 {
      DoublesIncrease(u, v - 1);
    }
  }

  lemma Ordered(u: nat, v: nat, q: real)
    requires PositiveDouble(u) && PositiveDouble(v) && u < v
    requires RoundsToEven(u, q)
    ensures !RoundsToEven(v, q)
  {
    if u + 1 < v {
      DoublesIncrease(u, v - 1);
      DoublesIncrease(u + 1, v);
    } else {
      Parity(u);
    }
  }

  lemma Parity(u: nat)
    ensures Even(u) <==> u % 2 == 0
    ensures Even(u + 1) <==> u % 2 != 0
  {
    EvenSignificand(u);
    EvenSignificand(u + 1);
  }

  lemma EvenSignificand(u: nat)
    ensures Even(u) <==> u % 2 == 0
  {
    assert u == u / TWO_52 * TWO_52 + u % TWO_52;
    assert u == 2 * (u / TWO_52 * (TWO_52 / 2)) + u % TWO_52;
  }

  /** Two doubles never share a decimal that rounds to both. */
  lemma RoundingIsUnique(u: nat, v: nat, q: real)
    requires PositiveDouble(u) && PositiveDouble(v)
    requires RoundsToEven(u, q) && RoundsToEven(v, q)
    ensures u == v
  {
    if u < v {
      Ordered(u, v, q);
    } else if v < u {
      Ordered(v, u, q);
    }
  }

  // ---------- writing ----------

  /** The text is a decimal number that rounds to u. */
  ghost predicate ReadsBack(text: string, u: nat)
    requires u < INFINITY_BITS
  {
    match ReadDecimal(text, '.')
    case None => false
    case Some((m, e)) => if u == 0 then Decimal(m, e) == 0.0 else RoundsToEven(u, Decimal(m, e))
  }

  lemma TextReadsBack(text: string, u: nat, m: int, e: int)
    requires u < INFINITY_BITS && ReadsAs(text, '.', m, e)
    ensures ReadsBack(text, u) <==> if u == 0 then m == 0 else RoundsToEven(u, Decimal(m, e))
  {
    var (m', e') := ReadDecimal(text, '.').value;
    SameNumberIsEqual(m', e', m, e);
    RMulIs(0.0, Ten(e));
    RMulCancel(m as real, 0.0, Ten(e));
  }

  /** Recognising more halfway points keeps a decimal in the rounding interval. */
  lemma AnswerRounds(u: nat, d: int, e: int, lowerTies: bool)
    requires PositiveDouble(u) && ShortestAndClosest(u, d, e, lowerTies)
    requires lowerTies ==> Even(u)
    ensures RoundsToEven(u, Decimal(d, e))
  {
  }

  /** Digits that read back as u, or zero for zero. */
  ghost predicate Answer(u: nat, digits: string, exp: int)
    requires u < INFINITY_BITS
  {
    && AllDigits(digits)
    && if u == 0 then DecimalValue(digits) == 0 else RoundsToEven(u, Decimal(DecimalValue(digits), exp))
  }

  /** Digits, or, for numbers of at least one, something that does not start with a digit. */
  predicate Printable(digits: string, exp: int) {
    && |digits| >= 1 && -400 <= exp + |digits| <= 400
    && (AllDigits(digits) || (!IsDigit(digits[0]) && exp + |digits| >= 1))
  }

  /** The doubles that are misprinted: powers of two from 2^52 on that Grisu gives up on. */
  ghost predicate Misprinted(u: nat, powers: int -> (Fp, int))
    requires u < INFINITY_BITS
  {
    u > 0 && Fallback.Misscaled(u) && GrisuGivesUp(u, powers)
  }

  /** The digits of zero, or shortest ones. */
  ghost predicate ShortestDigits(u: nat, powers: int -> (Fp, int), digits: string, exp: int)
    requires u < INFINITY_BITS
  {
    && AllDigits(digits) && |digits| >= 1
    && if u == 0 then digits == "0" && exp == 0 else ShortestOutput(u, powers, digits, exp)
  }

  /** The digits of a double read back as it, exactly if it is not misprinted. */
  method FormatDigits(u: nat, powers: int -> (Fp, int)) returns (digits: string, exp: int)
    requires u < INFINITY_BITS && PowerTable(powers)
    ensures Printable(digits, exp)
    ensures Answer(u, digits, exp) <==> !Misprinted(u, powers)
    ensures !Misprinted(u, powers) ==> ShortestDigits(u, powers, digits, exp)
  {
    digits, exp := FormatShortest(u, powers);
    if u > 0 {
      OutputReads(u, powers, digits, exp);
    } else {
      assert digits[..0] == "" && DecimalValue(digits[..0]) == 0;
      assert DecimalValue(digits) == 0;
    }
  }

  lemma OutputReads(u: nat, powers: int -> (Fp, int), digits: string, exp: int)
    requires PositiveDouble(u) && ShortestOutput(u, powers, digits, exp) && |digits| >= 1
    requires forall i :: 1 <= i < |digits| ==> IsDigit(digits[i])
    ensures Answer(u, digits, exp) <==> !Misprinted(u, powers)
    ensures AllDigits(digits) || !IsDigit(digits[0])
    ensures AllDigits(digits) || Misprinted(u, powers)
  {
    if !GrisuGivesUp(u, powers) {
      AnswerRounds(u, DecimalValue(digits), exp, false);
    } else if !Fallback.Misscaled(u) {
      AnswerRounds(u, DecimalValue(digits), exp, Fallback.LowerTies(u, exp + |digits| - 1));
    } else {
      assert !RoundsTo(u, Decimal(DecimalValue(digits), exp), true);
      assert !RoundsToEven(u, Decimal(DecimalValue(digits), exp));
    }
  }

  lemma LayoutReads(u: nat, digits: string, exp: int, specs: FloatSpecs)
    requires u < INFINITY_BITS && Printable(digits, exp)
    ensures ReadsBack(Render(Layout(digits, exp, specs), specs.upper, '.'), u) <==> Answer(u, digits, exp)
  {
    var text := Render(Layout(digits, exp, specs), specs.upper, '.');
    if AllDigits(digits) {
      LayoutReadsBack(digits, exp, specs, '.');
      TextReadsBack(text, u, DecimalValue(digits), exp);
    } else {
      StartsWithFirst(digits, exp, specs, '.');
      NotReadable(text, '.');
    }
  }

  const SIGN_BIT := TWO_63

  /** What is asked for when nothing is. */
  const PLAIN := FloatSpecs(-1, General, NoSign, false, false)

  /** The text shows the shortest digits of u, with an exponent if the first of them is at a
      place below -4 or from 16 on. */
  ghost predicate Shows(u: nat, powers: int -> (Fp, int), text: string)
    requires u < INFINITY_BITS
  {
    exists digits, exp :: ShortestDigits(u, powers, digits, exp)
                          && ReadsAs(text, '.', DecimalValue(digits), exp) && LaidOut(text, '.', digits, exp, PLAIN)
  }

  /** Appends the text of a finite double, given by its bits: a sign, and a text that reads
      back as the magnitude and shows its shortest digits, exactly if that is not misprinted. */
  method Write(it: string, bits: nat, powers: int -> (Fp, int)) returns (out: string)
    requires bits < TWO_64 && bits % SIGN_BIT < INFINITY_BITS && PowerTable(powers)
    ensures var prefix := it + (if bits >= SIGN_BIT then "-" else "");
            && prefix <= out
            && (ReadsBack(out[|prefix|..], bits % SIGN_BIT) <==> !Misprinted(bits % SIGN_BIT, powers))
            && (!Misprinted(bits % SIGN_BIT, powers) ==> Shows(bits % SIGN_BIT, powers, out[|prefix|..]))
  {
    var u := bits % SIGN_BIT;
    var digits, exp := FormatDigits(u, powers);
    out := WriteDigits(it, digits, exp, if bits >= SIGN_BIT then Minus else NoSign, u);
  }

  method WriteDigits(it: string, digits: string, exp: int, sign: Sign, ghost u: nat)
    returns (out: string)
    requires u < INFINITY_BITS && Printable(digits, exp)
    ensures it + SignText(sign) <= out
    ensures ReadsBack(out[|it + SignText(sign)|..], u) <==> Answer(u, digits, exp)
    ensures AllDigits(digits)
        ==> && ReadsAs(out[|it + SignText(sign)|..], '.', DecimalValue(digits), exp)
            && LaidOut(out[|it + SignText(sign)|..], '.', digits, exp, PLAIN)
  {
    ghost var text;
    out, text := WriteNumber(it, digits, exp, sign);
    LayoutReads(u, digits, exp, Effective(FloatSpecs(-1, General, sign, false, false), |digits|, exp));
    Appended(it, SignText(sign), text);
  }

  method WriteNumber(it: string, digits: string, exp: int, sign: Sign) returns (out: string, ghost text: string)
    requires Printable(digits, exp)
    ensures out == it + (SignText(sign) + text)
    ensures var specs := Effective(FloatSpecs(-1, General, sign, false, false), |digits|, exp);
            text == Render(Layout(digits, exp, specs), specs.upper, '.')
    ensures AllDigits(digits)
        ==> ReadsAs(text, '.', DecimalValue(digits), exp) && LaidOut(text, '.', digits, exp, PLAIN)
  {
    var w := new Writer(digits, exp, FloatSpecs(-1, General, sign, false, false), '.');
    text := w.Number();
    if AllDigits(digits) {
      SignIsApart(text, digits, exp, FloatSpecs(-1, General, sign, false, false), PLAIN);
    }
    out := w.Write(it);
  }
}
