/**
 Writing a finite double as a format specification asks, with a precision or a presentation
 type: sign, notation, and how many digits follow the point.
 */
module WritePrecision {
  import opened Powers
  import opened Wrappers
  import opened Floating
  import opened DigitSpec
  import opened Integers
  import opened FormatFloat
  import opened FloatWriter
  import Precision = FormatPrecision

  /** What a presentation type, the alternate form and a precision ask for; None if the type is
      not one of these. Hexadecimal and locale-specific output are not part of this model. */
  function TypeSpecs(type_: Option<char>, alt: bool, wanted: Option<nat>): Option<FloatSpecs> {
    var specs := FloatSpecs(-1, General, NoSign, false, alt);
    match type_
    case None => Some(specs.(showpoint := alt || (wanted.Some? && wanted.value > 0)))
    case Some('g') => Some(specs)
    case Some('G') => Some(specs.(upper := true))
    case Some('e') => Some(specs.(format := Exponent, showpoint := alt || wanted != Some(0)))
    case Some('E') => Some(specs.(format := Exponent, upper := true, showpoint := alt || wanted != Some(0)))
    case Some('f') => Some(specs.(format := Fixed, showpoint := alt || wanted != Some(0)))
    case Some('F') => Some(specs.(format := Fixed, upper := true, showpoint := alt || wanted != Some(0)))
    case Some(_) => None
  }

  const DEFAULT_PRECISION := 6

  function PrecisionFor(wanted: Option<nat>): nat {
    if wanted.Some? then wanted.value else DEFAULT_PRECISION
  }

  /** The precision handed to the formatter: in exponent notation it counts the first digit too. */
  function DigitsFor(precision: nat, format: Format): nat {
    if format == Exponent then precision + 1 else precision
  }

  function AskedSpecs(type_: Option<char>, alt: bool, wanted: Option<nat>): (specs: FloatSpecs)
    requires TypeSpecs(type_, alt, wanted).Some?
    ensures specs.precision >= 0
  {
    var specs := TypeSpecs(type_, alt, wanted).value;
    specs.(precision := DigitsFor(PrecisionFor(wanted), specs.format))
  }

  /** The digits of zero, or those of a double to a precision. */
  ghost predicate RoundedTo(u: nat, powers: int -> (Fp, int), n: nat, fixed: bool, digits: string, exp: int)
    requires u < INFINITY_BITS
  {
    if u == 0 then
      && AllDigits(digits) && DecimalValue(digits) == 0
      && exp + (if fixed then n else 0) == 0 && |digits| == if n > 0 && fixed then n else 1
    else Precision.PrecisionOutput(u, Precision.ApproximationOf(u, powers), n, fixed, Some((digits, exp)))
  }

  /** The text denotes the rounded double, laid out as the specifications say. */
  ghost predicate ShowsDigits(u: nat, powers: int -> (Fp, int), specs: FloatSpecs, text: string, digits: string,
                              exp: int)
    requires u < INFINITY_BITS && specs.precision >= 0
  {
    && RoundedTo(u, powers, specs.precision, specs.format == Fixed, digits, exp)
    && ReadsAs(text, '.', DecimalValue(digits), exp)
    && (|digits| >= 1 || (specs.format == Fixed && exp < 0)) && LaidOut(text, '.', digits, exp, specs)
  }

  /** In the words of the presentation type, for numDigits digits of which the first is at a
      given place: e and E are the letter of the exponent, f and F have none, the others have one
      if the first digit is at a place below -4 or beyond the precision. */
  ghost predicate AsAsked(text: string, type_: Option<char>, alt: bool, wanted: Option<nat>, numDigits: nat,
                          first: int)
  {
    var precision, shape := PrecisionFor(wanted), ShapeOf(text, '.');
    if type_ in {Some('f'), Some('F')} then shape.letter == None && shape.frac == PointAndDigits(precision, alt)
    else if type_ in {Some('e'), Some('E')} then shape.letter == type_ && shape.frac == PointAndDigits(precision, alt)
    else
      var letter := if type_ == Some('G') then 'E' else 'e';
      && shape.letter == (if -4 <= first < (if precision > 0 then precision else 16) then None else Some(letter))
      && (if alt || (type_ == None && precision > 0) then
            precision >= 1 && first >= 0 ==> shape.frac == Some(Padded(precision, shape.letter.Some?, first))
          else shape.frac == Significant(numDigits, shape.letter.Some?, first))
  }

  /** With e and f, exactly as many digits follow the point as are wanted, and the point is left
      out only if there are none and the alternate form is not asked for. */
  function PointAndDigits(precision: nat, alt: bool): Option<nat> {
    if precision > 0 || alt then Some(precision) else None
  }

  /** Zeros fill up the precision; at least one digit follows the point without an exponent. */
  function Padded(precision: nat, hasExponent: bool, first: nat): nat
    requires precision >= 1
  {
    if hasExponent then precision - 1 else if precision > first + 1 then precision - first - 1 else 1
  }

  /** Or there are no more digits than significant ones, and no point without any. */
  function Significant(numDigits: nat, hasExponent: bool, first: int): Option<nat> {
    var after := numDigits - 1 - if hasExponent then 0 else first;
    if after > 0 then Some(after) else None
  }

  /** In fixed notation the digits end at the last place; otherwise there are not too many and
      the last is no zero after the point. */
  ghost predicate EndsInPlace(specs: FloatSpecs, digits: string, exp: int) {
    if specs.format == Fixed then if digits == "" then exp + specs.precision < 0 else exp + specs.precision == 0
    else && 1 <= |digits| <= (if specs.precision >= 1 then specs.precision else 1)
         && (exp < 0 ==> digits[|digits| - 1] != '0')
  }

  lemma RoundedForm(u: nat, powers: int -> (Fp, int), specs: FloatSpecs, digits: string, exp: int)
    requires u < INFINITY_BITS && specs.precision >= 0
    requires RoundedTo(u, powers, specs.precision, specs.format == Fixed, digits, exp)
    ensures AllDigits(digits) && (|digits| >= 1 || (specs.format == Fixed && exp < 0))
    ensures EndsInPlace(specs, digits, exp)
  {
  }

  lemma FixedEnds(text: string, specs: FloatSpecs, digits: string, exp: int)
    requires specs.format == Fixed && specs.precision >= 0 && (specs.precision > 0 ==> specs.showpoint)
    requires EndsInPlace(specs, digits, exp) && LaidOut(text, '.', digits, exp, specs)
    ensures ShapeOf(text, '.').letter == None
    ensures ShapeOf(text, '.').frac == if specs.showpoint then Some(specs.precision) else None
  {
  }

  lemma ExponentEnds(text: string, specs: FloatSpecs, digits: string, exp: int)
    requires specs.format == Exponent && (specs.precision > 1 ==> specs.showpoint)
    requires specs.precision >= 1 && EndsInPlace(specs, digits, exp) && LaidOut(text, '.', digits, exp, specs)
    ensures ShapeOf(text, '.').letter == Some(if specs.upper then 'E' else 'e')
    ensures ShapeOf(text, '.').frac == if specs.showpoint then Some(specs.precision - 1) else None
  {
  }

  lemma GeneralEnds(text: string, specs: FloatSpecs, digits: string, exp: int)
    requires specs.format == General && EndsInPlace(specs, digits, exp) && specs.precision >= 0
    requires LaidOut(text, '.', digits, exp, specs)
    ensures var shape, first := ShapeOf(text, '.'), |digits| + exp - 1;
            && (shape.letter == if -4 <= first < (if specs.precision > 0 then specs.precision else 16) then None
                                else Some(if specs.upper then 'E' else 'e'))
            && (specs.showpoint && specs.precision >= 1 && first >= 0
                ==> shape.frac == Some(Padded(specs.precision, shape.letter.Some?, first)))
            && (!specs.showpoint ==> shape.frac == Significant(|digits|, shape.letter.Some?, first))
  {
  }

  lemma FollowsFromLayout(specs: FloatSpecs, text: string, digits: string, exp: int, type_: Option<char>,
                          alt: bool, wanted: Option<nat>)
    requires TypeSpecs(type_, alt, wanted).Some? && specs == AskedSpecs(type_, alt, wanted)
    requires type_ == None ==> wanted.Some?
    requires EndsInPlace(specs, digits, exp) && LaidOut(text, '.', digits, exp, specs)
    ensures AsAsked(text, type_, alt, wanted, |digits|, |digits| + exp - 1)
  {
    hide ShapeOf, LaidOut, EndsInPlace, Padded, Significant;
    match specs.format {
      case Fixed => FixedEnds(text, specs, digits, exp);
      case Exponent => ExponentEnds(text, specs, digits, exp);
      case General => GeneralEnds(text, specs, digits, exp);
    }
  }

  /** Text, a call of the C library, or an error. */
  datatype Output = Written(text: string) | LibraryCall | TooBig

  /** The sign of the number, or else what the specifications want for one that is not negative. */
  function SignFor(negative: bool, wanted: Sign): Sign {
    if negative then Minus else if wanted == Minus then NoSign else wanted
  }

  function SignPrefix(negative: bool, wanted: Sign): string {
    if negative then "-" else if wanted == Plus then "+" else if wanted == Space then " " else ""
  }

  /** Whether the C library has to be asked for the digits. */
  ghost predicate LeftToLibrary(u: nat, powers: int -> (Fp, int), specs: FloatSpecs)
    requires u < INFINITY_BITS && specs.precision >= 0
  {
    u > 0 && Precision.PrecisionOutput(u, Precision.ApproximationOf(u, powers), specs.precision,
                                       specs.format == Fixed, None)
  }

  /** The text shows the rounded double as it is asked for. */
  ghost predicate Rendered(u: nat, powers: int -> (Fp, int), type_: Option<char>, alt: bool, wanted: Option<nat>,
                           text: string)
    requires u < INFINITY_BITS && TypeSpecs(type_, alt, wanted).Some?
  {
    exists digits, exp :: ShowsDigits(u, powers, AskedSpecs(type_, alt, wanted), text, digits, exp)
                          && AsAsked(text, type_, alt, wanted, |digits|, |digits| + exp - 1)
  }

  /** Appends a finite double, given by its bits. */
  method Write(it: string, bits: nat, sign: Sign, type_: Option<char>, alt: bool, wanted: Option<nat>,
               powers: int -> (Fp, int))
    returns (out: Output)
    requires bits < TWO_64 && bits % TWO_63 < INFINITY_BITS && PowerTable(powers)
    requires TypeSpecs(type_, alt, wanted).Some? && (type_ == None ==> wanted.Some?)
    requires wanted.Some? ==> wanted.value <= MAX_INT
    ensures var u, prefix := bits % TWO_63, it + SignPrefix(bits >= TWO_63, sign);
            && (out.TooBig? <==> type_ in {Some('e'), Some('E')} && PrecisionFor(wanted) == MAX_INT)
            && (out.LibraryCall? <==> !out.TooBig? && LeftToLibrary(u, powers, AskedSpecs(type_, alt, wanted)))
            && (out.Written?
                ==> prefix <= out.text && Rendered(u, powers, type_, alt, wanted, out.text[|prefix|..]))
  {
    hide ShowsDigits, AsAsked, LeftToLibrary, EndsInPlace, LaidOut, PowerTable;
    var specs := TypeSpecs(type_, alt, wanted).value;
    var precision := PrecisionFor(wanted);
    if specs.format == Exponent {
      if precision == MAX_INT {
        return TooBig;
      }
      precision := precision + 1;
    }
    specs := specs.(precision := precision);
    ghost var digits, exp;
    out, digits, exp := WriteWith(it, bits % TWO_63, specs, SignFor(bits >= TWO_63, sign), powers);
    if out.Written? {
      ghost var number := out.text[|it + SignText(SignFor(bits >= TWO_63, sign))|..];
      FollowsFromLayout(specs, number, digits, exp, type_, alt, wanted);
    }
  }

  method WriteWith(it: string, u: nat, specs: FloatSpecs, sign: Sign, powers: int -> (Fp, int))
    returns (out: Output, ghost digits: string, ghost exp: int)
    requires u < INFINITY_BITS && PowerTable(powers) && specs.sign == NoSign && specs.precision >= 0
    ensures !out.TooBig? && (out.LibraryCall? <==> LeftToLibrary(u, powers, specs))
    ensures out.Written?
        ==> var prefix := it + SignText(sign);
            && prefix <= out.text && ShowsDigits(u, powers, specs, out.text[|prefix|..], digits, exp)
            && EndsInPlace(specs, digits, exp)
  {
    var r := RoundDouble(u, specs, powers);
    if r == None {
      return LibraryCall, "", 0;
    }
    digits, exp := r.value.0, r.value.1;
    RoundedForm(u, powers, specs, digits, exp);
    var text := WriteRounded(it, r.value.0, r.value.1, specs, sign);
    out := Written(text);
  }

  method RoundDouble(u: nat, specs: FloatSpecs, powers: int -> (Fp, int)) returns (r: Option<(string, int)>)
    requires u < INFINITY_BITS && PowerTable(powers) && specs.precision >= 0
    ensures r == None <==> LeftToLibrary(u, powers, specs)
    ensures r.Some? ==> RoundedTo(u, powers, specs.precision, specs.format == Fixed, r.value.0, r.value.1)
    ensures r.Some? ==> -400 <= r.value.1 + |r.value.0| <= 400
  {
    r := Precision.FormatPrecision(u, specs.precision, specs.format == Fixed, powers);
  }

  method WriteRounded(it: string, digits: string, exp: int, specs: FloatSpecs, sign: Sign) returns (text: string)
    requires AllDigits(digits) && (|digits| >= 1 || (specs.format == Fixed && exp < 0))
    requires -400 <= exp + |digits| <= 400 && specs.sign == NoSign
    ensures var prefix := it + SignText(sign);
            && prefix <= text && LaidOut(text[|prefix|..], '.', digits, exp, specs)
            && ReadsAs(text[|prefix|..], '.', DecimalValue(digits), exp)
  {
    var w := new Writer(digits, exp, specs.(sign := sign), '.');
    text := w.Write(it);
    ghost var number := w.Number();
    assert text == it + (SignText(sign) + number);
    Appended(it, SignText(sign), number);
    SignIsApart(number, digits, exp, specs.(sign := sign), specs);
  }
}
