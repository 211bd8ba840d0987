/**
 Spelling out replacement fields, which are read back as they were spelled: argument id, fill,
 alignment, sign, alternate form, zero flag, width, precision and type.
 */
module SpecSpelling {
  import opened Wrappers
  import opened DigitSpec
  import opened Decimals
  import opened Integers
  import opened BraceSearch
  import opened FormatParse

  // ---------- spelling ----------

  function SpellId(id: ArgId): string {
    match id
    case Auto => ""
    case Index(i) => Decimal(i)
    case Name(n) => n
  }

  /** An index fits an int; a name starts with a letter or underscore and goes on with those or digits. */
  predicate ProperId(id: ArgId) {
    match id
    case Auto => true
    case Index(i) => i <= MAX_INT
    case Name(n) => n != "" && IsNameStart(n[0]) && forall i :: 0 <= i < |n| ==> IsNameStart(n[i]) || IsDigit(n[i])
  }

  function AlignMark(align: Align): string {
    match align
    case Left => "<"
    case Right => ">"
    case Center => "^"
    case _ => ""
  }

  function SignMark(sign: Sign): string {
    match sign
    case NoSign => ""
    case Plus => "+"
    case Minus => "-"
    case Space => " "
  }

  function Mark(on: bool, c: char): string {
    if on then [c] else ""
  }

  function SpellDimension(d: Dimension): string {
    match d
    case Absent => ""
    case Fixed(n) => Decimal(n)
    case Dynamic(id) => "{" + SpellId(id) + "}"
  }

  function SpellPrecision(d: Dimension): string {
    if d.Absent? then "" else "." + SpellDimension(d)
  }

  predicate ProperDimension(d: Dimension) {
    match d
    case Absent => true
    case Fixed(n) => n <= MAX_INT
    case Dynamic(id) => ProperId(id)
  }

  function SpellType(type_: Option<char>): string {
    if type_.Some? then [type_.value] else ""
  }

  function Flags(raw: RawSpecs): string {
    SignMark(raw.sign) + (Mark(raw.hash, '#') + Mark(raw.zero, '0'))
  }

  function Tail(raw: RawSpecs): string {
    SpellPrecision(raw.precision) + SpellType(raw.type_)
  }

  /** Fill, alignment, sign, alternate form, zero, width, precision, type. */
  function Spell(raw: RawSpecs): string {
    raw.fill + (AlignMark(raw.align) + (Flags(raw) + (SpellDimension(raw.width) + Tail(raw))))
  }

  /** One code point in UTF-8, but not a brace. */
  predicate ProperFill(fill: string) {
    && 1 <= |fill| <= MAX_FILL && !IsBrace(fill[0]) && (fill[0] as int < 0x80 ==> |fill| == 1)
    && forall i :: 1 <= i < |fill| ==> 0x80 <= fill[i] as int < 0xC0
  }

  /** A character that means nothing else in a specification. */
  predicate ProperType(c: char) {
    !IsDigit(c) && c !in "<>^+- #.{}"
  }

  /** What the grammar can say: a fill comes with an alignment, and a width of zero does not
      come without the zero flag, for which it would be taken. */
  predicate Proper(raw: RawSpecs) {
    && raw.align != Numeric && (raw.fill != "" ==> ProperFill(raw.fill) && raw.align != NoAlign)
    && ProperDimension(raw.width) && (raw.width == Fixed(0) ==> raw.zero) && ProperDimension(raw.precision)
    && (raw.type_.Some? ==> ProperType(raw.type_.value))
  }

  // ---------- reading what was spelled ----------

  lemma IdReads(id: ArgId, rest: string)
    requires ProperId(id) && rest != "" && (rest[0] == '}' || rest[0] == ':')
    ensures ArgIdAt(SpellId(id) + rest) == Read(id, |SpellId(id)|)
  {
    match id
    case Auto => assert "" + rest == rest;
    case Index(i) =>
      ParsingUndoesPrinting(i, rest);
      DecimalReadsBack(i);
    case Name(n) => NameReads(n, rest);
  }

  lemma {:induction false} NameReads(n: string, rest: string)
    requires n != "" && (forall i :: 1 <= i < |n| ==> IsNameStart(n[i]) || IsDigit(n[i]))
    requires rest != "" && !IsNameStart(rest[0]) && !IsDigit(rest[0])
    ensures NameLength(n + rest) == |n| && (n + rest)[..|n|] == n
  {
    if |n| > 1 {
      NameReads(n[1..], rest);
      assert (n + rest)[1..] == n[1..] + rest;
    }
  }

  lemma NestedReads(id: ArgId, rest: string)
    requires ProperId(id)
    ensures NestedIdAt("{" + SpellId(id) + "}" + rest) == Read(Dynamic(id), |SpellId(id)| + 2)
  {
    hide ArgIdAt, SpellId;
    var s := "{" + SpellId(id) + "}" + rest;
    IdReads(id, "}" + rest);
    assert s[1..] == SpellId(id) + ("}" + rest);
  }

  lemma NumberReads(n: nat, rest: string)
    requires n <= MAX_INT && rest != "" && !IsDigit(rest[0])
    ensures IsDigit((Decimal(n) + rest)[0]) && NumberAt(Decimal(n) + rest) == Read(Fixed(n), |Decimal(n)|)
  {
    ParsingUndoesPrinting(n, rest);
  }

  lemma WidthReads(d: Dimension, rest: string)
    requires ProperDimension(d) && rest != "" && !IsDigit(rest[0]) && rest[0] != '{'
    ensures WidthAt(SpellDimension(d) + rest) == Read(d, |SpellDimension(d)|)
  {
    match d
    case Absent => assert "" + rest == rest;
    case Fixed(n) => NumberReads(n, rest);
    case Dynamic(id) => NestedReads(id, rest);
  }

  lemma PrecisionReads(d: Dimension, rest: string)
    requires ProperDimension(d) && d != Absent && rest != "" && !IsDigit(rest[0])
    ensures PrecisionAt(SpellDimension(d) + rest) == Read(d, |SpellDimension(d)|)
  {
    match d
    case Fixed(n) => NumberReads(n, rest);
    case Dynamic(id) => NestedReads(id, rest);
  }

  /** The closing brace of a field and whatever follows it. */
  predicate Closes(close: string) {
    close != "" && close[0] == '}'
  }

  lemma TypeReads(s: string, p: nat, type_: Option<char>, specs: RawSpecs, close: string)
    requires p <= |s| && s[p..] == SpellType(type_) + close && specs.type_ == None && Closes(close)
    requires type_.Some? ==> ProperType(type_.value)
    ensures TypeAt(s, p, specs) == Read(specs.(type_ := type_), |s| - |close|)
  {
    assert s[p] == s[p..][0];
  }

  lemma Dropped(s: string, p: nat, piece: string, rest: string)
    requires p <= |s| && s[p..] == piece + rest
    ensures p + |piece| <= |s| && s[p + |piece|..] == rest
    ensures piece + rest != "" ==> p < |s| && s[p] == (piece + rest)[0]
  {
    assert s[p + |piece|..] == s[p..][|piece|..];
    assert p < |s| ==> s[p] == s[p..][0];
  }

  lemma PointReads(s: string, p: nat, d: Dimension, mark: string, rest: string, specs: RawSpecs)
    requires p <= |s| && s[p..] == "." + (mark + rest) && mark == SpellDimension(d)
    requires ProperDimension(d) && d != Absent && rest != "" && !IsDigit(rest[0])
    ensures p + 1 + |mark| <= |s|
    ensures PrecisionThenType(s, p, specs) == TypeAt(s, p + 1 + |mark|, specs.(precision := d))
  {
    hide TypeAt, PrecisionAt;
    Dropped(s, p, ".", mark + rest);
    PrecisionReads(d, rest);
  }

  lemma NoPoint(s: string, p: nat, rest: string, specs: RawSpecs)
    requires p <= |s| && s[p..] == rest && rest != "" && rest[0] != '.'
    ensures PrecisionThenType(s, p, specs) == TypeAt(s, p, specs)
  {
    hide TypeAt, PrecisionAt;
    assert s[p] == s[p..][0];
  }

  /** The end of a specification: precision and type, up to the closing brace. */
  lemma TailReads(s: string, p: nat, raw: RawSpecs, specs: RawSpecs, close: string)
    requires p <= |s| && s[p..] == Tail(raw) + close && ProperDimension(raw.precision) && Closes(close)
    requires (raw.type_.Some? ==> ProperType(raw.type_.value)) && specs == raw.(precision := Absent, type_ := None)
    ensures PrecisionThenType(s, p, specs) == Read(raw, |s| - |close|)
  {
    hide PrecisionThenType, TypeAt;
    var mark, rest := SpellDimension(raw.precision), SpellType(raw.type_) + close;
    if raw.precision == Absent {
      assert s[p..] == rest;
      NoPoint(s, p, rest, specs);
      TypeReads(s, p, raw.type_, specs, close);
    } else {
      assert s[p..] == "." + (mark + rest) == ("." + mark) + rest;
      PointReads(s, p, raw.precision, mark, rest, specs);
      Dropped(s, p, "." + mark, rest);
      TypeReads(s, p + 1 + |mark|, raw.type_, specs.(precision := raw.precision), close);
    }
  }

  /** Neither a flag nor the start of a width, unless it is the zero flag or a digit. */
  predicate NoFlag(s: string) {
    s != "" && SignOf(s[0]) == NoSign && s[0] != '#'
  }

  lemma TailStarts(raw: RawSpecs, close: string)
    requires (raw.type_.Some? ==> ProperType(raw.type_.value)) && Closes(close)
    ensures var tail := Tail(raw) + close; NoFlag(tail) && !IsDigit(tail[0]) && tail[0] != '{'
  {
    hide SpellDimension;
  }

  lemma WidthStarts(d: Dimension, tail: string)
    requires NoFlag(tail) && !IsDigit(tail[0])
    ensures var rest := SpellDimension(d) + tail; NoFlag(rest) && (rest[0] == '0' ==> d == Fixed(0))
  {
    match d
    case Absent => assert SpellDimension(d) + tail == tail;
    case Fixed(n) => NumberStarts(n, tail);
    case Dynamic(id) => assert (SpellDimension(d) + tail)[0] == '{';
  }

  lemma NumberStarts(n: nat, tail: string)
    ensures IsDigit((Decimal(n) + tail)[0]) && ((Decimal(n) + tail)[0] == '0' ==> n == 0)
  {
    DecimalReadsBack(n);
  }

  lemma SignFound(s: string, p: nat, sign: Sign, rest: string) returns (q: nat)
    requires p <= |s| && s[p..] == SignMark(sign) + rest && rest != "" && SignOf(rest[0]) == NoSign
    ensures q == (if sign == NoSign then p else p + 1) && q < |s| && SignOf(s[p]) == sign && s[q..] == rest
  {
    q := p + |SignMark(sign)|;
    Dropped(s, p, SignMark(sign), rest);
    assert sign == NoSign ==> SignMark(sign) + rest == rest;
  }

  lemma MarkFound(s: string, p: nat, on: bool, c: char, rest: string) returns (q: nat)
    requires p <= |s| && s[p..] == Mark(on, c) + rest && rest != "" && (rest[0] == c ==> on)
    ensures q == (if on then p + 1 else p) && q < |s| && (s[p] == c <==> on) && s[q..] == rest
  {
    q := p + |Mark(on, c)|;
    Dropped(s, p, Mark(on, c), rest);
    assert !on ==> Mark(on, c) + rest == rest;
  }

  lemma FlagsRead(s: string, p: nat, raw: RawSpecs, rest: string) returns (q: nat)
    requires p <= |s| && s[p..] == Flags(raw) + rest && NoFlag(rest) && (rest[0] == '0' ==> raw.zero)
    ensures q < |s| && s[q..] == rest && FlagsOf(s, p) == (raw.sign, raw.hash, raw.zero, q)
  {
    hide FlagsOf, SignOf, SignMark, Mark, Flags, NoFlag;
    FlagsText(raw, rest);
    var zero := Mark(raw.zero, '0') + rest;
    var hash := Mark(raw.hash, '#') + zero;
    var q0 := SignFound(s, p, raw.sign, hash);
    var q1 := MarkFound(s, q0, raw.hash, '#', zero);
    q := MarkFound(s, q1, raw.zero, '0', rest);
    FlagsOfIs(s, p, raw.sign, q0, raw.hash, q1, raw.zero, q);
  }

  lemma FlagsText(raw: RawSpecs, rest: string)
    requires NoFlag(rest) && (rest[0] == '0' ==> raw.zero)
    ensures var zero := Mark(raw.zero, '0') + rest;
            var hash := Mark(raw.hash, '#') + zero;
            && Flags(raw) + rest == SignMark(raw.sign) + hash
            && rest != "" && zero != "" && hash != "" && SignOf(hash[0]) == NoSign
            && (zero[0] == '#' ==> raw.hash) && (rest[0] == '0' ==> raw.zero)
  {
  }

  lemma FlagsOfIs(s: string, p: nat, sign: Sign, q: nat, hash: bool, q1: nat, zero: bool, q2: nat)
    requires p < |s| && SignOf(s[p]) == sign && q == (if sign == NoSign then p else p + 1) && q < |s|
    requires (s[q] == '#' <==> hash) && q1 == (if hash then q + 1 else q) && q1 < |s|
    requires (s[q1] == '0' <==> zero) && q2 == if zero then q1 + 1 else q1
    ensures FlagsOf(s, p) == (sign, hash, zero, q2)
  {
  }

  /** The specifications before anything after the alignment is read, and after the flags are. */
  function AlignOnly(raw: RawSpecs): RawSpecs {
    RawSpecs(raw.fill, raw.align, NoSign, false, false, Absent, Absent, None)
  }

  function FlagsOnly(raw: RawSpecs): RawSpecs {
    raw.(width := Absent, precision := Absent, type_ := None)
  }

  lemma FlagsStep(s: string, p: nat, raw: RawSpecs, rest: string) returns (q: nat)
    requires p <= |s| && s[p..] == Flags(raw) + rest && NoFlag(rest) && (rest[0] == '0' ==> raw.zero)
    ensures q < |s| && s[q..] == rest
    ensures FlagsAt(s, p, AlignOnly(raw)) == WidthThenRest(s, q, FlagsOnly(raw))
  {
    hide FlagsOf, WidthThenRest, Flags;
    q := FlagsRead(s, p, raw, rest);
  }

  lemma WidthStep(s: string, p: nat, d: Dimension, rest: string, specs: RawSpecs)
    requires p < |s| && s[p..] == SpellDimension(d) + rest
    requires ProperDimension(d) && rest != "" && !IsDigit(rest[0]) && rest[0] != '{'
    ensures p + |SpellDimension(d)| <= |s|
    ensures WidthThenRest(s, p, specs)
         == PrecisionThenType(s, p + |SpellDimension(d)|, specs.(width := d))
  {
    hide PrecisionThenType, WidthAt, SpellDimension;
    WidthReads(d, rest);
  }

  lemma BodyReads(s: string, p: nat, raw: RawSpecs, close: string)
    requires p <= |s| && s[p..] == Flags(raw) + (SpellDimension(raw.width) + (Tail(raw) + close))
    requires Proper(raw) && Closes(close)
    ensures FlagsAt(s, p, AlignOnly(raw)) == Read(raw, |s| - |close|)
  {
    hide FlagsAt, WidthThenRest, PrecisionThenType, Flags, SpellDimension, Tail;
    TailStarts(raw, close);
    WidthStarts(raw.width, Tail(raw) + close);
    var q := FlagsStep(s, p, raw, SpellDimension(raw.width) + (Tail(raw) + close));
    WidthStep(s, q, raw.width, Tail(raw) + close, FlagsOnly(raw));
    Dropped(s, q, SpellDimension(raw.width), Tail(raw) + close);
    TailReads(s, q + |SpellDimension(raw.width)|, raw, raw.(precision := Absent, type_ := None), close);
  }

  // ---------- fill and alignment ----------

  lemma AlignReads(s: string, fill: string, align: Align, body: string, close: string)
    requires align != Numeric && (fill != "" ==> ProperFill(fill) && align != NoAlign)
    requires NoAligns(body) && Closes(close) && (fill == "" && align == NoAlign ==> body != "")
    requires s == fill + (AlignMark(align) + (body + close)) && s[0] != '}'
    ensures AlignAt(s) == Read((fill, align), |fill| + |AlignMark(align)|)
  {
    if fill != "" {
      FilledReads(fill, align, AlignMark(align) + (body + close));
    } else if align != NoAlign {
      UnfilledReads(align, s, body + close);
    } else {
      assert s == body + close;
      UnalignedReads(body, close);
    }
  }

  predicate NoAligns(s: string) {
    forall i :: 0 <= i < |s| ==> AlignOf(s[i]) == NoAlign
  }

  lemma FilledReads(fill: string, align: Align, rest: string)
    requires ProperFill(fill) && rest != "" && AlignOf(rest[0]) == align && align != NoAlign
    ensures AlignAt(fill + rest) == Read((fill, align), |fill| + 1)
  {
    FillReads(fill, rest);
    assert (fill + rest)[..|fill|] == fill && (fill + rest)[|fill|] == rest[0];
  }

  lemma UnfilledReads(align: Align, s: string, rest: string)
    requires |s| >= 1 && AlignOf(s[0]) == align && align != NoAlign
    requires s[1..] == rest && rest != "" && AlignOf(rest[0]) == NoAlign
    ensures AlignAt(s) == Read(("", align), 1)
  {
    assert s[1] == rest[0];
  }

  lemma UnalignedReads(body: string, close: string)
    requires body != "" && body[0] != '}' && NoAligns(body) && Closes(close)
    ensures AlignAt(body + close) == Read(("", NoAlign), 0)
  {
    var n := CodePointLength(body + close);
    assert n <= |body| by {
      assert (body + close)[|body|] == '}';
    }
    assert (body + close)[n] == if n < |body| then body[n] else '}';
  }

  lemma FillReads(fill: string, rest: string)
    requires ProperFill(fill) && rest != "" && rest[0] as int < 0x80
    ensures CodePointLength(fill + rest) == |fill|
  {
    if fill[0] as int >= 0x80 {
      assert (fill + rest)[1..] == fill[1..] + rest;
      ContinuationsAre(fill[1..], rest);
    }
  }

  lemma {:induction false} ContinuationsAre(c: string, rest: string)
    requires (forall i :: 0 <= i < |c| ==> 0x80 <= c[i] as int < 0xC0) && rest != "" && rest[0] as int < 0x80
    ensures Continuations(c + rest) == |c|
  {
    if c != "" {
      ContinuationsAre(c[1..], rest);
      assert (c + rest)[1..] == c[1..] + rest;
    } else {
      assert c + rest == rest;
    }
  }

  lemma IdHasNoAligns(id: ArgId)
    requires ProperId(id)
    ensures NoAligns(SpellId(id))
  {
    if id.Index? {
      DecimalReadsBack(id.index);
    }
  }

  lemma DimensionHasNoAligns(d: Dimension)
    requires ProperDimension(d)
    ensures NoAligns(SpellDimension(d))
  {
    match d
    case Absent =>
    case Fixed(n) => DecimalReadsBack(n);
    case Dynamic(id) => IdHasNoAligns(id);
  }

  lemma TailHasNoAligns(raw: RawSpecs)
    requires Proper(raw)
    ensures NoAligns(Tail(raw))
  {
    DimensionHasNoAligns(raw.precision);
  }

  lemma BodyHasNoAligns(raw: RawSpecs)
    requires Proper(raw)
    ensures NoAligns(Flags(raw) + (SpellDimension(raw.width) + Tail(raw)))
  {
    hide Tail, SpellDimension;
    DimensionHasNoAligns(raw.width);
    TailHasNoAligns(raw);
  }

  lemma ClosedAtOnce(s: string, specs: RawSpecs)
    requires |s| > 0 && s[0] == '}' && specs == AlignOnly(specs)
    ensures FlagsAt(s, 0, specs) == Read(specs, 0)
  {
    assert s[0..] == s;
  }

  /** Reading what was spelled gives it back, and stops at the closing brace. */
  lemma SpecsReadBack(raw: RawSpecs, close: string)
    requires Proper(raw) && Closes(close)
    ensures SpecsAt(Spell(raw) + close) == Read(raw, |Spell(raw)|)
  {
    hide AlignAt, FlagsAt, Flags, SpellDimension, Tail, NoAligns;
    var s, body := Spell(raw) + close, Flags(raw) + (SpellDimension(raw.width) + Tail(raw));
    var rest := Flags(raw) + (SpellDimension(raw.width) + (Tail(raw) + close));
    assert rest == body + close;
    assert s == raw.fill + (AlignMark(raw.align) + rest);
    BodyHasNoAligns(raw);
    var p := |raw.fill| + |AlignMark(raw.align)|;
    assert s[p..] == rest;
    BodyReads(s, p, raw, close);
    assert p > 0 ==> s[0] == (raw.fill + AlignMark(raw.align))[0];
    if s[0] == '}' {
      ClosedAtOnce(s, AlignOnly(raw));
    } else {
      AlignReads(s, raw.fill, raw.align, body, close);
    }
  }

  // ---------- fields ----------

  function SpellField(p: Placeholder): string {
    match p
    case Default(id) => "{" + SpellId(id) + "}"
    case WithSpecs(id, raw) => "{" + SpellId(id) + ":" + Spell(raw) + "}"
  }

  predicate ProperField(p: Placeholder) {
    ProperId(p.id) && (p.WithSpecs? ==> Proper(p.specs))
  }

  lemma IdInField(s: string, id: ArgId, rest: string)
    requires ProperId(id) && rest != "" && (rest[0] == '}' || rest[0] == ':') && s == "{" + (SpellId(id) + rest)
    ensures ArgIdAt(s[1..]) == Read(id, |SpellId(id)|) && s[|SpellId(id)| + 1..] == rest && s[1] != '{'
    ensures s[1] == '}' ==> id == Auto && rest[0] == '}'
  {
    hide ArgIdAt;
    IdReads(id, rest);
    assert s[1..] == SpellId(id) + rest;
    IdStarts(id, rest);
    assert s[1] == s[1..][0];
  }

  lemma IdStarts(id: ArgId, rest: string)
    requires ProperId(id) && rest != "" && (rest[0] == '}' || rest[0] == ':')
    ensures (SpellId(id) + rest)[0] != '{' && ((SpellId(id) + rest)[0] == '}' ==> id == Auto && rest[0] == '}')
  {
    match id
    case Auto => assert SpellId(id) + rest == rest;
    case Index(i) => NumberStarts(i, rest);
    case Name(n) =>
  }

  lemma DefaultReads(s: string, id: ArgId, close: string)
    requires ProperId(id) && Closes(close) && s == "{" + (SpellId(id) + close)
    ensures FieldAt(s) == Read(Some(Default(id)), |SpellId(id)| + 2)
  {
    hide ArgIdAt, SpecsAfter, SpellId;
    IdInField(s, id, close);
    assert s[|SpellId(id)| + 1] == s[|SpellId(id)| + 1..][0];
  }

  lemma WithSpecsReads(s: string, id: ArgId, raw: RawSpecs, close: string)
    requires ProperId(id) && Proper(raw) && Closes(close) && s == "{" + (SpellId(id) + (":" + (Spell(raw) + close)))
    ensures FieldAt(s) == Read(Some(WithSpecs(id, raw)), |SpellId(id)| + 2 + |Spell(raw)| + 1)
  {
    hide ArgIdAt, SpecsAt, SpellId, Spell;
    var q, rest := |SpellId(id)| + 1, Spell(raw) + close;
    IdInField(s, id, ":" + rest);
    assert s[q] == s[q..][0];
    Dropped(s, q, ":", rest);
    Dropped(s, q + 1, Spell(raw), close);
    SpecsReadBack(raw, close);
  }

  /** A field that was spelled is read as that field, whatever follows it. */
  lemma FieldReadsBack(p: Placeholder, after: string)
    requires ProperField(p)
    ensures FieldAt(SpellField(p) + after) == Read(Some(p), |SpellField(p)|)
  {
    hide FieldAt, SpellId, Spell;
    var s, close := SpellField(p) + after, "}" + after;
    match p
    case Default(id) =>
      assert s == "{" + (SpellId(id) + close);
      DefaultReads(s, id, close);
    case WithSpecs(id, raw) =>
      assert s == "{" + (SpellId(id) + (":" + (Spell(raw) + close)));
      WithSpecsReads(s, id, raw, close);
  }

  lemma TokenReadsBack(p: Placeholder)
    requires ProperField(p)
    ensures Sound(ReadBySpecs) && AllEvents(SpellField(p), ReadBySpecs) == Some([Field(p)])
  {
    hide FieldAt;
    var s := SpellField(p);
    ReaderIsSound();
    FieldReadsBack(p, "");
    assert s + "" == s && s[0..] == s;
    OneFieldOnly(s, ReadBySpecs, Throw, Field(p));
  }
}
