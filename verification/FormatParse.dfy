/** Replacement fields: argument ids and format specifications. */
module FormatParse {
  import opened Wrappers
  import opened DigitSpec
  import opened Integers
  import opened BraceSearch

  datatype ArgId = Auto | Index(index: nat) | Name(name: string)

  datatype Align = NoAlign | Left | Right | Center | Numeric

  /** A width or precision: not given, given, or taken from an argument. */
  datatype Dimension = Absent | Fixed(value: nat) | Dynamic(id: ArgId)

  /** What the specifications of a field say; an empty fill is not given. */
  datatype RawSpecs = RawSpecs(fill: string, align: Align, sign: Sign, hash: bool, zero: bool,
                               width: Dimension, precision: Dimension, type_: Option<char>)

  datatype Placeholder = Default(id: ArgId) | WithSpecs(id: ArgId, specs: RawSpecs)

  // ---------- argument ids ----------

  predicate IsNameStart(c: char) {
    'a' <= c <= 'z' || 'A' <= c <= 'Z' || c == '_'
  }

  /** The length of the name at the start of s, of which the first character is part anyway. */
  function NameLength(s: string): (n: nat)
    requires |s| > 0
    ensures 1 <= n <= |s|
    ensures forall i :: 1 <= i < n ==> IsNameStart(s[i]) || IsDigit(s[i])
    ensures n < |s| ==> !IsNameStart(s[n]) && !IsDigit(s[n])
  {
    if |s| > 1 && (IsNameStart(s[1]) || IsDigit(s[1])) then 1 + NameLength(s[1..]) else 1
  }

  predicate EndsId(s: string, n: nat) {
    n < |s| && (s[n] == '}' || s[n] == ':')
  }

  /** An index has no leading zeros and must be followed by a brace or a colon. */
  function ArgIdAt(s: string): (r: Read<ArgId>)
    requires |s| > 0
    ensures r.Read? ==> r.length <= |s| && Plain(s[..r.length])
  {
    if s[0] == '}' || s[0] == ':' then Read(Auto, 0)
    else if s[0] == '0' then
      if EndsId(s, 1) then Read(Index(0), 1) else Failed
    else if IsDigit(s[0]) then
      RunIsDigits(s, 0);
      assert s[..RunEnd(s, 0)] == s[0..RunEnd(s, 0)];
      match IntegerAt(s, 0)
      case Error => Failed
      case Ok(n) => if EndsId(s, RunEnd(s, 0)) then Read(Index(n), RunEnd(s, 0)) else Failed
    else if IsNameStart(s[0]) then Read(Name(s[..NameLength(s)]), NameLength(s))
    else Failed
  }

  method ParseArgId(s: string) returns (r: Read<ArgId>)
    requires |s| > 0
    ensures r == ArgIdAt(s)
  {
    if s[0] == '}' || s[0] == ':' {
      return Read(Auto, 0);
    }
    if IsDigit(s[0]) {
      var index, begin := 0, 1;
      if s[0] != '0' {
        var n, next := ParseNonnegativeInt(s, 0);
        if n.Error? {
          return Failed;
        }
        index, begin := n.value, next;
      }
      return if EndsId(s, begin) then Read(Index(index), begin) else Failed;
    }
    if !IsNameStart(s[0]) {
      return Failed;
    }
    var it := 1;
    while it < |s| && (IsNameStart(s[it]) || IsDigit(s[it]))
      invariant 1 <= it <= |s| && NameLength(s) == it - 1 + NameLength(s[it - 1..])
    {
      it := it + 1;
    }
    r := Read(Name(s[..it]), it);
  }

  // ---------- format specifications ----------

  /** The length of the first code point, by the leading bits of UTF-8. */
  function CodePointLength(s: string): (n: nat)
    requires |s| > 0
    ensures 1 <= n <= |s|
    ensures forall i :: 1 <= i < n ==> 0x80 <= s[i] as int < 0xC0
  {
    if s[0] as int < 0x80 then 1 else 1 + Continuations(s[1..])
  }

  function Continuations(s: string): (n: nat)
    ensures n <= |s| && forall i :: 0 <= i < n ==> 0x80 <= s[i] as int < 0xC0
  {
    if |s| > 0 && 0x80 <= s[0] as int < 0xC0 then 1 + Continuations(s[1..]) else 0
  }

  function AlignOf(c: char): Align {
    match c
    case '<' => Left
    case '>' => Right
    case '^' => Center
    case _ => NoAlign
  }

  const MAX_FILL := 4

  /** Fill and alignment; a fill is any code point but a brace, before an alignment. */
  function AlignAt(s: string): (r: Read<(string, Align)>)
    requires |s| > 0 && s[0] != '}'
    ensures r.Read? ==> r.length <= |s| && Plain(s[..r.length])
  {
    var n := CodePointLength(s);
    if n < |s| && AlignOf(s[n]) != NoAlign then
      if s[0] == '{' || n > MAX_FILL then Failed else Read((s[..n], AlignOf(s[n])), n + 1)
    else if AlignOf(s[0]) != NoAlign then Read(("", AlignOf(s[0])), 1)
    else Read(("", NoAlign), 0)
  }

  function SignOf(c: char): Sign {
    match c
    case '+' => Plus
    case '-' => Minus
    case ' ' => Space
    case _ => NoSign
  }

  /** An argument id in braces. */
  function NestedIdAt(s: string): (r: Read<Dimension>)
    requires |s| > 0 && s[0] == '{'
    ensures r.Read? ==> 2 <= r.length <= |s| && Plain(s[1..r.length - 1]) && s[r.length - 1] == '}'
  {
    if |s| == 1 then Failed
    else match ArgIdAt(s[1..])
      case Failed => Failed
      case Read(id, n) =>
        if n + 1 < |s| && s[n + 1] == '}' then
          assert s[1..n + 1] == s[1..][..n];
          Read(Dynamic(id), n + 2)
        else Failed
  }

  function NumberAt(s: string): (r: Read<Dimension>)
    requires |s| > 0 && IsDigit(s[0])
    ensures r.Read? ==> r.length <= |s| && Plain(s[..r.length])
  {
    RunIsDigits(s, 0);
    assert s[..RunEnd(s, 0)] == s[0..RunEnd(s, 0)];
    match IntegerAt(s, 0)
    case Error => Failed
    case Ok(n) => Read(Fixed(n), RunEnd(s, 0))
  }

  function WidthAt(s: string): (r: Read<Dimension>)
    requires |s| > 0
    ensures r.Read? ==> r.length <= |s|
  {
    if IsDigit(s[0]) then NumberAt(s)
    else if s[0] == '{' then NestedIdAt(s)
    else Read(Absent, 0)
  }

  /** After the point. */
  function PrecisionAt(s: string): (r: Read<Dimension>)
    ensures r.Read? ==> r.length <= |s|
  {
    if |s| > 0 && IsDigit(s[0]) then NumberAt(s)
    else if |s| > 0 && s[0] == '{' then NestedIdAt(s)
    else Failed
  }

  /** The specifications up to the first character that is not one. */
  function SpecsAt(s: string): (r: Read<RawSpecs>)
    ensures r.Read? ==> r.length <= |s|
  {
    var none := RawSpecs("", NoAlign, NoSign, false, false, Absent, Absent, None);
    if |s| == 0 || s[0] == '}' then Read(none, 0)
    else
      var a := AlignAt(s);
      if a.Failed? then Failed
      else FlagsAt(s, a.length, none.(fill := a.value.0, align := a.value.1))
  }

  /** Sign, alternate form and zero flags, and where they end. */
  function FlagsOf(s: string, p: nat): (r: (Sign, bool, bool, nat))
    requires p <= |s|
    ensures p <= r.3 <= |s| && NoBraces(s, p, r.3)
  {
    var sign := if p < |s| then SignOf(s[p]) else NoSign;
    var p1 := if sign != NoSign then p + 1 else p;
    var hash := p1 < |s| && s[p1] == '#';
    var p2 := if hash then p1 + 1 else p1;
    var zero := p2 < |s| && s[p2] == '0';
    (sign, hash, zero, if zero then p2 + 1 else p2)
  }

  function FlagsAt(s: string, p: nat, specs: RawSpecs): (r: Read<RawSpecs>)
    requires p <= |s|
    ensures r.Read? ==> p <= r.length <= |s|
  {
    var (sign, hash, zero, q) := FlagsOf(s, p);
    var specs := specs.(sign := sign, hash := hash, zero := zero);
    if q == |s| then Read(specs, q) else WidthThenRest(s, q, specs)
  }

  function WidthThenRest(s: string, p: nat, specs: RawSpecs): (r: Read<RawSpecs>)
    requires p < |s|
    ensures r.Read? ==> p <= r.length <= |s|
  {
    AfterWidth(s, p, WidthAt(s[p..]), specs)
  }

  function AfterWidth(s: string, p: nat, w: Read<Dimension>, specs: RawSpecs): (r: Read<RawSpecs>)
    requires p <= |s| && (w.Read? ==> p + w.length <= |s|)
    ensures r.Read? ==> p <= r.length <= |s|
  {
    if w.Failed? then Failed else PrecisionThenType(s, p + w.length, specs.(width := w.value))
  }

  function PrecisionThenType(s: string, p: nat, specs: RawSpecs): (r: Read<RawSpecs>)
    requires p <= |s|
    ensures r.Read? ==> p <= r.length <= |s|
  {
    if p < |s| && s[p] == '.' then AfterPoint(s, p, PrecisionAt(s[p + 1..]), specs) else TypeAt(s, p, specs)
  }

  function AfterPoint(s: string, p: nat, d: Read<Dimension>, specs: RawSpecs): (r: Read<RawSpecs>)
    requires p < |s| && (d.Read? ==> p + 1 + d.length <= |s|)
    ensures r.Read? ==> p <= r.length <= |s|
  {
    if d.Failed? then Failed else TypeAt(s, p + 1 + d.length, specs.(precision := d.value))
  }

  function TypeAt(s: string, p: nat, specs: RawSpecs): (r: Read<RawSpecs>)
    requires p <= |s|
    ensures r.Read? ==> p <= r.length <= |s|
  {
    if p < |s| && s[p] != '}' then Read(specs.(type_ := Some(s[p])), p + 1) else Read(specs, p)
  }

  // ---------- replacement fields ----------

  /** A replacement field, or, without a value, an escaped opening brace. */
  function FieldAt(s: string): (r: Read<Option<Placeholder>>)
    requires |s| > 0 && s[0] == '{'
    ensures r.Read? ==> 2 <= r.length <= |s|
  {
    if |s| == 1 then Failed
    else if s[1] == '}' then Read(Some(Default(Auto)), 2)
    else if s[1] == '{' then Read(None, 2)
    else FieldWith(s, ArgIdAt(s[1..]), SpecsAfter(s, ArgIdAt(s[1..])))
  }

  function SpecsAfter(s: string, id: Read<ArgId>): (r: Read<RawSpecs>) {
    if id.Read? && id.length + 1 < |s| && s[id.length + 1] == ':' then SpecsAt(s[id.length + 2..]) else Failed
  }

  /** A field, given what has been read of it. */
  function FieldWith(s: string, id: Read<ArgId>, specs: Read<RawSpecs>): (r: Read<Option<Placeholder>>)
    ensures r.Read? ==> 2 <= r.length <= |s| && r.value.Some?
  {
    if id.Read? && id.length + 1 < |s| then
      if s[id.length + 1] == '}' then Read(Some(Default(id.value)), id.length + 2)
      else if s[id.length + 1] == ':' then SpecFieldWith(s, id.length + 2, id.value, specs)
      else Failed
    else Failed
  }

  function SpecFieldWith(s: string, p: nat, id: ArgId, specs: Read<RawSpecs>): (r: Read<Option<Placeholder>>)
    ensures r.Read? ==> p < r.length <= |s| && r.value.Some?
  {
    if specs.Read? && p + specs.length < |s| && s[p + specs.length] == '}' then
      Read(Some(WithSpecs(id, specs.value)), p + specs.length + 1)
    else Failed
  }

  /** Reads a field with its specifications. */
  function ReadBySpecs(s: string, p: nat): Read<Token<Placeholder>> {
    if p < |s| && s[p] == '{' then
      match FieldAt(s[p..])
      case Failed => Failed
      case Read(None, n) => Read(Text(p + 1, p + 2), n)
      case Read(Some(placeholder), n) => Read(Field(placeholder), n)
    else Failed
  }

  lemma ReaderIsSound()
    ensures Sound(ReadBySpecs) && Escapes(ReadBySpecs)
  {
    forall s: string, p: nat | p + 1 < |s| && s[p] == '{' && s[p + 1] == '{'
      ensures ReadBySpecs(s, p) == Read(Text(p + 1, p + 2), 2)
    {
      assert s[p..][1] == s[p + 1];
    }
  }
}
