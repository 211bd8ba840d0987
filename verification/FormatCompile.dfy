/**
 Formatting with a format string, directly and by compiling it to parts first. Printing one
 argument under resolved specifications is a parameter. No argument is of a user-defined
 type, since such arguments parse their own specifications.
 */
module FormatCompile {
  import opened Wrappers
  import opened Integers
  import opened BraceSearch
  import opened FormatParse

  // ---------- arguments ----------

  datatype Kind = Int | UInt | LongLong | ULongLong | Int128 | UInt128 | Bool | Char
                | Float | Double | LongDouble | CString | String | Pointer

  predicate IsInteger(k: Kind) {
    k.Int? || k.UInt? || k.LongLong? || k.ULongLong? || k.Int128? || k.UInt128?
  }

  predicate IsIntegral(k: Kind) {
    IsInteger(k) || k.Bool? || k.Char?
  }

  predicate IsArithmetic(k: Kind) {
    IsIntegral(k) || k.Float? || k.Double? || k.LongDouble?
  }

  /** An argument; the value matters here only for integers. */
  datatype Arg = Arg(kind: Kind, value: int, rest: string)

  datatype Specs = Specs(width: int, precision: int, type_: Option<char>, align: Align, sign: Sign,
                         alt: bool, fill: string)

  datatype Env = Env(args: seq<Arg>, names: map<string, nat>, show: (Arg, Option<Specs>) -> Option<string>)

  /** A reference to an argument once automatic numbers have been given out. */
  datatype Ref = ByIndex(index: nat) | ByName(name: string)

  function Lookup(env: Env, ref: Ref): Option<Arg> {
    match ref
    case ByIndex(i) => if i < |env.args| then Some(env.args[i]) else None
    case ByName(n) =>
      if n in env.names && env.names[n] < |env.args| then Some(env.args[env.names[n]]) else None
  }

  /** The value of an argument as a width or precision. */
  function DynamicValue(arg: Option<Arg>): (r: Option<nat>)
    ensures r.Some? <==> arg.Some? && IsInteger(arg.value.kind) && 0 <= arg.value.value <= MAX_INT
    ensures r.Some? ==> r.value == arg.value.value
  {
    match arg
    case None => None
    case Some(a) => if IsInteger(a.kind) && 0 <= a.value <= MAX_INT then Some(a.value) else None
  }

  // ---------- argument numbering ----------

  /** The next automatic index, or -1 once indices are given by hand. */
  class ParseContext {
    var nextArgId: int

    constructor ()
      ensures nextArgId == 0
    {
      nextArgId := 0;
    }

    method NextArgId() returns (id: Option<nat>)
      modifies this
      ensures match Numbered(Auto, old(nextArgId))
              case None => id == None && nextArgId == old(nextArgId)
              case Some((ref, next)) => id.Some? && ref == ByIndex(id.value) && nextArgId == next
    {
      if nextArgId >= 0 {
        id := Some(nextArgId);
        nextArgId := nextArgId + 1;
      } else {
        id := None;
      }
    }

    method CheckArgId(index: nat) returns (ok: bool)
      modifies this
      ensures match Numbered(Index(index), old(nextArgId))
              case None => !ok && nextArgId == old(nextArgId)
              case Some((ref, next)) => ok && nextArgId == next
    {
      ok := nextArgId <= 0;
      if ok {
        nextArgId := -1;
      }
    }

    /** The reference an argument id stands for; names are not numbered. */
    method Resolve(id: ArgId) returns (ref: Option<Ref>)
      modifies this
      ensures match Numbered(id, old(nextArgId))
              case None => ref == None
              case Some((r, next)) => ref == Some(r) && nextArgId == next
    {
      match id {
        case Auto =>
          var n := NextArgId();
          ref := if n.Some? then Some(ByIndex(n.value)) else None;
        case Index(i) =>
          var ok := CheckArgId(i);
          ref := if ok then Some(ByIndex(i)) else None;
        case Name(n) => ref := Some(ByName(n));
      }
    }
  }

  function Numbered(id: ArgId, next: int): Option<(Ref, int)> {
    match id
    case Auto => if next >= 0 then Some((ByIndex(next), next + 1)) else None
    case Index(i) => if next > 0 then None else Some((ByIndex(i), -1))
    case Name(n) => Some((ByName(n), next))
  }

  /** Numbering a sequence of ids from the start. */
  function NumberAll(ids: seq<ArgId>): Option<(seq<Ref>, int)> {
    if |ids| == 0 then Some(([], 0))
    else match NumberAll(ids[..|ids| - 1])
      case None => None
      case Some((refs, next)) =>
        match Numbered(ids[|ids| - 1], next)
        case None => None
        case Some((ref, next')) => Some((refs + [ref], next'))
  }

  function Autos(ids: seq<ArgId>): nat {
    if |ids| == 0 then 0 else Autos(ids[..|ids| - 1]) + if ids[|ids| - 1].Auto? then 1 else 0
  }

  predicate HasIndex(ids: seq<ArgId>) {
    exists i :: 0 <= i < |ids| && ids[i].Index?
  }

  /** Automatic and manual indices exclude each other, and the automatic ones count up. */
  lemma {:induction false} NumberingIsConsistent(ids: seq<ArgId>)
    ensures NumberAll(ids).Some? <==> !(Autos(ids) > 0 && HasIndex(ids))
    ensures NumberAll(ids).Some? ==> NumberAll(ids).value.1 == if HasIndex(ids) then -1 else Autos(ids)
    ensures NumberAll(ids).Some? ==> |NumberAll(ids).value.0| == |ids|
    ensures NumberAll(ids).Some? ==> forall k :: 0 <= k < |ids| ==>
      NumberAll(ids).value.0[k] == match ids[k]
                                   case Auto => ByIndex(Autos(ids[..k]))
                                   case Index(i) => ByIndex(i)
                                   case Name(n) => ByName(n)
  {
    if |ids| > 0 {
      var n := |ids| - 1;
      NumberingIsConsistent(ids[..n]);
      assert HasIndex(ids) <==> HasIndex(ids[..n]) || ids[n].Index? by {
        if HasIndex(ids[..n]) {
          var i :| 0 <= i < n && ids[..n][i].Index?;
          assert ids[i].Index?;
        }
        if HasIndex(ids) && !ids[n].Index? {
          var i :| 0 <= i < |ids| && ids[i].Index?;
          assert ids[..n][i].Index?;
        }
      }
      forall k | 0 <= k < n
        ensures ids[..n][..k] == ids[..k]
      {
      }
    }
  }

  // ---------- specifications ----------

  /** What the specifications set apart from dynamic dimensions. */
  function BaseSpecs(raw: RawSpecs): Specs {
    var fill := if raw.fill == "" then " " else raw.fill;
    Specs(if raw.width.Fixed? then raw.width.value else 0,
          if raw.precision.Fixed? then raw.precision.value else -1,
          raw.type_, if raw.zero then Numeric else raw.align, raw.sign, raw.hash,
          if raw.zero then fill[0 := '0'] else fill)
  }

  predicate SignAllowed(k: Kind) {
    IsArithmetic(k) && !(IsIntegral(k) && !k.Int? && !k.LongLong? && !k.Char?)
  }

  predicate PrecisionAllowed(k: Kind) {
    !IsIntegral(k) && !k.Pointer?
  }

  // ---------- direct formatting ----------

  datatype Direct = Direct(out: string, next: int)

  /** A dimension taken from an argument while the specifications are being parsed. */
  function DimensionNow(d: Dimension, absent: int, env: Env, next: int): Option<(int, int)> {
    match d
    case Absent => Some((absent, next))
    case Fixed(n) => Some((n, next))
    case Dynamic(id) =>
      match Numbered(id, next)
      case None => None
      case Some((ref, next')) =>
        match DynamicValue(Lookup(env, ref))
        case None => None
        case Some(n) => Some((n, next'))
  }

  /** Specifications checked against the argument as they are parsed. */
  function SpecsNow(raw: RawSpecs, k: Kind, env: Env, next: int): Option<(Specs, int)> {
    if raw.sign != NoSign && !SignAllowed(k) then None
    else if (raw.hash || raw.zero || raw.align == Numeric) && !IsArithmetic(k) then None
    else match DimensionNow(raw.width, 0, env, next)
      case None => None
      case Some((width, next1)) =>
        match DimensionNow(raw.precision, -1, env, next1)
        case None => None
        case Some((precision, next2)) =>
          if raw.precision != Absent && !PrecisionAllowed(k) then None
          else Some((BaseSpecs(raw).(width := width, precision := precision), next2))
  }

  function Printed(out: string, text: Option<string>, next: int): Option<Direct> {
    match text
    case None => None
    case Some(t) => Some(Direct(out + t, next))
  }

  function Handle(d: Direct, s: string, token: Token<Placeholder>, env: Env): Option<Direct> {
    match token
    case Text(b, e) => Some(d.(out := d.out + TextAt(s, b, e)))
    case Field(p) =>
      match Numbered(p.id, d.next)
      case None => None
      case Some((ref, next)) =>
        match Lookup(env, ref)
        case None => None
        case Some(arg) =>
          if p.Default? then Printed(d.out, env.show(arg, None), next)
          else match SpecsNow(p.specs, arg.kind, env, next)
            case None => None
            case Some((specs, next')) => Printed(d.out, env.show(arg, Some(specs)), next')
  }

  function HandleAll(s: string, tokens: seq<Token<Placeholder>>, env: Env): Option<Direct> {
    if |tokens| == 0 then Some(Direct("", 0))
    else match HandleAll(s, tokens[..|tokens| - 1], env)
      case None => None
      case Some(d) => Handle(d, s, tokens[|tokens| - 1], env)
  }

  // ---------- compilation ----------

  /** Specifications whose dynamic dimensions are references still to be looked up. */
  datatype DynamicSpecs = DynamicSpecs(specs: Specs, width: Option<Ref>, precision: Option<Ref>)

  datatype Part = TextPart(text: string) | ArgPart(ref: Ref) | Replacement(ref: Ref, specs: DynamicSpecs)

  datatype Compiled = Compiled(parts: seq<Part>, next: int)

  function DimensionRef(d: Dimension, next: int): Option<(Option<Ref>, int)> {
    match d
    case Dynamic(id) =>
      (match Numbered(id, next)
       case None => None
       case Some((ref, next')) => Some((Some(ref), next')))
    case _ => Some((None, next))
  }

  function MakeSpecs(raw: RawSpecs, next: int): Option<(DynamicSpecs, int)> {
    match DimensionRef(raw.width, next)
    case None => None
    case Some((width, next1)) =>
      match DimensionRef(raw.precision, next1)
      case None => None
      case Some((precision, next2)) => Some((DynamicSpecs(BaseSpecs(raw), width, precision), next2))
  }

  function Compile(c: Compiled, s: string, token: Token<Placeholder>): Option<Compiled> {
    match token
    case Text(b, e) => Some(c.(parts := c.parts + [TextPart(TextAt(s, b, e))]))
    case Field(p) =>
      match Numbered(p.id, c.next)
      case None => None
      case Some((ref, next)) =>
        if p.Default? then Some(Compiled(c.parts + [ArgPart(ref)], next))
        else match MakeSpecs(p.specs, next)
          case None => None
          case Some((specs, next')) => Some(Compiled(c.parts + [Replacement(ref, specs)], next'))
  }

  function CompileAll(s: string, tokens: seq<Token<Placeholder>>): Option<Compiled> {
    if |tokens| == 0 then Some(Compiled([], 0))
    else match CompileAll(s, tokens[..|tokens| - 1])
      case None => None
      case Some(c) => Compile(c, s, tokens[|tokens| - 1])
  }

  // ---------- replay ----------

  function DimensionThen(value: int, ref: Option<Ref>, env: Env): Option<int> {
    match ref
    case None => Some(value)
    case Some(r) =>
      match DynamicValue(Lookup(env, r))
      case None => None
      case Some(n) => Some(n)
  }

  function SpecsThen(d: DynamicSpecs, arg: Option<Arg>, env: Env): Option<Specs> {
    match (DimensionThen(d.specs.width, d.width, env), DimensionThen(d.specs.precision, d.precision, env))
    case (Some(width), Some(precision)) =>
      if (d.specs.align == Numeric || d.specs.alt) && !(arg.Some? && IsArithmetic(arg.value.kind)) then None
      else if d.specs.sign != NoSign && !(arg.Some? && SignAllowed(arg.value.kind)) then None
      else if precision >= 0 && arg.Some? && !PrecisionAllowed(arg.value.kind) then None
      else Some(d.specs.(width := width, precision := precision))
    case _ => None
  }

  /** The text of an argument; one that is missing prints as nothing. */
  function PrintOrNothing(arg: Option<Arg>, specs: Option<Specs>, env: Env): Option<string> {
    match arg
    case None => Some("")
    case Some(a) => env.show(a, specs)
  }

  function PartText(part: Part, env: Env): Option<string> {
    match part
    case TextPart(t) => Some(t)
    case ArgPart(ref) => PrintOrNothing(Lookup(env, ref), None, env)
    case Replacement(ref, d) =>
      match SpecsThen(d, Lookup(env, ref), env)
      case None => None
      case Some(specs) => PrintOrNothing(Lookup(env, ref), Some(specs), env)
  }

  function Replay(parts: seq<Part>, env: Env): Option<string> {
    if |parts| == 0 then Some("")
    else match (Replay(parts[..|parts| - 1], env), PartText(parts[|parts| - 1], env))
      case (Some(out), Some(t)) => Some(out + t)
      case _ => None
  }

  method VformatTo(parts: seq<Part>, env: Env) returns (r: Option<string>)
    ensures r == Replay(parts, env)
  {
    var out := "";
    for i := 0 to |parts|
      invariant Replay(parts[..i], env) == Some(out)
    {
      assert parts[..i + 1][..i] == parts[..i];
      var text := PartText(parts[i], env);
      if text == None {
        Unfinished(parts, i + 1, env);
        return None;
      }
      out := out + text.value;
    }
    assert parts[..|parts|] == parts;
    r := Some(out);
  }

  lemma {:induction false} Unfinished(parts: seq<Part>, i: nat, env: Env)
    requires i <= |parts| && Replay(parts[..i], env) == None
    ensures Replay(parts, env) == None
    decreases |parts|
  {
    if i < |parts| {
      assert parts[..|parts| - 1][..i] == parts[..i];
      Unfinished(parts[..|parts| - 1], i, env);
    } else {
      assert parts[..i] == parts;
    }
  }

  // ---------- compiled and direct formatting agree ----------

  predicate Present(part: Part, env: Env) {
    part.TextPart? || Lookup(env, part.ref).Some?
  }

  predicate AllPresent(parts: seq<Part>, env: Env) {
    forall i :: 0 <= i < |parts| ==> Present(parts[i], env)
  }

  /** What replaying should give: an error if an argument is missing. */
  function Outcome(parts: seq<Part>, env: Env): Option<string> {
    if AllPresent(parts, env) then Replay(parts, env) else None
  }

  lemma OutcomeSnoc(parts: seq<Part>, part: Part, env: Env)
    ensures Outcome(parts + [part], env)
         == match (Outcome(parts, env), if Present(part, env) then PartText(part, env) else None)
            case (Some(out), Some(t)) => Some(out + t)
            case _ => None
  {
    var all := parts + [part];
    assert all[..|parts|] == parts && all[|parts|] == part;
    assert AllPresent(all, env) <==> AllPresent(parts, env) && Present(part, env) by {
      if AllPresent(all, env) {
        assert forall i :: 0 <= i < |parts| ==> parts[i] == all[i];
        assert Present(all[|parts|], env);
      }
    }
  }

  lemma DimensionsAgree(d: Dimension, absent: int, env: Env, next: int)
    ensures match DimensionRef(d, next)
            case None => DimensionNow(d, absent, env, next) == None
            case Some((ref, next')) =>
              DimensionNow(d, absent, env, next)
              == match DimensionThen(if d.Fixed? then d.value else absent, ref, env)
                 case None => None
                 case Some(n) => Some((n, next'))
  {
  }

  lemma SpecsAgree(raw: RawSpecs, arg: Arg, env: Env, next: int)
    ensures match MakeSpecs(raw, next)
            case None => SpecsNow(raw, arg.kind, env, next) == None
            case Some((d, next')) =>
              SpecsNow(raw, arg.kind, env, next)
              == match SpecsThen(d, Some(arg), env)
                 case None => None
                 case Some(specs) => Some((specs, next'))
  {
    DimensionsAgree(raw.width, 0, env, next);
    match DimensionRef(raw.width, next)
    case None =>
    case Some((width, next1)) => DimensionsAgree(raw.precision, -1, env, next1);
  }

  /** One token handled directly, and compiled and then replayed. */
  lemma TokenAgrees(d: Direct, c: Compiled, s: string, token: Token<Placeholder>, env: Env)
    requires d.next == c.next
    ensures match Compile(c, s, token)
            case None => Handle(d, s, token, env) == None
            case Some(c') =>
              && |c'.parts| == |c.parts| + 1 && c'.parts[..|c.parts|] == c.parts
              && var part := c'.parts[|c.parts|];
                 match (if Present(part, env) then PartText(part, env) else None)
                 case None => Handle(d, s, token, env) == None
                 case Some(t) => Handle(d, s, token, env) == Some(Direct(d.out + t, c'.next))
  {
    match token
    case Text(b, e) =>
    case Field(p) =>
      match Numbered(p.id, c.next)
      case None =>
      case Some((ref, next)) =>
        match Lookup(env, ref)
        case None =>
        case Some(arg) =>
          if p.WithSpecs? {
            SpecsAgree(p.specs, arg, env, next);
          }
  }

  /** The direct handler is, at every token, where the replay of the parts so far is. */
  lemma {:induction false} TokensAgree(s: string, tokens: seq<Token<Placeholder>>, env: Env)
    ensures match CompileAll(s, tokens)
            case None => HandleAll(s, tokens, env) == None
            case Some(c) =>
              && |c.parts| == |tokens|
              && (HandleAll(s, tokens, env)
                  == match Outcome(c.parts, env)
                     case None => None
                     case Some(out) => Some(Direct(out, c.next)))
  {
    if |tokens| > 0 {
      var init, token := tokens[..|tokens| - 1], tokens[|tokens| - 1];
      TokensAgree(s, init, env);
      match CompileAll(s, init)
      case None =>
      case Some(c) =>
        var d := Direct(if Outcome(c.parts, env).Some? then Outcome(c.parts, env).value else "", c.next);
        TokenAgrees(d, c, s, token, env);
        match Compile(c, s, token)
        case None =>
        case Some(c') =>
          assert c'.parts == c.parts + [c'.parts[|c.parts|]];
          OutcomeSnoc(c.parts, c'.parts[|c.parts|], env);
    }
  }

  // ---------- format strings ----------

  function Format(s: string, env: Env): Option<string> {
    ReaderIsSound();
    match AllEvents(s, ReadBySpecs)
    case None => None
    case Some(tokens) =>
      match HandleAll(s, tokens, env)
      case None => None
      case Some(d) => Some(d.out)
  }

  function CompileFormat(s: string): Option<seq<Part>> {
    ReaderIsSound();
    match AllEvents(s, ReadBySpecs)
    case None => None
    case Some(tokens) =>
      match CompileAll(s, tokens)
      case None => None
      case Some(c) => Some(c.parts)
  }

  /** Replaying the compiled parts gives what direct formatting gives, for every string and all
      arguments, exactly if no argument that is to be printed is missing or the replay fails
      anyway. */
  lemma CompiledAgrees(s: string, env: Env)
    ensures match CompileFormat(s)
            case None => Format(s, env) == None
            case Some(parts) =>
              && (AllPresent(parts, env) ==> Format(s, env) == Replay(parts, env))
              && (!AllPresent(parts, env) ==> Format(s, env) == None)
              && (Format(s, env) == Replay(parts, env) <==> AllPresent(parts, env) || Replay(parts, env) == None)
  {
    ReaderIsSound();
    match AllEvents(s, ReadBySpecs)
    case None =>
    case Some(tokens) => TokensAgree(s, tokens, env);
  }

  /** A missing argument is an error for one and nothing for the other. */
  lemma MissingArgumentDiffers(env: Env)
    requires env.args == []
    ensures Format("{}", env) == None
    ensures CompileFormat("{}") == Some([ArgPart(ByIndex(0))])
    ensures Replay([ArgPart(ByIndex(0))], env) == Some("")
  {
    var parts := [ArgPart(ByIndex(0))];
    OnePart(parts);
    NothingReplayed(parts, env);
    CompiledAgrees("{}", env);
  }

  lemma OnePart(parts: seq<Part>)
    requires parts == [ArgPart(ByIndex(0))]
    ensures CompileFormat("{}") == Some(parts)
  {
    var tokens: seq<Token<Placeholder>> := [Field(Default(Auto))];
    OneField(tokens);
    OneCompiled(tokens, parts);
  }

  lemma OneCompiled(tokens: seq<Token<Placeholder>>, parts: seq<Part>)
    requires tokens == [Field(Default(Auto))] && parts == [ArgPart(ByIndex(0))]
    ensures CompileAll("{}", tokens) == Some(Compiled(parts, 1))
  {
    assert tokens[..0] == [];
    assert [] + parts == parts;
  }

  lemma NothingReplayed(parts: seq<Part>, env: Env)
    requires parts == [ArgPart(ByIndex(0))] && env.args == []
    ensures Replay(parts, env) == Some("") && !AllPresent(parts, env)
  {
    assert !Present(parts[0], env);
    assert parts[..0] == [] && Replay(parts[..0], env) == Some("") && "" + "" == "";
  }

  lemma OneField(tokens: seq<Token<Placeholder>>)
    requires tokens == [Field(Default(Auto))]
    ensures Sound(ReadBySpecs) && AllEvents("{}", ReadBySpecs) == Some(tokens)
  {
    ReaderIsSound();
    var s := "{}";
    assert s[0..] == s;
    OneFieldOnly(s, ReadBySpecs, Throw, Field(Default(Auto)));
  }

  // ---------- the handlers ----------

  /** Turns tokens into parts, one at a time. */
  class FormatStringCompiler {
    const s: string
    var parts: seq<Part>
    const parseContext: ParseContext

    constructor (s: string)
      ensures this.s == s && State() == Compiled([], 0) && fresh(parseContext)
    {
      this.s := s;
      parts := [];
      parseContext := new ParseContext();
    }

    ghost function State(): Compiled
      reads this, parseContext
    {
      Compiled(parts, parseContext.nextArgId)
    }

    method OnText(begin: nat, end: nat)
      modifies this
      ensures State() == old(State()).(parts := old(parts) + [TextPart(TextAt(s, begin, end))])
    {
      parts := parts + [TextPart(TextAt(s, begin, end))];
    }

    method OnToken(token: Token<Placeholder>) returns (ok: bool)
      modifies this, parseContext
      ensures match Compile(old(State()), s, token)
              case None => !ok
              case Some(c) => ok && State() == c
    {
      ok := true;
      match token {
        case Text(b, e) => OnText(b, e);
        case Field(p) => ok := OnField(p);
      }
    }

    method OnField(p: Placeholder) returns (ok: bool)
      modifies this, parseContext
      ensures match Compile(old(State()), s, Field(p))
              case None => !ok
              case Some(c) => ok && State() == c
    {
      var ref := parseContext.Resolve(p.id);
      if ref == None {
        return false;
      }
      if p.Default? {
        parts := parts + [ArgPart(ref.value)];
        return true;
      }
      var specs := OnFormatSpecs(p.specs);
      ok := specs.Some?;
      if ok {
        parts := parts + [Replacement(ref.value, specs.value)];
      }
    }

    method OnFormatSpecs(raw: RawSpecs) returns (specs: Option<DynamicSpecs>)
      modifies parseContext
      ensures match MakeSpecs(raw, old(parseContext.nextArgId))
              case None => specs == None
              case Some((d, next)) => specs == Some(d) && parseContext.nextArgId == next
    {
      var okWidth, width := OnDimension(raw.width);
      if !okWidth {
        return None;
      }
      var okPrecision, precision := OnDimension(raw.precision);
      specs := if okPrecision then Some(DynamicSpecs(BaseSpecs(raw), width, precision)) else None;
    }

    method OnDimension(d: Dimension) returns (ok: bool, ref: Option<Ref>)
      modifies parseContext
      ensures match DimensionRef(d, old(parseContext.nextArgId))
              case None => !ok
              case Some((r, next)) => ok && ref == r && parseContext.nextArgId == next
    {
      ok, ref := true, None;
      if d.Dynamic? {
        ref := parseContext.Resolve(d.id);
        ok := ref.Some?;
      }
    }
  }

  lemma CompileNext(s: string, tokens: seq<Token<Placeholder>>, i: nat)
    requires i < |tokens|
    ensures CompileAll(s, tokens[..i + 1])
         == match CompileAll(s, tokens[..i])
            case None => None
            case Some(c) => Compile(c, s, tokens[i])
  {
    assert tokens[..i + 1][..i] == tokens[..i];
  }

  /** Compiles a format string into its parts. */
  method CompileToParts(s: string) returns (r: Option<seq<Part>>)
    ensures r == CompileFormat(s)
  {
    ReaderIsSound();
    var tokens := ParseFormatString(s, ReadBySpecs, true);
    if tokens == None {
      return None;
    }
    var compiler := new FormatStringCompiler(s);
    for i := 0 to |tokens.value|
      invariant fresh(compiler) && fresh(compiler.parseContext) && compiler.s == s
      invariant CompileAll(s, tokens.value[..i]) == Some(compiler.State())
    {
      CompileNext(s, tokens.value, i);
      var ok := compiler.OnToken(tokens.value[i]);
      if !ok {
        NotCompiled(s, tokens.value, i + 1);
        return None;
      }
    }
    assert tokens.value[..|tokens.value|] == tokens.value;
    r := Some(compiler.parts);
  }

  lemma {:induction false} NotCompiled(s: string, tokens: seq<Token<Placeholder>>, i: nat)
    requires i <= |tokens| && CompileAll(s, tokens[..i]) == None
    ensures CompileAll(s, tokens) == None
    decreases |tokens|
  {
    if i < |tokens| {
      assert tokens[..|tokens| - 1][..i] == tokens[..i];
      NotCompiled(s, tokens[..|tokens| - 1], i);
    } else {
      assert tokens[..i] == tokens;
    }
  }

  /** Formats directly, token by token. */
  class FormatHandler {
    const s: string
    const env: Env
    var out: string
    const parseContext: ParseContext

    constructor (s: string, env: Env)
      ensures this.s == s && this.env == env && State() == Direct("", 0) && fresh(parseContext)
    {
      this.s, this.env, out := s, env, "";
      parseContext := new ParseContext();
    }

    ghost function State(): Direct
      reads this, parseContext
    {
      Direct(out, parseContext.nextArgId)
    }

    method OnText(begin: nat, end: nat)
      modifies this
      ensures State() == old(State()).(out := old(out) + TextAt(s, begin, end))
    {
      out := out + TextAt(s, begin, end);
    }

    method OnToken(token: Token<Placeholder>) returns (ok: bool)
      modifies this, parseContext
      ensures match Handle(old(State()), s, token, env)
              case None => !ok
              case Some(d) => ok && State() == d
    {
      ok := true;
      match token {
        case Text(b, e) => OnText(b, e);
        case Field(p) => ok := OnField(p);
      }
    }

    method OnField(p: Placeholder) returns (ok: bool)
      modifies this, parseContext
      ensures match Handle(old(State()), s, Field(p), env)
              case None => !ok
              case Some(d) => ok && State() == d
    {
      var ref := parseContext.Resolve(p.id);
      if ref == None || Lookup(env, ref.value) == None {
        return false;
      }
      var arg, specs: Option<Specs> := Lookup(env, ref.value).value, None;
      if p.WithSpecs? {
        specs := OnFormatSpecs(p.specs, arg.kind);
        if specs == None {
          return false;
        }
      }
      var text := env.show(arg, specs);
      ok := text.Some?;
      if ok {
        out := out + text.value;
      }
    }

    method OnFormatSpecs(raw: RawSpecs, k: Kind) returns (specs: Option<Specs>)
      modifies parseContext
      ensures match SpecsNow(raw, k, env, old(parseContext.nextArgId))
              case None => specs == None
              case Some((d, next)) => specs == Some(d) && parseContext.nextArgId == next
    {
      if raw.sign != NoSign && !SignAllowed(k) {
        return None;
      }
      if (raw.hash || raw.zero || raw.align == Numeric) && !IsArithmetic(k) {
        return None;
      }
      var width := OnDimension(raw.width, 0);
      if width == None {
        return None;
      }
      var precision := OnDimension(raw.precision, -1);
      if precision == None || (raw.precision != Absent && !PrecisionAllowed(k)) {
        return None;
      }
      specs := Some(BaseSpecs(raw).(width := width.value, precision := precision.value));
    }

    method OnDimension(d: Dimension, absent: int) returns (n: Option<int>)
      modifies parseContext
      ensures match DimensionNow(d, absent, env, old(parseContext.nextArgId))
              case None => n == None
              case Some((m, next)) => n == Some(m) && parseContext.nextArgId == next
    {
      match d {
        case Absent => n := Some(absent);
        case Fixed(m) => n := Some(m);
        case Dynamic(id) =>
          var ref := parseContext.Resolve(id);
          if ref == None {
            return None;
          }
          var value := DynamicValue(Lookup(env, ref.value));
          n := if value.Some? then Some(value.value) else None;
      }
    }
  }

  lemma HandleNext(s: string, tokens: seq<Token<Placeholder>>, i: nat, env: Env)
    requires i < |tokens|
    ensures HandleAll(s, tokens[..i + 1], env)
         == match HandleAll(s, tokens[..i], env)
            case None => None
            case Some(d) => Handle(d, s, tokens[i], env)
  {
    assert tokens[..i + 1][..i] == tokens[..i];
  }

  method FormatDirectly(s: string, env: Env) returns (r: Option<string>)
    ensures r == Format(s, env)
  {
    ReaderIsSound();
    var tokens := ParseFormatString(s, ReadBySpecs, true);
    if tokens == None {
      return None;
    }
    var handler := new FormatHandler(s, env);
    for i := 0 to |tokens.value|
      invariant fresh(handler) && fresh(handler.parseContext) && handler.s == s && handler.env == env
      invariant HandleAll(s, tokens.value[..i], env) == Some(handler.State())
    {
      HandleNext(s, tokens.value, i, env);
      var ok := handler.OnToken(tokens.value[i]);
      if !ok {
        NotHandled(s, tokens.value, i + 1, env);
        return None;
      }
    }
    assert tokens.value[..|tokens.value|] == tokens.value;
    r := Some(handler.out);
  }

  lemma {:induction false} NotHandled(s: string, tokens: seq<Token<Placeholder>>, i: nat, env: Env)
    requires i <= |tokens| && HandleAll(s, tokens[..i], env) == None
    ensures HandleAll(s, tokens, env) == None
    decreases |tokens|
  {
    if i < |tokens| {
      assert tokens[..|tokens| - 1][..i] == tokens[..i];
      NotHandled(s, tokens[..|tokens| - 1], i, env);
    } else {
      assert tokens[..i] == tokens;
    }
  }
}
