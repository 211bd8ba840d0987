/**
 What a format string means: literal text with its braces doubled stands for itself, and a
 field for the text of the argument it refers to, under the specifications it spells.
 */
module FormatMeaning {
  import opened Wrappers
  import opened BraceSearch
  import opened FormatParse
  import opened FormatCompile
  import opened SpecSpelling

  // ---------- what a field means ----------

  /** A space unless another fill is given; the zero flag puts a zero in place of its first unit. */
  function FillMeant(raw: RawSpecs): string {
    if raw.fill == "" then if raw.zero then "0" else " "
    else if raw.zero then "0" + raw.fill[1..] else raw.fill
  }

  /** What specifications say about everything but the dimensions that come from arguments. */
  function Meant(raw: RawSpecs, width: int, precision: int): Specs {
    Specs(width, precision, raw.type_, if raw.zero then Numeric else raw.align, raw.sign, raw.hash, FillMeant(raw))
  }

  /** Signs are for signed numbers, # and 0 for numbers, and a precision for numbers with a
      fraction and for strings. */
  predicate Accepts(k: Kind, raw: RawSpecs) {
    && (raw.sign != NoSign ==> k.Int? || k.LongLong? || k.Char? || k.Float? || k.Double? || k.LongDouble?)
    && (raw.hash || raw.zero ==> !k.CString? && !k.String? && !k.Pointer?)
    && (raw.precision != Absent ==> k.Float? || k.Double? || k.LongDouble? || k.CString? || k.String?)
  }

  function DimensionIds(d: Dimension): seq<ArgId> {
    if d.Dynamic? then [d.id] else []
  }

  /** The ids in a field, in the order in which they are numbered. */
  function FieldIds(p: Placeholder): seq<ArgId> {
    [p.id] + if p.Default? then [] else DimensionIds(p.specs.width) + DimensionIds(p.specs.precision)
  }

  function DimensionMeant(d: Dimension, absent: int, ref: Ref, env: Env): Option<int> {
    match d
    case Absent => Some(absent)
    case Fixed(n) => Some(n)
    case Dynamic(_) => match DynamicValue(Lookup(env, ref))
                       case None => None
                       case Some(n) => Some(n)
  }

  /** The text of an argument under specifications whose dimensions refer to others. */
  function TextMeant(raw: RawSpecs, refs: seq<Ref>, env: Env): Option<string>
    requires |refs| >= 1
  {
    match (Lookup(env, refs[0]), DimensionMeant(raw.width, 0, refs[if |refs| > 1 then 1 else 0], env),
           DimensionMeant(raw.precision, -1, refs[|refs| - 1], env))
    case (Some(arg), Some(width), Some(precision)) =>
      if Accepts(arg.kind, raw) then env.show(arg, Some(Meant(raw, width, precision))) else None
    case _ => None
  }

  lemma NumberSnoc(ids: seq<ArgId>, id: ArgId)
    ensures NumberAll(ids + [id])
         == match NumberAll(ids)
            case None => None
            case Some((refs, next)) =>
              match Numbered(id, next)
              case None => None
              case Some((ref, next')) => Some((refs + [ref], next'))
  {
    assert (ids + [id])[..|ids|] == ids;
  }

  /** Numbering goes on with a dimension. */
  lemma NumberDimension(ids: seq<ArgId>, d: Dimension)
    ensures NumberAll(ids + DimensionIds(d))
         == match NumberAll(ids)
            case None => None
            case Some((refs, next)) =>
              match DimensionRef(d, next)
              case None => None
              case Some((ref, next')) => Some((refs + (if ref.Some? then [ref.value] else []), next'))
  {
    match d
    case Dynamic(id) => NumberSnoc(ids, id);
    case _ => assert ids + [] == ids;
              assert NumberAll(ids).Some? ==> NumberAll(ids).value.0 + [] == NumberAll(ids).value.0;
  }

  lemma Checked(raw: RawSpecs, k: Kind)
    requires Proper(raw)
    ensures Accepts(k, raw)
        <==> !(raw.sign != NoSign && !SignAllowed(k)) && !((raw.hash || raw.zero) && !IsArithmetic(k))
             && raw.align != Numeric && !(raw.precision != Absent && !PrecisionAllowed(k))
  {
  }

  lemma BaseIsMeant(raw: RawSpecs, width: int, precision: int)
    ensures BaseSpecs(raw).(width := width, precision := precision) == Meant(raw, width, precision)
  {
    FillIsMeant(raw);
  }

  lemma FillIsMeant(raw: RawSpecs)
    ensures BaseSpecs(raw).fill == FillMeant(raw)
  {
    assert raw.fill != "" ==> raw.fill[0 := '0'] == "0" + raw.fill[1..];
    assert " "[0 := '0'] == "0";
  }

  /** A dimension resolved while it is parsed, r being its reference if it has one. */
  lemma DimensionIsMeant(d: Dimension, absent: int, env: Env, next: int, r: Ref)
    requires match DimensionRef(d, next)
             case None => true
             case Some((ref, _)) => ref == None || ref == Some(r)
    ensures DimensionNow(d, absent, env, next)
         == match (DimensionRef(d, next), DimensionMeant(d, absent, r, env))
            case (Some((_, next')), Some(n)) => Some((n, next'))
            case _ => None
  {
  }

  /** The references of the dimensions, given those of all ids in the field, and where numbering
      goes on. */
  predicate RefsOf(p: Placeholder, next: int, refs: seq<Ref>, last: int)
    requires p.WithSpecs? && |refs| >= 1
  {
    match DimensionRef(p.specs.width, next)
    case None => false
    case Some((width, next1)) =>
      match DimensionRef(p.specs.precision, next1)
      case None => false
      case Some((precision, next2)) =>
        && (width == None || width == Some(refs[if |refs| > 1 then 1 else 0]))
        && (precision == None || precision == Some(refs[|refs| - 1])) && next2 == last
  }

  predicate NoRefs(raw: RawSpecs, next: int) {
    match DimensionRef(raw.width, next)
    case None => true
    case Some((_, next1)) => DimensionRef(raw.precision, next1) == None
  }

  lemma RefsAre(p: Placeholder, ids: seq<ArgId>, refs: seq<Ref>, next0: int, ref: Ref, next: int)
    requires p.WithSpecs? && NumberAll(ids) == Some((refs, next0)) && Numbered(p.id, next0) == Some((ref, next))
    ensures match NumberAll(ids + FieldIds(p))
            case None => NoRefs(p.specs, next)
            case Some((all, last)) =>
              && |all| > |refs| && all[|refs|] == ref && RefsOf(p, next, all[|refs|..], last)
  {
    hide DimensionIds, DimensionRef, NumberAll;
    var width, precision := DimensionIds(p.specs.width), DimensionIds(p.specs.precision);
    assert ids + FieldIds(p) == ids + [p.id] + width + precision;
    NumberSnoc(ids, p.id);
    NumberDimension(ids + [p.id], p.specs.width);
    NumberDimension(ids + [p.id] + width, p.specs.precision);
  }

  /** Nothing is numbered after an id that cannot be. */
  lemma NotNumbered(p: Placeholder, ids: seq<ArgId>, refs: seq<Ref>, next0: int)
    requires NumberAll(ids) == Some((refs, next0)) && Numbered(p.id, next0) == None
    ensures NumberAll(ids + FieldIds(p)) == None
  {
    hide DimensionIds, DimensionRef, NumberAll;
    NumberSnoc(ids, p.id);
    if p.Default? {
      assert FieldIds(p) == [p.id];
    } else {
      var width, precision := DimensionIds(p.specs.width), DimensionIds(p.specs.precision);
      assert ids + FieldIds(p) == ids + [p.id] + width + precision;
      NumberDimension(ids + [p.id], p.specs.width);
      NumberDimension(ids + [p.id] + width, p.specs.precision);
    }
  }

  lemma NoSpecs(raw: RawSpecs, k: Kind, env: Env, next: int)
    requires NoRefs(raw, next)
    ensures SpecsNow(raw, k, env, next) == None
  {
  }

  /** Checking specifications against an argument as they are parsed. */
  lemma SpecsAreMeant(p: Placeholder, k: Kind, env: Env, next: int, refs: seq<Ref>, last: int)
    requires p.WithSpecs? && Proper(p.specs) && |refs| >= 1 && RefsOf(p, next, refs, last)
    ensures var width := DimensionMeant(p.specs.width, 0, refs[if |refs| > 1 then 1 else 0], env);
            var precision := DimensionMeant(p.specs.precision, -1, refs[|refs| - 1], env);
            match SpecsNow(p.specs, k, env, next)
            case None => width == None || precision == None || !Accepts(k, p.specs)
            case Some((specs, next')) =>
              && width.Some? && precision.Some? && Accepts(k, p.specs) && next' == last
              && specs == Meant(p.specs, width.value, precision.value)
  {
    hide Accepts, Meant, BaseSpecs, DimensionRef;
    var raw := p.specs;
    var w, r := refs[if |refs| > 1 then 1 else 0], refs[|refs| - 1];
    Checked(raw, k);
    DimensionIsMeant(raw.width, 0, env, next, w);
    DimensionIsMeant(raw.precision, -1, env, DimensionRef(raw.width, next).value.1, r);
    match (DimensionMeant(raw.width, 0, w, env), DimensionMeant(raw.precision, -1, r, env))
    case (Some(width), Some(precision)) => BaseIsMeant(raw, width, precision);
    case _ =>
  }

  // ---------- fields ----------

  /** The text of a field, given the references of its ids. */
  function SlotText(p: Placeholder, refs: seq<Ref>, env: Env): Option<string> {
    if refs == [] then None
    else if p.WithSpecs? then TextMeant(p.specs, refs, env)
    else match Lookup(env, refs[0])
      case None => None
      case Some(arg) => env.show(arg, None)
  }

  lemma SlotHandled(d: Direct, s: string, p: Placeholder, env: Env, ids: seq<ArgId>, refs: seq<Ref>)
    requires ProperField(p) && NumberAll(ids) == Some((refs, d.next))
    ensures match NumberAll(ids + FieldIds(p))
            case None => Handle(d, s, Field(p), env) == None
            case Some((all, last)) =>
              |all| >= |refs| && Handle(d, s, Field(p), env) == Printed(d.out, SlotText(p, all[|refs|..], env), last)
  {
    hide ProperField, NumberAll, FieldIds, SlotText, Printed, Handle;
    match Numbered(p.id, d.next)
    case None =>
      NotNumbered(p, ids, refs, d.next);
      NotHandledYet(d, s, p, env);
    case Some((ref, next)) =>
      if p.WithSpecs? {
        SpecsSlotHandled(d, s, p, env, ids, refs, ref, next);
      } else {
        DefaultSlotHandled(d, s, p, env, ids, refs, ref, next);
      }
  }

  lemma NotHandledYet(d: Direct, s: string, p: Placeholder, env: Env)
    requires Numbered(p.id, d.next) == None
    ensures Handle(d, s, Field(p), env) == None
  {
  }

  lemma DefaultSlotHandled(d: Direct, s: string, p: Placeholder, env: Env, ids: seq<ArgId>, refs: seq<Ref>,
                           ref: Ref, next: int)
    requires p.Default? && NumberAll(ids) == Some((refs, d.next)) && Numbered(p.id, d.next) == Some((ref, next))
    ensures var all := NumberAll(ids + FieldIds(p));
            && all.Some? && all.value == (refs + [ref], next)
            && Handle(d, s, Field(p), env) == Printed(d.out, SlotText(p, all.value.0[|refs|..], env), next)
  {
    hide NumberAll;
    assert FieldIds(p) == [p.id];
    NumberSnoc(ids, p.id);
    assert (refs + [ref])[|refs|..] == [ref];
  }

  lemma SpecsSlotHandled(d: Direct, s: string, p: Placeholder, env: Env, ids: seq<ArgId>, refs: seq<Ref>,
                         ref: Ref, next: int)
    requires p.WithSpecs? && ProperField(p)
    requires NumberAll(ids) == Some((refs, d.next)) && Numbered(p.id, d.next) == Some((ref, next))
    ensures match NumberAll(ids + FieldIds(p))
            case None => Handle(d, s, Field(p), env) == None
            case Some((all, last)) =>
              |all| >= |refs| && Handle(d, s, Field(p), env) == Printed(d.out, SlotText(p, all[|refs|..], env), last)
  {
    hide NumberAll, FieldIds, RefsOf, NoRefs, SpecsNow, Proper, Accepts, Meant, DimensionMeant;
    RefsAre(p, ids, refs, d.next, ref, next);
    match Lookup(env, ref)
    case None =>
    case Some(arg) =>
      match NumberAll(ids + FieldIds(p))
      case None => NoSpecs(p.specs, arg.kind, env, next);
      case Some((all, last)) => SpecsAreMeant(p, arg.kind, env, next, all[|refs|..], last);
  }

  // ---------- whole format strings ----------

  datatype Piece = Literal(text: string) | Slot(field: Placeholder)

  predicate ProperPieces(pieces: seq<Piece>) {
    forall i :: 0 <= i < |pieces| && pieces[i].Slot? ==> ProperField(pieces[i].field)
  }

  function SpellPiece(piece: Piece): string {
    match piece
    case Literal(t) => Escape(t)
    case Slot(p) => SpellField(p)
  }

  function SpellAll(pieces: seq<Piece>): string {
    if |pieces| == 0 then "" else SpellPiece(pieces[0]) + SpellAll(pieces[1..])
  }

  function PieceIds(piece: Piece): seq<ArgId> {
    if piece.Literal? then [] else FieldIds(piece.field)
  }

  function AllIds(pieces: seq<Piece>): seq<ArgId> {
    if |pieces| == 0 then [] else PieceIds(pieces[0]) + AllIds(pieces[1..])
  }

  function Joined(a: Option<string>, b: Option<string>): Option<string> {
    match (a, b)
    case (Some(s), Some(t)) => Some(s + t)
    case _ => None
  }

  /** The texts of the pieces one after the other, given the references of all ids in them. */
  function TextsMeant(pieces: seq<Piece>, refs: seq<Ref>, env: Env): Option<string> {
    if |pieces| == 0 then Some("")
    else match pieces[0]
      case Literal(t) => Joined(Some(t), TextsMeant(pieces[1..], refs, env))
      case Slot(p) =>
        var k := |FieldIds(p)|;
        if |refs| < k then None
        else Joined(SlotText(p, refs[..k], env), TextsMeant(pieces[1..], refs[k..], env))
  }

  /** What comes of a string whose events so far are known. */
  function Finish(s: string, begin: nat, before: seq<Token<Placeholder>>, env: Env): Option<string>
    requires begin <= |s|
  {
    ReaderIsSound();
    match Events(s, begin, before, ReadBySpecs, Throw)
    case None => None
    case Some(tokens) =>
      match HandleAll(s, tokens, env)
      case None => None
      case Some(d) => Some(d.out)
  }

  // ---------- text ----------

  lemma HandleText(s: string, before: seq<Token<Placeholder>>, b: nat, e: nat, env: Env, d: Direct)
    requires HandleAll(s, before, env) == Some(d) && b <= e <= |s|
    ensures HandleAll(s, before + [Text(b, e)], env) == Some(d.(out := d.out + s[b..e]))
    ensures HandleAll(s, before + TextEvent(b, e), env) == Some(d.(out := d.out + s[b..e]))
  {
    assert (before + [Text(b, e)])[..|before|] == before;
    if b == e {
      assert before + [] == before && d.out + s[b..e] == d.out;
    }
  }

  /** Where reading a literal has got to: what is told, where the pending text begins, and where
      the rest of the string does. */
  datatype Place = Place(before: seq<Token<Placeholder>>, begin: nat, p: nat, d: Direct)

  ghost predicate At(s: string, x: Place, rest: string, env: Env) {
    && x.begin <= x.p <= |s| && s[x.p..] == rest && NoBraces(s, x.begin, x.p)
    && HandleAll(s, x.before, env) == Some(x.d)
  }

  /** The text that is out or pending. */
  ghost function Shown(s: string, x: Place): string {
    x.d.out + TextAt(s, x.begin, x.p)
  }

  lemma {:induction false} LiteralRead(s: string, x: Place, t: string, rest: string, env: Env) returns (y: Place)
    requires At(s, x, Escape(t) + rest, env)
    ensures At(s, y, rest, env) && y.d.next == x.d.next && Shown(s, y) == Shown(s, x) + t
    ensures Finish(s, x.begin, x.before, env) == Finish(s, y.begin, y.before, env)
    decreases |t|
  {
    hide At, Shown, Finish, Escape;
    if t == "" {
      y := x;
      NothingEscaped(rest);
      assert Shown(s, x) + t == Shown(s, x);
    } else {
      var z := OneRead(s, x, t, rest, env);
      y := LiteralRead(s, z, t[1..], rest, env);
      assert Shown(s, x) + [t[0]] + t[1..] == Shown(s, x) + t;
    }
  }

  lemma NothingEscaped(rest: string)
    ensures Escape("") + rest == rest
  {
  }

  lemma OneRead(s: string, x: Place, t: string, rest: string, env: Env) returns (y: Place)
    requires t != "" && At(s, x, Escape(t) + rest, env)
    ensures At(s, y, Escape(t[1..]) + rest, env) && y.d.next == x.d.next && Shown(s, y) == Shown(s, x) + [t[0]]
    ensures Finish(s, x.begin, x.before, env) == Finish(s, y.begin, y.before, env)
  {
    hide HandleAll, Finish;
    var after := Escape(t[1..]) + rest;
    if IsBrace(t[0]) {
      assert s[x.p..] == [t[0], t[0]] + after;
      Dropped(s, x.p, [t[0], t[0]], after);
      assert s[x.p + 1] == s[x.p..][1];
      y := BraceRead(s, x, env);
    } else {
      assert s[x.p..] == [t[0]] + after;
      Dropped(s, x.p, [t[0]], after);
      y := x.(p := x.p + 1);
      assert s[x.begin..y.p] == s[x.begin..x.p] + [t[0]];
    }
  }

  /** A doubled brace stands for the second one if it opens, and for the first one otherwise. */
  lemma BraceRead(s: string, x: Place, env: Env) returns (y: Place)
    requires x.begin <= x.p <= x.p + 2 <= |s| && NoBraces(s, x.begin, x.p) && IsBrace(s[x.p]) && s[x.p + 1] == s[x.p]
    requires HandleAll(s, x.before, env) == Some(x.d)
    ensures y.begin == y.p == x.p + 2 && HandleAll(s, y.before, env) == Some(y.d)
    ensures y.d.next == x.d.next && Shown(s, y) == Shown(s, x) + [s[x.p]]
    ensures Finish(s, x.begin, x.before, env) == Finish(s, y.begin, y.before, env)
  {
    hide HandleAll, Events, Shown, ReadBySpecs;
    ReaderIsSound();
    var b, n := x.begin, x.p;
    NextBraceIs(s, b, n);
    if s[n] == '{' {
      var out := x.d.out + s[b..n];
      FieldStep(s, ReadBySpecs, Throw, x.before, b, n, Read(Text(n + 1, n + 2), 2));
      HandleText(s, x.before, b, n, env, x.d);
      HandleText(s, x.before + TextEvent(b, n), n + 1, n + 2, env, x.d.(out := out));
      Regrouped(x.before, TextEvent(b, n), Text(n + 1, n + 2));
      y := Place(x.before + (TextEvent(b, n) + [Text(n + 1, n + 2)]), n + 2, n + 2,
                 x.d.(out := out + s[n + 1..n + 2]));
    } else {
      BraceStep(s, ReadBySpecs, Throw, x.before, b, n);
      HandleText(s, x.before, b, n + 1, env, x.d);
      y := Place(x.before + [Text(b, n + 1)], n + 2, n + 2, x.d.(out := x.d.out + s[b..n + 1]));
    }
    BraceShown(s, x, y);
  }

  lemma BraceShown(s: string, x: Place, y: Place)
    requires x.begin <= x.p <= x.p + 2 <= |s| && s[x.p + 1] == s[x.p] && y.begin == y.p
    requires y.d.out == x.d.out + s[x.begin..x.p] + s[x.p + 1..x.p + 2] || y.d.out == x.d.out + s[x.begin..x.p + 1]
    ensures Shown(s, y) == Shown(s, x) + [s[x.p]]
  {
    assert s[x.p + 1..x.p + 2] == [s[x.p]] && s[x.begin..x.p + 1] == s[x.begin..x.p] + [s[x.p]];
    assert TextAt(s, y.begin, y.p) == "" && y.d.out + "" == y.d.out;
    assert x.d.out + (s[x.begin..x.p] + [s[x.p]]) == x.d.out + s[x.begin..x.p] + [s[x.p]];
  }

  // ---------- fields among text ----------

  /** The tokens before and with a field. */
  function WithField(x: Place, p: Placeholder): seq<Token<Placeholder>> {
    x.before + (TextEvent(x.begin, x.p) + [Field(p)])
  }

  /** A field is told after the pending text. */
  lemma SlotRead(s: string, x: Place, p: Placeholder, rest: string, env: Env)
    requires ProperField(p) && At(s, x, SpellField(p) + rest, env)
    ensures var q := x.p + |SpellField(p)|;
            && q <= |s| && s[q..] == rest
            && Finish(s, x.begin, x.before, env) == Finish(s, q, WithField(x, p), env)
    ensures HandleAll(s, WithField(x, p), env) == Handle(x.d.(out := Shown(s, x)), s, Field(p), env)
  {
    hide HandleAll, Handle, Events, FieldAt, SpellField, ProperField;
    var b, n, text := x.begin, x.p, SpellField(p);
    ReaderIsSound();
    FieldStarts(p, rest);
    Dropped(s, n, text, rest);
    NextBraceIs(s, b, n);
    FieldReadsBack(p, rest);
    FieldStep(s, ReadBySpecs, Throw, x.before, b, n, Read(Field(p), |text|));
    HandleText(s, x.before, b, n, env, x.d);
    HandleSnoc(s, x.before + TextEvent(b, n), Field(p), env);
    Regrouped(x.before, TextEvent(b, n), Field(p));
  }

  /** A field is read, numbered and printed, or there is no output at all. */
  lemma SlotStep(s: string, x: Place, p: Placeholder, rest: string, ids: seq<ArgId>, refs: seq<Ref>, env: Env)
    returns (y: Place)
    requires ProperField(p) && At(s, x, SpellField(p) + rest, env) && NumberAll(ids) == Some((refs, x.d.next))
    ensures match NumberAll(ids + FieldIds(p))
            case None => Finish(s, x.begin, x.before, env) == None
            case Some((all, last)) =>
              && |all| >= |ids|
              && match SlotText(p, all[|ids|..], env)
                 case None => Finish(s, x.begin, x.before, env) == None
                 case Some(t) =>
                   && At(s, y, rest, env) && y.d.next == last && Shown(s, y) == Shown(s, x) + t
                   && Finish(s, x.begin, x.before, env) == Finish(s, y.begin, y.before, env)
  {
    hide HandleAll, Handle, Finish, NumberAll, FieldIds, SlotText, SpellField, ProperField;
    var q, d := x.p + |SpellField(p)|, x.d.(out := Shown(s, x));
    SlotRead(s, x, p, rest, env);
    NumberMore(ids, []);
    SlotHandled(d, s, p, env, ids, refs);
    var tokens := WithField(x, p);
    match HandleAll(s, tokens, env)
    case None =>
      y := x;
      StaysUnhandled(s, q, tokens, env);
    case Some(next) =>
      y := Place(tokens, q, q, next);
      assert next.out + "" == next.out;
  }

  lemma FieldStarts(p: Placeholder, rest: string)
    ensures SpellField(p) + rest != "" && (SpellField(p) + rest)[0] == '{'
  {
  }

  lemma HandleSnoc(s: string, before: seq<Token<Placeholder>>, token: Token<Placeholder>, env: Env)
    ensures HandleAll(s, before + [token], env) == match HandleAll(s, before, env)
                                                   case None => None
                                                   case Some(d) => Handle(d, s, token, env)
  {
    assert (before + [token])[..|before|] == before;
  }

  lemma {:induction false} EventsExtend(s: string, p: nat, before: seq<Token<Placeholder>>)
    requires Sound(ReadBySpecs) && p <= |s|
    ensures Events(s, p, before, ReadBySpecs, Throw).Some?
        ==> before <= Events(s, p, before, ReadBySpecs, Throw).value
    decreases |s| - p
  {
    hide ReadBySpecs;
    var n := NextBrace(s, p);
    if n < |s| {
      if s[n] == '{' {
        var r := ReadBySpecs(s, n);
        FieldStep(s, ReadBySpecs, Throw, before, p, n, r);
        if r.Read? {
          EventsExtend(s, n + r.length, before + (TextEvent(p, n) + [r.value]));
        }
      } else {
        BraceStep(s, ReadBySpecs, Throw, before, p, n);
        if n + 1 < |s| && s[n + 1] == '}' {
          EventsExtend(s, n + 2, before + [Text(p, n + 1)]);
        }
      }
    }
  }

  /** After a token that cannot be handled nothing is. */
  lemma StaysUnhandled(s: string, p: nat, before: seq<Token<Placeholder>>, env: Env)
    requires p <= |s| && HandleAll(s, before, env) == None
    ensures Finish(s, p, before, env) == None
  {
    hide HandleAll, Events;
    ReaderIsSound();
    EventsExtend(s, p, before);
    match Events(s, p, before, ReadBySpecs, Throw)
    case None =>
    case Some(tokens) =>
      assert tokens[..|before|] == before;
      NotHandled(s, tokens, |before|, env);
  }

  // ---------- numbering ----------

  /** Numbering more ids does not change how the first ones were numbered. */
  lemma {:induction false} NumberMore(a: seq<ArgId>, b: seq<ArgId>)
    ensures NumberAll(a + b).Some? ==> NumberAll(a).Some? && NumberAll(a).value.0 <= NumberAll(a + b).value.0
    ensures NumberAll(a).Some? ==> |NumberAll(a).value.0| == |a|
  {
    NumberingIsConsistent(a);
    if |b| == 0 {
      assert a + b == a;
    } else {
      NumberMore(a, b[..|b| - 1]);
      NumberSnoc(a + b[..|b| - 1], b[|b| - 1]);
      assert a + b == a + b[..|b| - 1] + [b[|b| - 1]];
    }
  }

  // ---------- the meaning of a format string ----------

  /** The text that some pieces should add to what is out already. */
  function TextAfter(out: string, pieces: seq<Piece>, ids: seq<ArgId>, env: Env): Option<string> {
    match NumberAll(ids + AllIds(pieces))
    case None => None
    case Some((refs, _)) =>
      if |refs| < |ids| then None else Joined(Some(out), TextsMeant(pieces, refs[|ids|..], env))
  }

  lemma NoMorePieces(s: string, x: Place, ids: seq<ArgId>, env: Env)
    requires At(s, x, "", env) && NumberAll(ids) .Some?
    ensures Finish(s, x.begin, x.before, env) == TextAfter(Shown(s, x), [], ids, env)
  {
    hide HandleAll, Events, NumberAll;
    ReaderIsSound();
    LastStep(s, ReadBySpecs, Throw, x.before, x.begin);
    HandleText(s, x.before, x.begin, x.p, env, x.d);
    NumberMore(ids, []);
    assert ids + [] == ids && Shown(s, x) + "" == Shown(s, x);
  }

  lemma LiteralFirst(out: string, t: string, pieces: seq<Piece>, ids: seq<ArgId>, env: Env)
    requires |pieces| > 0 && pieces[0] == Literal(t)
    ensures TextAfter(out, pieces, ids, env) == TextAfter(out + t, pieces[1..], ids, env)
  {
    hide NumberAll;
    assert AllIds(pieces) == AllIds(pieces[1..]);
    forall text: string
      ensures out + (t + text) == out + t + text
    {
    }
  }

  /** A field comes first: numbering, then its text, then the rest. */
  lemma SlotFirst(out: string, p: Placeholder, pieces: seq<Piece>, ids: seq<ArgId>, env: Env)
    requires |pieces| > 0 && pieces[0] == Slot(p)
    ensures match NumberAll(ids + FieldIds(p))
            case None => TextAfter(out, pieces, ids, env) == None
            case Some((refs, _)) =>
              && |refs| >= |ids|
              && match SlotText(p, refs[|ids|..], env)
                 case None => TextAfter(out, pieces, ids, env) == None
                 case Some(t) =>
                   TextAfter(out, pieces, ids, env) == TextAfter(out + t, pieces[1..], ids + FieldIds(p), env)
  {
    hide NumberAll, FieldIds, SlotText;
    var k, mine, more := |ids|, ids + FieldIds(p), AllIds(pieces[1..]);
    assert ids + AllIds(pieces) == mine + more;
    NumberMore(mine, more);
    NumberMore(mine + more, []);
    match NumberAll(mine + more)
    case None =>
    case Some((all, _)) =>
      var refs := NumberAll(mine).value.0;
      assert all[k..][..|FieldIds(p)|] == refs[k..] && all[k..][|FieldIds(p)|..] == all[|mine|..];
      match (SlotText(p, refs[k..], env), TextsMeant(pieces[1..], all[|mine|..], env))
      case (Some(t), Some(text)) => assert out + (t + text) == out + t + text;
      case _ =>
  }

  /** From any place in a string on. */
  lemma {:induction false} FormatsFrom(s: string, x: Place, pieces: seq<Piece>, ids: seq<ArgId>, refs: seq<Ref>,
                                       env: Env)
    requires ProperPieces(pieces) && At(s, x, SpellAll(pieces), env) && NumberAll(ids) == Some((refs, x.d.next))
    ensures Finish(s, x.begin, x.before, env) == TextAfter(Shown(s, x), pieces, ids, env)
    decreases |pieces|
  {
    hide At, Finish, TextAfter, Shown, NumberAll, ProperField;
    if |pieces| == 0 {
      NoMorePieces(s, x, ids, env);
      assert pieces == [];
    } else {
      match pieces[0]
      case Literal(t) =>
        var y := LiteralRead(s, x, t, SpellAll(pieces[1..]), env);
        LiteralFirst(Shown(s, x), t, pieces, ids, env);
        FormatsFrom(s, y, pieces[1..], ids, refs, env);
      case Slot(p) =>
        var y := SlotStep(s, x, p, SpellAll(pieces[1..]), ids, refs, env);
        SlotFirst(Shown(s, x), p, pieces, ids, env);
        match NumberAll(ids + FieldIds(p))
        case None =>
        case Some((all, _)) =>
          if SlotText(p, all[|ids|..], env).Some? {
            FormatsFrom(s, y, pieces[1..], ids + FieldIds(p), all, env);
          }
    }
  }

  /** The output for some pieces: none if their ids cannot be numbered, an argument is missing,
      or one does not take its specifications or cannot be printed. */
  function Meaning(pieces: seq<Piece>, env: Env): Option<string> {
    match NumberAll(AllIds(pieces))
    case None => None
    case Some((refs, _)) => TextsMeant(pieces, refs, env)
  }

  /** Formatting what was spelled gives what it means, and so does replaying the compiled parts
      if all arguments are there. */
  lemma FormatsAsSpelled(pieces: seq<Piece>, env: Env)
    requires ProperPieces(pieces)
    ensures Format(SpellAll(pieces), env) == Meaning(pieces, env)
    ensures match CompileFormat(SpellAll(pieces))
            case None => Meaning(pieces, env) == None
            case Some(parts) => AllPresent(parts, env) ==> Replay(parts, env) == Meaning(pieces, env)
  {
    hide SpellAll, AllIds, TextsMeant, Events, AllPresent, Replay, CompileFormat;
    var s := SpellAll(pieces);
    var x := Place([], 0, 0, Direct("", 0));
    ReaderIsSound();
    assert s[0..] == s && "" + s[0..0] == "";
    NothingNumbered(pieces);
    FormatsFrom(s, x, pieces, [], [], env);
    NothingOut(pieces, env);
    CompiledAgrees(s, env);
  }

  lemma NothingNumbered(pieces: seq<Piece>)
    ensures NumberAll([]) == Some(([], 0)) && [] + AllIds(pieces) == AllIds(pieces)
  {
  }

  lemma NothingOut(pieces: seq<Piece>, env: Env)
    ensures TextAfter("", pieces, [], env) == Meaning(pieces, env)
  {
    hide NumberAll, TextsMeant, AllIds;
    assert [] + AllIds(pieces) == AllIds(pieces);
    match NumberAll(AllIds(pieces))
    case None =>
    case Some((refs, _)) =>
      assert refs[0..] == refs;
      assert TextsMeant(pieces, refs, env).Some? ==> "" + TextsMeant(pieces, refs, env).value
                                                     == TextsMeant(pieces, refs, env).value;
  }

  /** A string that is a single field. */
  lemma OneSlot(p: Placeholder, env: Env)
    requires ProperField(p)
    ensures Format(SpellField(p), env) == match NumberAll(FieldIds(p))
                                          case None => None
                                          case Some((refs, _)) => SlotText(p, refs, env)
  {
    hide SpellField, ProperField, NumberAll, FieldIds, SlotText, Format;
    FormatsAsSpelled([Slot(p)], env);
    OnePiece(p, env);
  }

  lemma OnePiece(p: Placeholder, env: Env)
    ensures SpellAll([Slot(p)]) == SpellField(p)
    ensures Meaning([Slot(p)], env) == match NumberAll(FieldIds(p))
                                       case None => None
                                       case Some((refs, _)) => SlotText(p, refs, env)
  {
    hide SpellField, NumberAll, FieldIds, SlotText;
    var pieces := [Slot(p)];
    assert pieces[1..] == [] && SpellField(p) + "" == SpellField(p) && FieldIds(p) + [] == FieldIds(p);
    NumberMore(FieldIds(p), []);
    assert AllIds(pieces) == FieldIds(p);
    match NumberAll(FieldIds(p))
    case None =>
    case Some((refs, _)) =>
      var text := SlotText(p, refs, env);
      assert refs[..|FieldIds(p)|] == refs && refs[|FieldIds(p)|..] == [];
      assert TextsMeant(pieces, refs, env) == Joined(text, TextsMeant([], [], env));
      assert text.Some? ==> text.value + "" == text.value;
  }

  /** Text with its braces doubled is printed as it is. */
  lemma TextPrints(t: string, env: Env)
    ensures Format(Escape(t), env) == Some(t)
  {
    hide Format, Escape, NumberAll;
    var pieces := [Literal(t)];
    FormatsAsSpelled(pieces, env);
    assert pieces[1..] == [] && Escape(t) + "" == Escape(t) && t + "" == t;
    NothingNumbered([]);
    assert AllIds(pieces) == [];
    assert TextsMeant(pieces, [], env) == Some(t);
  }

  // ---------- compiled ----------

  /** The part that a single field is compiled to. */
  function FieldPart(p: Placeholder, refs: seq<Ref>): Part
    requires |refs| >= 1
  {
    match p
    case Default(_) => ArgPart(refs[0])
    case WithSpecs(_, raw) =>
      var width, precision := if raw.width.Fixed? then raw.width.value else 0,
                              if raw.precision.Fixed? then raw.precision.value else -1;
      Replacement(refs[0], DynamicSpecs(Meant(raw, width, precision),
                                        if raw.width.Dynamic? then Some(refs[if |refs| > 1 then 1 else 0]) else None,
                                        if raw.precision.Dynamic? then Some(refs[|refs| - 1]) else None))
  }

  lemma CompilesAsSpelled(p: Placeholder)
    requires ProperField(p)
    ensures CompileFormat(SpellField(p))
         == match NumberAll(FieldIds(p))
            case None => None
            case Some((refs, _)) => if refs == [] then None else Some([FieldPart(p, refs)])
  {
    hide Proper, SpellField, NumberAll, FieldIds;
    var s := SpellField(p);
    TokenReadsBack(p);
    CompileOne(s, p);
    var (ref, next) := Numbered(p.id, 0).value;
    if p.WithSpecs? {
      NothingNumbered([]);
      RefsAre(p, [], [], 0, ref, next);
      assert [] + FieldIds(p) == FieldIds(p);
      BaseIsMeant(p.specs, BaseSpecs(p.specs).width, BaseSpecs(p.specs).precision);
    } else {
      NumberDefault(p);
    }
  }

  lemma CompileOne(s: string, p: Placeholder)
    ensures CompileAll(s, [Field(p)]) == Compile(Compiled([], 0), s, Field(p))
    ensures forall part: Part :: [] + [part] == [part]
  {
    var token: Token<Placeholder> := Field(p);
    assert [token][..0] == [];
  }

  lemma NumberDefault(p: Placeholder)
    requires p.Default?
    ensures NumberAll(FieldIds(p)) == match Numbered(p.id, 0)
                                      case None => None
                                      case Some((ref, next)) => Some(([ref], next))
  {
    assert FieldIds(p) == [p.id];
    NumberOne(p.id);
  }

  lemma NumberOne(id: ArgId)
    ensures NumberAll([id]) == match Numbered(id, 0)
                               case None => None
                               case Some((ref, next)) => Some(([ref], next))
  {
    NumberSnoc([], id);
    assert [] + [id] == [id] && [] + [Numbered(id, 0).value.0] == [Numbered(id, 0).value.0];
  }

  // ---------- a field whose dimensions are spelled out ----------

  /** The argument that the only id of a format string names. */
  function ArgFor(id: ArgId, env: Env): Option<Arg> {
    match id
    case Auto => if |env.args| > 0 then Some(env.args[0]) else None
    case Index(i) => if i < |env.args| then Some(env.args[i]) else None
    case Name(n) => if n in env.names && env.names[n] < |env.args| then Some(env.args[env.names[n]]) else None
  }

  function RefFor(id: ArgId): Ref {
    match id
    case Auto => ByIndex(0)
    case Index(i) => ByIndex(i)
    case Name(n) => ByName(n)
  }

  /** Fill, alignment, sign, #, 0, width, precision and type reach the argument as they were
      spelled, directly and by way of the compiled part. */
  lemma SpecsReachTheArgument(id: ArgId, raw: RawSpecs, width: Option<nat>, precision: Option<nat>, env: Env)
    requires ProperId(id) && Proper(raw)
    requires raw.width == (if width.Some? then Fixed(width.value) else Absent)
    requires raw.precision == (if precision.Some? then Fixed(precision.value) else Absent)
    ensures var s := "{" + SpellId(id) + ":" + Spell(raw) + "}";
            var specs := Specs(if width.Some? then width.value else 0, if precision.Some? then precision.value else -1,
                               raw.type_, if raw.zero then Numeric else raw.align, raw.sign, raw.hash, FillMeant(raw));
            && Format(s, env) == (match ArgFor(id, env)
                                  case None => None
                                  case Some(arg) => if Accepts(arg.kind, raw) then env.show(arg, Some(specs)) else None)
            && CompileFormat(s) == Some([Replacement(RefFor(id), DynamicSpecs(specs, None, None))])
  {
    hide Proper, Spell, SpellId, NumberAll, Accepts, FillMeant, Format, CompileFormat;
    var p := WithSpecs(id, raw);
    assert FieldIds(p) == [id];
    NumberOne(id);
    OneSlot(p, env);
    CompilesAsSpelled(p);
  }

  /** Without specifications the argument is printed as it is. */
  lemma PlainFieldPrints(id: ArgId, env: Env)
    requires ProperId(id)
    ensures var s := "{" + SpellId(id) + "}";
            && Format(s, env) == (match ArgFor(id, env)
                                  case None => None
                                  case Some(arg) => env.show(arg, None))
            && CompileFormat(s) == Some([ArgPart(RefFor(id))])
  {
    hide SpellId, NumberAll, Format, CompileFormat;
    var p := Default(id);
    NumberDefault(p);
    OneSlot(p, env);
    CompilesAsSpelled(p);
  }
}
