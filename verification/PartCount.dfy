/**
 Counting the parts of a format string before compiling it. The counter does not read
 specifications but looks for the brace that matches the one the field starts with, and it
 returns from errors, so that it counts whatever the search goes on to report.
 */
module PartCount {
  import opened Wrappers
  import opened DigitSpec
  import opened Integers
  import opened BraceSearch
  import opened FormatParse
  import opened FormatCompile

  // ---------- how the counter reads a field ----------

  /** Where the brace that closes depth + 1 open ones is, or the end of the string. */
  function MatchingBrace(s: string, p: nat, depth: nat): (n: nat)
    requires p <= |s|
    ensures p <= n <= |s| && (n < |s| ==> s[n] == '}')
    decreases |s| - p
  {
    if p == |s| then p
    else if s[p] == '{' then MatchingBrace(s, p + 1, depth + 1)
    else if s[p] == '}' then if depth == 0 then p else MatchingBrace(s, p + 1, depth - 1)
    else MatchingBrace(s, p + 1, depth)
  }

  method FindMatchingBrace(s: string, first: nat) returns (begin: nat)
    requires first <= |s|
    ensures begin == MatchingBrace(s, first, 0)
  {
    var depth: nat := 0;
    begin := first;
    while begin < |s|
      invariant first <= begin <= |s| && MatchingBrace(s, first, 0) == MatchingBrace(s, begin, depth)
    {
      if s[begin] == '{' {
        depth := depth + 1;
      } else if s[begin] == '}' {
        if depth == 0 { break; }
        depth := depth - 1;
      }
      begin := begin + 1;
    }
  }

  /** The end of an argument id that the counter is told of; a number that is too big is an
      error it ignores, unless digits of it remain unread. */
  function CountedId(s: string, p: nat): (r: Option<nat>)
    requires p < |s|
    ensures r.Some? ==> p <= r.value <= |s| && (s[p] != ':' && s[p] != '}' ==> p < r.value)
  {
    if s[p] == '}' || s[p] == ':' then Some(p)
    else if s[p] == '0' then if EndsId(s, p + 1) then Some(p + 1) else None
    else if IsDigit(s[p]) then
      if TakenWhole(s, p) && EndsId(s, RunEnd(s, p)) then Some(RunEnd(s, p)) else None
    else if IsNameStart(s[p]) then Some(p + NameLength(s[p..]))
    else None
  }

  method CountId(s: string, p: nat) returns (r: Option<nat>)
    requires p < |s|
    ensures r == CountedId(s, p)
  {
    if s[p] == '}' || s[p] == ':' {
      return Some(p);
    }
    if IsDigit(s[p]) {
      var begin := p + 1;
      if s[p] != '0' {
        var _, next := ParseNonnegativeInt(s, p);
        begin := next;
        StopsAtDigit(s, p, begin);
      }
      return if EndsId(s, begin) then Some(begin) else None;
    }
    if !IsNameStart(s[p]) {
      return None;
    }
    var it := NameEnd(s, p);
    r := Some(it);
  }

  method NameEnd(s: string, p: nat) returns (it: nat)
    requires p < |s|
    ensures it == p + NameLength(s[p..]) <= |s|
  {
    it := p + 1;
    while it != |s| && (IsNameStart(s[it]) || IsDigit(s[it]))
      invariant p < it <= |s| && NameLength(s[p..]) == it - 1 - p + NameLength(s[it - 1..])
    {
      it := it + 1;
    }
  }

  lemma {:induction false} StopsAtDigit(s: string, p: nat, q: nat)
    requires p <= |s| && p <= q <= RunEnd(s, p)
    ensures q < RunEnd(s, p) ==> IsDigit(s[q])
    decreases q - p
  {
    if p < q {
      StopsAtDigit(s, p + 1, q);
    }
  }

  /** Where the counter goes on after an argument id. */
  function CountedEnd(s: string, p: nat): (n: nat)
    requires p <= |s|
    ensures p <= n <= |s| && (p < |s| ==> p < n)
  {
    if p < |s| && s[p] == '}' then p + 1
    else if p < |s| && s[p] == ':' then AfterBrace(s, MatchingBrace(s, p + 1, 0))
    else |s|
  }

  function AfterBrace(s: string, p: nat): (n: nat)
    requires p <= |s|
    ensures p <= n <= |s| && (p < |s| ==> n == p + 1)
  {
    if p < |s| then p + 1 else p
  }

  /** A field as the counter reads it. */
  function ReadByBraces(s: string, p: nat): Read<Token<()>> {
    if p + 1 < |s| && s[p] == '{' then
      if s[p + 1] == '}' then Read(Field(()), 2)
      else if s[p + 1] == '{' then Read(Text(p + 1, p + 2), 2)
      else CountedField(s, p, CountedId(s, p + 1))
    else Failed
  }

  function CountedField(s: string, p: nat, id: Option<nat>): Read<Token<()>> {
    match id
    case None => Failed
    case Some(q) => if p < q <= |s| then Read(Field(()), CountedEnd(s, q) - p) else Failed
  }

  lemma CounterIsSound()
    ensures Sound(ReadByBraces) && Escapes(ReadByBraces)
  {
  }

  // ---------- the end of the specifications ----------

  /** The braces of what has been read as specifications are balanced, up to a closing one,
      except that an opening brace may be their type. */
  ghost predicate Balanced(s: string, p: nat, depth: nat, r: Read<RawSpecs>) {
    r.Read? && p <= r.length < |s| && s[r.length] == '}'
    ==> (MatchingBrace(s, p, depth)
         == MatchingBrace(s, r.length, if r.value.type_ == Some('{') then depth + 1 else depth))
  }

  lemma {:induction false} PlainScan(s: string, p: nat, q: nat, depth: nat)
    requires p <= q <= |s| && NoBraces(s, p, q)
    ensures MatchingBrace(s, p, depth) == MatchingBrace(s, q, depth)
    decreases q - p
  {
    if p < q {
      PlainScan(s, p + 1, q, depth);
    }
  }

  lemma SliceIsPlain(s: string, p: nat, q: nat)
    requires p <= q <= |s| && Plain(s[p..q])
    ensures NoBraces(s, p, q)
  {
    forall i | p <= i < q
      ensures !IsBrace(s[i])
    {
      assert s[i] == s[p..q][i - p];
    }
  }

  lemma TypeScan(s: string, p: nat, depth: nat, specs: RawSpecs)
    requires p <= |s| && specs.type_ == None
    ensures Balanced(s, p, depth, TypeAt(s, p, specs))
  {
  }

  lemma NestedScan(s: string, p: nat, n: nat, depth: nat)
    requires 2 <= n && p + n <= |s| && s[p] == '{' && s[p + n - 1] == '}' && Plain(s[p + 1..p + n - 1])
    ensures MatchingBrace(s, p, depth) == MatchingBrace(s, p + n, depth)
  {
    SliceIsPlain(s, p + 1, p + n - 1);
    PlainScan(s, p + 1, p + n - 1, depth + 1);
  }

  /** A width, or a precision, is balanced. */
  lemma DimensionScan(s: string, p: nat, depth: nat, w: Read<Dimension>)
    requires p < |s| && w.Read?
    requires (IsDigit(s[p]) && w == NumberAt(s[p..])) || (s[p] == '{' && w == NestedIdAt(s[p..]))
    ensures p + w.length <= |s|
    ensures MatchingBrace(s, p, depth) == MatchingBrace(s, p + w.length, depth)
  {
    if IsDigit(s[p]) {
      assert s[p..][..w.length] == s[p..p + w.length];
      SliceIsPlain(s, p, p + w.length);
      PlainScan(s, p, p + w.length, depth);
    } else {
      assert s[p..][1..w.length - 1] == s[p + 1..p + w.length - 1];
      NestedScan(s, p, w.length, depth);
    }
  }

  lemma PointScan(s: string, p: nat, depth: nat, specs: RawSpecs)
    requires p <= |s| && specs.type_ == None
    ensures Balanced(s, p, depth, PrecisionThenType(s, p, specs))
  {
    if p < |s| && s[p] == '.' {
      var d := PrecisionAt(s[p + 1..]);
      if d.Read? {
        PrecisionScan(s, p + 1, depth, d);
      }
      AfterPointScan(s, p, depth, d, specs);
    } else {
      TypeScan(s, p, depth, specs);
    }
  }

  lemma PrecisionScan(s: string, p: nat, depth: nat, d: Read<Dimension>)
    requires p <= |s| && d == PrecisionAt(s[p..]) && d.Read?
    ensures p + d.length <= |s| && MatchingBrace(s, p, depth) == MatchingBrace(s, p + d.length, depth)
  {
    DimensionScan(s, p, depth, d);
  }

  lemma AfterPointScan(s: string, p: nat, depth: nat, d: Read<Dimension>, specs: RawSpecs)
    requires p < |s| && s[p] == '.' && specs.type_ == None
    requires d.Read? ==> && p + 1 + d.length <= |s|
                         && MatchingBrace(s, p + 1, depth) == MatchingBrace(s, p + 1 + d.length, depth)
    ensures Balanced(s, p, depth, AfterPoint(s, p, d, specs))
  {
    if d.Read? {
      TypeScan(s, p + 1 + d.length, depth, specs.(precision := d.value));
    }
  }

  lemma WidthScan(s: string, p: nat, depth: nat, specs: RawSpecs)
    requires p < |s| && specs.type_ == None
    ensures Balanced(s, p, depth, WidthThenRest(s, p, specs))
  {
    var w := WidthAt(s[p..]);
    if w.Read? && (IsDigit(s[p]) || s[p] == '{') {
      DimensionScan(s, p, depth, w);
    }
    AfterWidthScan(s, p, depth, w, specs);
  }

  lemma AfterWidthScan(s: string, p: nat, depth: nat, w: Read<Dimension>, specs: RawSpecs)
    requires p <= |s| && specs.type_ == None
    requires w.Read? ==> p + w.length <= |s| && MatchingBrace(s, p, depth) == MatchingBrace(s, p + w.length, depth)
    ensures Balanced(s, p, depth, AfterWidth(s, p, w, specs))
  {
    if w.Read? {
      PointScan(s, p + w.length, depth, specs.(width := w.value));
    }
  }

  lemma FlagsScan(s: string, p: nat, depth: nat, specs: RawSpecs)
    requires p <= |s| && specs.type_ == None
    ensures Balanced(s, p, depth, FlagsAt(s, p, specs))
  {
    var (sign, hash, zero, q) := FlagsOf(s, p);
    if q < |s| {
      WidthScan(s, q, depth, specs.(sign := sign, hash := hash, zero := zero));
      PlainScan(s, p, q, depth);
    }
  }

  lemma SpecsScan(s: string, depth: nat)
    ensures Balanced(s, 0, depth, SpecsAt(s))
  {
    if |s| > 0 && s[0] != '}' {
      var a := AlignAt(s);
      if a.Read? {
        var none := RawSpecs("", NoAlign, NoSign, false, false, Absent, Absent, None);
        FlagsScan(s, a.length, depth, none.(fill := a.value.0, align := a.value.1));
        assert s[0..a.length] == s[..a.length];
        SliceIsPlain(s, 0, a.length);
        PlainScan(s, 0, a.length, depth);
      }
    }
  }

  /** The matching brace is where the specifications end, exactly if their type is not an
      opening brace, which the search takes for the start of a nested field. */
  lemma MatchingBraceIsEnd(s: string)
    requires SpecsAt(s).Read? && SpecsAt(s).length < |s| && s[SpecsAt(s).length] == '}'
    ensures MatchingBrace(s, 0, 0) == SpecsAt(s).length <==> SpecsAt(s).value.type_ != Some('{')
  {
    SpecsScan(s, 0);
  }

  lemma {:induction false} ScanInSlice(s: string, p: nat, i: nat, depth: nat)
    requires p <= |s| && i <= |s| - p
    ensures MatchingBrace(s, p + i, depth) == p + MatchingBrace(s[p..], i, depth)
    decreases |s| - p - i
  {
    if p + i < |s| {
      assert s[p..][i] == s[p + i];
      if s[p + i] == '{' {
        ScanInSlice(s, p, i + 1, depth + 1);
      } else if s[p + i] == '}' {
        if depth > 0 {
          ScanInSlice(s, p, i + 1, depth - 1);
        }
      } else {
        ScanInSlice(s, p, i + 1, depth);
      }
    }
  }

  // ---------- fields ----------

  predicate BraceType(token: Token<Placeholder>) {
    token.Field? && token.field.WithSpecs? && token.field.specs.type_ == Some('{')
  }

  /** Specifications from q on. */
  lemma SpecsInString(s: string, q: nat, depth: nat, t: string, r: Read<RawSpecs>)
    requires q <= |s| && t == s[q..] && Balanced(t, 0, depth, r)
    requires r.Read? && q + r.length < |s| && s[q + r.length] == '}'
    ensures MatchingBrace(s, q, depth)
         == MatchingBrace(s, q + r.length, if r.value.type_ == Some('{') then depth + 1 else depth)
  {
    ScanInSlice(s, q, 0, depth);
    ScanInSlice(s, q, r.length, if r.value.type_ == Some('{') then depth + 1 else depth);
    assert t[r.length] == s[q + r.length];
  }

  /** An argument id that can be read is one that the counter is told of. */
  lemma IdsAgree(s: string, p: nat)
    requires p < |s| && ArgIdAt(s[p..]).Read?
    ensures CountedId(s, p) == Some(p + ArgIdAt(s[p..]).length)
    ensures NoBraces(s, p, p + ArgIdAt(s[p..]).length)
  {
    var t := s[p..];
    var n := ArgIdAt(t).length;
    assert t[..n] == s[p..p + n];
    SliceIsPlain(s, p, p + n);
    if IsDigit(t[0]) && t[0] != '0' {
      RunInSlice(s, p, 0);
      RunIsDigits(s, p);
      assert t[0..n] == s[p..p + n];
      SmallIsTakenWhole(s, p, p + n);
    }
  }

  lemma {:induction false} RunInSlice(s: string, p: nat, i: nat)
    requires p <= |s| && i <= |s| - p
    ensures RunEnd(s, p + i) == p + RunEnd(s[p..], i)
    decreases |s| - p - i
  {
    if p + i < |s| && IsDigit(s[p + i]) {
      RunInSlice(s, p, i + 1);
    }
  }

  lemma SmallIsTakenWhole(s: string, p: nat, e: nat)
    requires p < e <= |s| && IsDigit(s[p]) && e == RunEnd(s, p) && AllDigits(s[p..e])
    requires DecimalValue(s[p..e]) <= MAX_INT
    ensures TakenWhole(s, p)
  {
    OneMoreDigit(s, p, e - 1);
    assert s[p..e][e - 1 - p] == s[e - 1];
  }

  /** A field with specifications from q on. */
  lemma SpecFieldScan(s: string, p: nat, q: nat, depth: nat, r: Read<RawSpecs>)
    requires p < q <= |s| && s[p] == '{' && s[q - 1] == ':' && NoBraces(s, p + 1, q - 1)
    requires Balanced(s[q..], 0, 0, r) && Balanced(s[q..], 0, depth + 1, r)
    requires r.Read? && q + r.length < |s| && s[q + r.length] == '}'
    ensures MatchingBrace(s, p, depth)
         == MatchingBrace(s, q + r.length + 1, if r.value.type_ == Some('{') then depth + 1 else depth)
    ensures AfterBrace(s, MatchingBrace(s, q, 0))
         == if r.value.type_ == Some('{') then AfterBrace(s, MatchingBrace(s, q + r.length + 1, 0))
            else q + r.length + 1
  {
    SpecFieldDepth(s, p, q, depth, r);
    SpecFieldEnd(s, q, r);
  }

  lemma SpecFieldDepth(s: string, p: nat, q: nat, depth: nat, r: Read<RawSpecs>)
    requires p < q <= |s| && s[p] == '{' && s[q - 1] == ':' && NoBraces(s, p + 1, q - 1)
    requires Balanced(s[q..], 0, depth + 1, r)
    requires r.Read? && q + r.length < |s| && s[q + r.length] == '}'
    ensures MatchingBrace(s, p, depth)
         == MatchingBrace(s, q + r.length + 1, if r.value.type_ == Some('{') then depth + 1 else depth)
  {
    hide Balanced;
    SpecsInString(s, q, depth + 1, s[q..], r);
    PlainScan(s, p + 1, q, depth + 1);
    ClosedAt(s, q + r.length, if r.value.type_ == Some('{') then depth + 2 else depth + 1);
  }

  lemma SpecFieldEnd(s: string, q: nat, r: Read<RawSpecs>)
    requires q <= |s| && Balanced(s[q..], 0, 0, r)
    requires r.Read? && q + r.length < |s| && s[q + r.length] == '}'
    ensures AfterBrace(s, MatchingBrace(s, q, 0))
         == if r.value.type_ == Some('{') then AfterBrace(s, MatchingBrace(s, q + r.length + 1, 0))
            else q + r.length + 1
  {
    SpecsInString(s, q, 0, s[q..], r);
    ClosedAt(s, q + r.length, if r.value.type_ == Some('{') then 1 else 0);
  }

  lemma ClosedAt(s: string, p: nat, depth: nat)
    requires p < |s| && s[p] == '}'
    ensures MatchingBrace(s, p, depth) == if depth == 0 then p else MatchingBrace(s, p + 1, depth - 1)
  {
  }

  /** A field as the counter sees it, and as the search for a matching brace around it does. */
  ghost predicate SeenAs<F, G>(s: string, p: nat, depth: nat, r: Read<Token<F>>, c: Read<Token<G>>, bad: bool) {
    && r.Read? && p + r.length <= |s| && c.Read?
    && var e := p + r.length;
       && (r.value.Text? ==> !bad && e == p + 2 && MatchingBrace(s, p, depth) == MatchingBrace(s, e, depth + 2))
       && (r.value.Field? ==> MatchingBrace(s, p, depth) == MatchingBrace(s, e, if bad then depth + 1 else depth))
       && c.length == if bad then AfterBrace(s, MatchingBrace(s, e, 0)) - p else r.length
  }

  /** A field as read by the parser, with the argument id up to q. */
  ghost predicate FieldSeen(s: string, p: nat, q: nat, depth: nat, r: Read<Option<Placeholder>>) {
    && p < |s| && s[p] == '{' && q <= |s| && r.Read? && r.value.Some?
    && SeenAs(s, p, depth, Read(Field(r.value.value), r.length), CountedField(s, p, Some(q)),
              BraceType(Field(r.value.value)))
  }

  lemma IdFieldScan(s: string, p: nat, depth: nat, t: string, id: Read<ArgId>, specs: Read<RawSpecs>)
    requires p + 1 < |s| && s[p] == '{' && t == s[p..] && FieldWith(t, id, specs).Read?
    requires NoBraces(s, p + 1, p + 1 + id.length)
    requires t[id.length + 1] == ':'
         ==> Balanced(t[id.length + 2..], 0, 0, specs) && Balanced(t[id.length + 2..], 0, depth + 1, specs)
    ensures FieldSeen(s, p, p + 1 + id.length, depth, FieldWith(t, id, specs))
  {
    assert t[id.length + 1] == s[p + 1 + id.length];
    if t[id.length + 1] == '}' {
      DefaultFieldSeen(s, p, p + 1 + id.length, depth, id.value);
    } else {
      SpecIdFieldScan(s, p, p + 1 + id.length, depth, t, id, specs);
    }
  }

  lemma SpecIdFieldScan(s: string, p: nat, q: nat, depth: nat, t: string, id: Read<ArgId>, specs: Read<RawSpecs>)
    requires p < q < |s| && s[p] == '{' && t == s[p..] && FieldWith(t, id, specs).Read?
    requires id.Read? && q == p + 1 + id.length && NoBraces(s, p + 1, q) && s[q] != '}'
    requires Balanced(t[id.length + 2..], 0, 0, specs) && Balanced(t[id.length + 2..], 0, depth + 1, specs)
    ensures FieldSeen(s, p, q, depth, FieldWith(t, id, specs))
  {
    SpecFieldRead(s, p, q, t, id, specs);
    SpecFieldSeen(s, p, q, depth, id.value, specs);
  }

  lemma SpecFieldRead(s: string, p: nat, q: nat, t: string, id: Read<ArgId>, specs: Read<RawSpecs>)
    requires p < q < |s| && t == s[p..] && id.Read? && q == p + 1 + id.length && s[q] != '}'
    requires FieldWith(t, id, specs).Read?
    ensures s[q] == ':' && t[id.length + 2..] == s[q + 1..]
    ensures specs.Read? && q + 1 + specs.length < |s| && s[q + 1 + specs.length] == '}'
    ensures FieldWith(t, id, specs) == Read(Some(WithSpecs(id.value, specs.value)), q + specs.length + 2 - p)
  {
    assert t[id.length + 1] == s[q];
    assert t[id.length + 2 + specs.length] == s[q + 1 + specs.length];
  }

  lemma DefaultFieldSeen(s: string, p: nat, q: nat, depth: nat, id: ArgId)
    requires p < q < |s| && s[p] == '{' && NoBraces(s, p + 1, q) && s[q] == '}'
    ensures SeenAs(s, p, depth, Read(Field(Default(id)), q + 1 - p), CountedField(s, p, Some(q)), false)
  {
    PlainScan(s, p + 1, q, depth + 1);
  }

  lemma SpecFieldSeen(s: string, p: nat, q: nat, depth: nat, id: ArgId, specs: Read<RawSpecs>)
    requires p < q < |s| && s[p] == '{' && s[q] == ':' && NoBraces(s, p + 1, q)
    requires Balanced(s[q + 1..], 0, 0, specs) && Balanced(s[q + 1..], 0, depth + 1, specs)
    requires specs.Read? && q + 1 + specs.length < |s| && s[q + 1 + specs.length] == '}'
    ensures var token := Field(WithSpecs(id, specs.value));
            SeenAs(s, p, depth, Read(token, q + specs.length + 2 - p), CountedField(s, p, Some(q)), BraceType(token))
  {
    SpecFieldScan(s, p, q + 1, depth, specs);
  }

  lemma FieldScan(s: string, p: nat, depth: nat)
    requires p < |s| && s[p] == '{' && ReadBySpecs(s, p).Read?
    ensures SeenAs(s, p, depth, ReadBySpecs(s, p), ReadByBraces(s, p), BraceType(ReadBySpecs(s, p).value))
  {
    assert s[p..][1] == s[p + 1];
    if s[p + 1] == '}' {
      assert MatchingBrace(s, p, depth) == MatchingBrace(s, p + 2, depth);
    } else if s[p + 1] == '{' {
      assert MatchingBrace(s, p, depth) == MatchingBrace(s, p + 2, depth + 2);
    } else {
      FieldWithId(s, p, depth, s[p..]);
    }
  }

  lemma FieldWithId(s: string, p: nat, depth: nat, t: string)
    requires p + 1 < |s| && s[p] == '{' && t == s[p..] && s[p + 1] != '}' && s[p + 1] != '{'
    requires FieldWith(t, ArgIdAt(t[1..]), SpecsAfter(t, ArgIdAt(t[1..]))).Read?
    ensures var r := FieldWith(t, ArgIdAt(t[1..]), SpecsAfter(t, ArgIdAt(t[1..])));
            SeenAs(s, p, depth, Read(Field(r.value.value), r.length),
                   CountedField(s, p, CountedId(s, p + 1)), BraceType(Field(r.value.value)))
  {
    var id, specs := WhatIsRead(s, p, depth, t);
    IdFieldScan(s, p, depth, t, id, specs);
  }

  lemma WhatIsRead(s: string, p: nat, depth: nat, t: string) returns (id: Read<ArgId>, specs: Read<RawSpecs>)
    requires p + 1 < |s| && t == s[p..] && ArgIdAt(t[1..]).Read?
    ensures id == ArgIdAt(t[1..]) && specs == SpecsAfter(t, ArgIdAt(t[1..])) && id.Read?
    ensures CountedId(s, p + 1) == Some(p + 1 + id.length)
    ensures p + 1 + id.length <= |s| && NoBraces(s, p + 1, p + 1 + id.length)
    ensures id.length + 1 < |t| && t[id.length + 1] == ':'
        ==> Balanced(t[id.length + 2..], 0, 0, specs) && Balanced(t[id.length + 2..], 0, depth + 1, specs)
  {
    assert t[1..] == s[p + 1..];
    id := ArgIdAt(t[1..]);
    IdsAgree(s, p + 1);
    specs := SpecsAfter(t, id);
    SpecsBalanced(t, id, specs, 0);
    SpecsBalanced(t, id, specs, depth + 1);
  }

  lemma SpecsBalanced(t: string, id: Read<ArgId>, specs: Read<RawSpecs>, depth: nat)
    requires specs == SpecsAfter(t, id)
    ensures id.Read? && id.length + 1 < |t| && t[id.length + 1] == ':'
        ==> Balanced(t[id.length + 2..], 0, depth, specs)
  {
    if id.Read? && id.length + 1 < |t| && t[id.length + 1] == ':' {
      SpecsReadAs(t[id.length + 2..], specs, depth);
    }
  }

  lemma SpecsReadAs(s: string, specs: Read<RawSpecs>, depth: nat)
    requires specs == SpecsAt(s)
    ensures Balanced(s, 0, depth, specs)
  {
    SpecsScan(s, depth);
  }

  // ---------- counting ----------

  /** How many events are reported from p on. */
  ghost function Tally<F>(s: string, p: nat, field: Reader<F>, onError: OnError): Option<nat>
    requires Sound(field) && p <= |s|
    decreases |s| - p
  {
    var n := NextBrace(s, p);
    var text := if n == p then 0 else 1;
    if n == |s| then Some(text)
    else if s[n] == '{' then
      match field(s, n)
      case Failed => if onError == Throw then None else Some(text)
      case Read(_, length) => Plus(text + 1, Tally(s, n + length, field, onError))
    else if n + 1 < |s| && s[n + 1] == '}' then Plus(1, Tally(s, n + 2, field, onError))
    else match onError
      case Throw => None
      case Stop => Some(0)
      case Skip => if NextOpening(s, n) == |s| then Some(0) else Tally(s, NextOpening(s, n), field, onError)
  }

  function Plus(n: nat, m: Option<nat>): Option<nat> {
    match m
    case None => None
    case Some(k) => Some(n + k)
  }

  lemma {:induction false} EventsTally<F>(s: string, p: nat, before: seq<Token<F>>, field: Reader<F>,
                                          onError: OnError)
    requires Sound(field) && p <= |s|
    ensures Tallies(Tally(s, p, field, onError), Events(s, p, before, field, onError), before)
    decreases |s| - p, 1
  {
    var n := NextBrace(s, p);
    if n < |s| {
      if s[n] == '{' {
        FieldTally(s, p, n, before, field, onError);
      } else {
        BraceTally(s, p, n, before, field, onError);
      }
    }
  }

  lemma {:induction false} FieldTally<F>(s: string, p: nat, n: nat, before: seq<Token<F>>, field: Reader<F>,
                                         onError: OnError)
    requires Sound(field) && p <= n < |s| && n == NextBrace(s, p) && s[n] == '{'
    ensures Tallies(Tally(s, p, field, onError), Events(s, p, before, field, onError), before)
    decreases |s| - p, 0
  {
    var r := field(s, n);
    FieldStep(s, field, onError, before, p, n, r);
    if r.Read? {
      EventsTally(s, n + r.length, before + (TextEvent(p, n) + [r.value]), field, onError);
    }
  }

  lemma {:induction false} BraceTally<F>(s: string, p: nat, n: nat, before: seq<Token<F>>, field: Reader<F>,
                                         onError: OnError)
    requires Sound(field) && p <= n < |s| && n == NextBrace(s, p) && s[n] == '}'
    ensures Tallies(Tally(s, p, field, onError), Events(s, p, before, field, onError), before)
    decreases |s| - p, 0
  {
    BraceStep(s, field, onError, before, p, n);
    if n + 1 < |s| && s[n + 1] == '}' {
      EventsTally(s, n + 2, before + [Text(p, n + 1)], field, onError);
    } else if onError == Skip && NextOpening(s, n) < |s| {
      EventsTally(s, NextOpening(s, n), before, field, onError);
    }
  }

  ghost predicate Tallies<F>(n: Option<nat>, events: Option<seq<Token<F>>>, before: seq<Token<F>>) {
    match n
    case None => events == None
    case Some(k) => events.Some? && before <= events.value && |events.value| == |before| + k
  }

  /** The two readers see fields alike, but for the bad ones. */
  ghost predicate Alike<F, G>(specs: Reader<F>, braces: Reader<G>, bad: Token<F> -> bool) {
    && Sound(specs) && Sound(braces)
    && forall s, p: nat, depth: nat {:trigger Place(s, p, depth)} ::
         Place(s, p, depth) && specs(s, p).Read?
         ==> SeenAs(s, p, depth, specs(s, p), braces(s, p), bad(specs(s, p).value))
  }

  predicate Place(s: string, p: nat, depth: nat) {
    p < |s| && s[p] == '{'
  }

  lemma AlikeAt<F, G>(s: string, p: nat, depth: nat, specs: Reader<F>, braces: Reader<G>, bad: Token<F> -> bool)
    requires Alike(specs, braces, bad) && p < |s| && s[p] == '{' && specs(s, p).Read?
    ensures SeenAs(s, p, depth, specs(s, p), braces(s, p), bad(specs(s, p).value))
    ensures 2 <= specs(s, p).length <= |s| - p && 2 <= braces(s, p).length <= |s| - p
  {
    assert Place(s, p, depth);
  }

  /** Text up to the next field adds to the count. */
  lemma {:induction false} FieldReached<F>(s: string, p: nat, m: nat, specs: Reader<F>)
    requires Sound(specs) && p <= m < |s| && s[m] == '{' && forall i :: p <= i < m ==> s[i] != '{'
    requires Tally(s, p, specs, Throw).Some?
    ensures Tally(s, m, specs, Throw).Some?
    ensures Tally(s, m, specs, Throw).value <= Tally(s, p, specs, Throw).value
    decreases m - p
  {
    var n := NextBrace(s, p);
    if n < m {
      assert s[n] == '}';
      FieldReached(s, n + 2, m, specs);
    } else {
      NextBraceSkips(s, p);
      NextBraceIs(s, p, m);
      NextBraceIs(s, m, m);
    }
  }

  /** From the start of a token on no more parts are counted than there are. */
  lemma {:induction false} AtMost<F, G>(s: string, p: nat, specs: Reader<F>, braces: Reader<G>,
                                        bad: Token<F> -> bool, onError: OnError)
    requires Alike(specs, braces, bad) && onError != Throw && p <= |s|
    requires Tally(s, p, specs, Throw).Some?
    ensures Tally(s, p, braces, onError).Some?
    ensures Tally(s, p, braces, onError).value <= Tally(s, p, specs, Throw).value
    decreases |s| - p, 1
  {
    var n := NextBrace(s, p);
    if n < |s| {
      if s[n] == '{' {
        if !bad(specs(s, n).value) {
          AtMostGood(s, p, n, specs, braces, bad, onError);
        } else if n + specs(s, n).length == |s| {
          AtMostLast(s, p, n, specs, braces, bad, onError);
        } else {
          AtMostBad(s, p, n, specs, braces, bad, onError);
        }
      } else {
        AtMost(s, n + 2, specs, braces, bad, onError);
      }
    }
  }

  lemma {:induction false} AtMostGood<F, G>(s: string, p: nat, n: nat, specs: Reader<F>, braces: Reader<G>,
                                            bad: Token<F> -> bool, onError: OnError)
    requires Alike(specs, braces, bad) && onError != Throw && p <= n < |s|
    requires n == NextBrace(s, p) && s[n] == '{' && Tally(s, p, specs, Throw).Some?
    requires !bad(specs(s, n).value)
    ensures Tally(s, p, braces, onError).Some?
    ensures Tally(s, p, braces, onError).value <= Tally(s, p, specs, Throw).value
    decreases |s| - p, 0
  {
    AlikeAt(s, n, 0, specs, braces, bad);
    AtMost(s, n + specs(s, n).length, specs, braces, bad, onError);
  }

  /** After a bad field at the end nothing is left for either. */
  lemma AtMostLast<F, G>(s: string, p: nat, n: nat, specs: Reader<F>, braces: Reader<G>,
                         bad: Token<F> -> bool, onError: OnError)
    requires Alike(specs, braces, bad) && onError != Throw && p <= n < |s|
    requires n == NextBrace(s, p) && s[n] == '{' && Tally(s, p, specs, Throw).Some?
    requires bad(specs(s, n).value) && n + specs(s, n).length == |s|
    ensures Tally(s, p, braces, onError) == Tally(s, p, specs, Throw)
  {
    AlikeAt(s, n, 0, specs, braces, bad);
    AtEnd(s, braces, onError);
    AtEnd(s, specs, Throw);
  }

  lemma {:induction false} AtMostBad<F, G>(s: string, p: nat, n: nat, specs: Reader<F>, braces: Reader<G>,
                                           bad: Token<F> -> bool, onError: OnError)
    requires Alike(specs, braces, bad) && onError != Throw && p <= n < |s|
    requires n == NextBrace(s, p) && s[n] == '{' && Tally(s, p, specs, Throw).Some?
    requires bad(specs(s, n).value) && n + specs(s, n).length < |s|
    ensures Tally(s, p, braces, onError).Some?
    ensures Tally(s, p, braces, onError).value < Tally(s, p, specs, Throw).value
    decreases |s| - p, 0
  {
    AlikeAt(s, n, 0, specs, braces, bad);
    var e := n + specs(s, n).length;
    ScanLoses(s, e, 0, specs, braces, bad, onError);
    AtEnd(s, braces, onError);
    SomethingLeft(s, e, specs);
  }

  lemma AtEnd<G>(s: string, braces: Reader<G>, onError: OnError)
    requires Sound(braces)
    ensures Tally(s, |s|, braces, onError) == Some(0)
  {
  }

  lemma TwoClosing<G>(s: string, p: nat, braces: Reader<G>, onError: OnError)
    requires Sound(braces) && 0 < p < |s| && s[p - 1] == '}' && s[p] == '}'
    ensures Tally(s, p - 1, braces, onError) == Plus(1, Tally(s, p + 1, braces, onError))
  {
    NextBraceIs(s, p - 1, p - 1);
  }

  /** Nor from the second of two closing braces before the start of a token. */
  lemma {:induction false} Shifted<F, G>(s: string, p: nat, specs: Reader<F>, braces: Reader<G>,
                                         bad: Token<F> -> bool, onError: OnError)
    requires Alike(specs, braces, bad) && onError != Throw && 0 < p <= |s| && s[p - 1] == '}'
    requires Tally(s, p, specs, Throw).Some?
    ensures Tally(s, p - 1, braces, onError).Some?
    ensures Tally(s, p - 1, braces, onError).value <= Tally(s, p, specs, Throw).value
    decreases |s| - p, 2
  {
    NextBraceIs(s, p - 1, p - 1);
    if p < |s| && s[p] == '}' {
      NextBraceIs(s, p, p);
      PairTally(s, p, p, specs);
      Shifted(s, p + 2, specs, braces, bad, onError);
      TwoClosing(s, p, braces, onError);
    } else if onError == Skip {
      var m := NextOpening(s, p - 1);
      if m < |s| {
        NextOpeningSkips(s, p - 1);
        FieldReached(s, p, m, specs);
        AtMost(s, m, specs, braces, bad, onError);
      }
    }
  }

  /** Fewer parts are counted after m than there are from p on. */
  ghost predicate Loses<F, G>(s: string, p: nat, m: nat, specs: Reader<F>, braces: Reader<G>, onError: OnError)
    requires Sound(specs) && Sound(braces) && p <= |s| && Tally(s, p, specs, Throw).Some?
  {
    m < |s| ==> && Tally(s, m + 1, braces, onError).Some?
                && Tally(s, m + 1, braces, onError).value < Tally(s, p, specs, Throw).value
  }

  /** The search for a matching brace ends inside a doubled one, or right after it, or not at
      all; whichever it is, that text is not counted. */
  lemma {:induction false} ScanLoses<F, G>(s: string, p: nat, depth: nat, specs: Reader<F>, braces: Reader<G>,
                                           bad: Token<F> -> bool, onError: OnError)
    requires Alike(specs, braces, bad) && onError != Throw && p <= |s|
    requires Tally(s, p, specs, Throw).Some?
    ensures Loses(s, p, MatchingBrace(s, p, depth), specs, braces, onError)
    decreases |s| - p, 1
  {
    var n := NextBrace(s, p);
    NextBraceSkips(s, p);
    PlainScan(s, p, n, depth);
    if n < |s| {
      if s[n] == '{' {
        ScanField(s, p, n, depth, specs, braces, bad, onError);
      } else {
        ScanPair(s, p, n, depth, specs, braces, bad, onError);
      }
    }
  }

  lemma {:induction false} ScanField<F, G>(s: string, p: nat, n: nat, depth: nat, specs: Reader<F>,
                                           braces: Reader<G>, bad: Token<F> -> bool, onError: OnError)
    requires Alike(specs, braces, bad) && onError != Throw && p <= n < |s|
    requires n == NextBrace(s, p) && s[n] == '{' && Tally(s, p, specs, Throw).Some?
    ensures Loses(s, p, MatchingBrace(s, n, depth), specs, braces, onError)
    decreases |s| - n, 0
  {
    AlikeAt(s, n, depth, specs, braces, bad);
    var r := specs(s, n);
    ScanLoses(s, n + r.length, if r.value.Text? then depth + 2 else if bad(r.value) then depth + 1 else depth,
              specs, braces, bad, onError);
  }

  lemma {:induction false} ScanPair<F, G>(s: string, p: nat, n: nat, depth: nat, specs: Reader<F>,
                                          braces: Reader<G>, bad: Token<F> -> bool, onError: OnError)
    requires Alike(specs, braces, bad) && onError != Throw && p <= n < |s|
    requires n == NextBrace(s, p) && s[n] == '}' && Tally(s, p, specs, Throw).Some?
    ensures Loses(s, p, MatchingBrace(s, n, depth), specs, braces, onError)
    decreases |s| - n, 0
  {
    PairTally(s, p, n, specs);
    PairScan(s, n, depth);
    if depth >= 2 {
      ScanLoses(s, n + 2, depth - 2, specs, braces, bad, onError);
    } else {
      ScanStops(s, n, depth, specs, braces, bad, onError);
    }
  }

  lemma {:induction false} ScanStops<F, G>(s: string, n: nat, depth: nat, specs: Reader<F>,
                                           braces: Reader<G>, bad: Token<F> -> bool, onError: OnError)
    requires Alike(specs, braces, bad) && onError != Throw && n + 1 < |s| && depth <= 1
    requires s[n] == '}' && s[n + 1] == '}' && Tally(s, n + 2, specs, Throw).Some?
    ensures Tally(s, n + depth + 1, braces, onError).Some?
    ensures Tally(s, n + depth + 1, braces, onError).value <= Tally(s, n + 2, specs, Throw).value
    decreases |s| - n - 2, 3
  {
    if depth == 1 {
      AtMost(s, n + 2, specs, braces, bad, onError);
    } else {
      Shifted(s, n + 2, specs, braces, bad, onError);
    }
  }

  /** A closing brace that is no error. */
  lemma PairTally<F>(s: string, p: nat, n: nat, field: Reader<F>)
    requires Sound(field) && p <= n < |s| && n == NextBrace(s, p) && s[n] == '}'
    requires Tally(s, p, field, Throw).Some?
    ensures n + 1 < |s| && s[n + 1] == '}' && Tally(s, n + 2, field, Throw).Some?
    ensures Tally(s, p, field, Throw).value == 1 + Tally(s, n + 2, field, Throw).value
  {
  }

  lemma PairScan(s: string, n: nat, depth: nat)
    requires n + 1 < |s| && s[n] == '}' && s[n + 1] == '}'
    ensures MatchingBrace(s, n, depth)
         == if depth >= 2 then MatchingBrace(s, n + 2, depth - 2) else n + depth
  {
  }

  /** From p on, some token other than the last one is bad. */
  ghost predicate Misread<F>(s: string, p: nat, specs: Reader<F>, bad: Token<F> -> bool)
    requires Sound(specs) && p <= |s|
    decreases |s| - p
  {
    var n := NextBrace(s, p);
    if n == |s| then false
    else if s[n] == '{' then
      var r := specs(s, n);
      r.Read? && ((bad(r.value) && n + r.length < |s|) || Misread(s, n + r.length, specs, bad))
    else n + 1 < |s| && s[n + 1] == '}' && Misread(s, n + 2, specs, bad)
  }

  lemma {:induction false} CountsAll<F, G>(s: string, p: nat, specs: Reader<F>, braces: Reader<G>,
                                           bad: Token<F> -> bool, onError: OnError)
    requires Alike(specs, braces, bad) && onError != Throw && p <= |s|
    requires Tally(s, p, specs, Throw).Some?
    ensures Tally(s, p, braces, onError).Some?
    ensures Tally(s, p, braces, onError) == Tally(s, p, specs, Throw) <==> !Misread(s, p, specs, bad)
    decreases |s| - p, 1
  {
    var n := NextBrace(s, p);
    if n < |s| {
      if s[n] == '{' {
        if bad(specs(s, n).value) {
          CountsBad(s, p, n, specs, braces, bad, onError);
        } else {
          CountsGood(s, p, n, specs, braces, bad, onError);
        }
      } else {
        CountsAll(s, n + 2, specs, braces, bad, onError);
      }
    }
  }

  lemma {:induction false} CountsGood<F, G>(s: string, p: nat, n: nat, specs: Reader<F>, braces: Reader<G>,
                                            bad: Token<F> -> bool, onError: OnError)
    requires Alike(specs, braces, bad) && onError != Throw && p <= n < |s|
    requires n == NextBrace(s, p) && s[n] == '{' && Tally(s, p, specs, Throw).Some?
    requires !bad(specs(s, n).value)
    ensures Tally(s, p, braces, onError).Some?
    ensures Tally(s, p, braces, onError) == Tally(s, p, specs, Throw) <==> !Misread(s, p, specs, bad)
    decreases |s| - p, 0
  {
    AlikeAt(s, n, 0, specs, braces, bad);
    CountsAll(s, n + specs(s, n).length, specs, braces, bad, onError);
  }

  lemma CountsBad<F, G>(s: string, p: nat, n: nat, specs: Reader<F>, braces: Reader<G>,
                        bad: Token<F> -> bool, onError: OnError)
    requires Alike(specs, braces, bad) && onError != Throw && p <= n < |s|
    requires n == NextBrace(s, p) && s[n] == '{' && Tally(s, p, specs, Throw).Some?
    requires bad(specs(s, n).value)
    ensures Tally(s, p, braces, onError).Some?
    ensures Tally(s, p, braces, onError) == Tally(s, p, specs, Throw) <==> !Misread(s, p, specs, bad)
  {
    AlikeAt(s, n, 0, specs, braces, bad);
    if n + specs(s, n).length == |s| {
      AtMostLast(s, p, n, specs, braces, bad, onError);
      NothingMisread(s, specs, bad);
    } else {
      AtMostBad(s, p, n, specs, braces, bad, onError);
    }
  }

  lemma NothingMisread<F>(s: string, specs: Reader<F>, bad: Token<F> -> bool)
    requires Sound(specs)
    ensures !Misread(s, |s|, specs, bad)
  {
  }

  lemma SomethingLeft<F>(s: string, p: nat, specs: Reader<F>)
    requires Sound(specs) && p < |s| && Tally(s, p, specs, Throw).Some?
    ensures Tally(s, p, specs, Throw).value > 0
  {
  }

  lemma {:induction false} MisreadTokens<F>(s: string, p: nat, before: seq<Token<F>>, specs: Reader<F>,
                                            bad: Token<F> -> bool)
    requires Sound(specs) && p <= |s| && Events(s, p, before, specs, Throw).Some?
    requires forall b, e :: !bad(Text(b, e))
    ensures Misread(s, p, specs, bad) <==> BadBeforeLast(Events(s, p, before, specs, Throw).value, |before|, bad)
    decreases |s| - p, 1
  {
    var n := NextBrace(s, p);
    if n < |s| {
      if s[n] == '{' {
        MisreadField(s, p, n, before, specs, bad);
      } else {
        BraceStep(s, specs, Throw, before, p, n);
        var after := before + [Text(p, n + 1)];
        TokenTaken(s, n + 2, before, [], after, specs, bad);
        MisreadTokens(s, n + 2, after, specs, bad);
      }
    }
  }

  lemma {:induction false} MisreadField<F>(s: string, p: nat, n: nat, before: seq<Token<F>>, specs: Reader<F>,
                                           bad: Token<F> -> bool)
    requires Sound(specs) && p <= n < |s| && n == NextBrace(s, p) && s[n] == '{'
    requires Events(s, p, before, specs, Throw).Some? && forall b, e :: !bad(Text(b, e))
    ensures Misread(s, p, specs, bad) <==> BadBeforeLast(Events(s, p, before, specs, Throw).value, |before|, bad)
    decreases |s| - p, 0
  {
    var r := specs(s, n);
    FieldStep(s, specs, Throw, before, p, n, r);
    var after := before + (TextEvent(p, n) + [r.value]);
    TokenTaken(s, n + r.length, before, TextEvent(p, n), after, specs, bad);
    MisreadTokens(s, n + r.length, after, specs, bad);
  }

  ghost predicate BadBeforeLast<F>(tokens: seq<Token<F>>, from: nat, bad: Token<F> -> bool) {
    exists i :: from <= i < |tokens| - 1 && bad(tokens[i])
  }

  /** One token, possibly after a text, has been taken and the rest starts at q. */
  lemma TokenTaken<F>(s: string, q: nat, before: seq<Token<F>>, text: seq<Token<F>>, after: seq<Token<F>>,
                      specs: Reader<F>, bad: Token<F> -> bool)
    requires Sound(specs) && q <= |s| && Events(s, q, after, specs, Throw).Some?
    requires |after| == |before| + |text| + 1 && after[..|before|] == before && |text| <= 1
    requires text == after[|before|..|after| - 1] && forall t :: t in text ==> !bad(t)
    ensures var tokens := Events(s, q, after, specs, Throw).value;
            BadBeforeLast(tokens, |before|, bad)
            <==> (bad(after[|after| - 1]) && q < |s|) || BadBeforeLast(tokens, |after|, bad)
  {
    var tokens := Events(s, q, after, specs, Throw).value;
    EventsTally(s, q, after, specs, Throw);
    var last := |after| - 1;
    assert tokens[last] == after[last];
    forall i | |before| <= i < last
      ensures !bad(tokens[i])
    {
      assert tokens[i] == after[i] == text[i - |before|];
    }
    if q < |s| {
      SomethingLeft(s, q, specs);
    } else {
      AtEnd(s, specs, Throw);
    }
  }

  // ---------- whole strings ----------

  class PartCounter {
    var numParts: nat

    constructor ()
      ensures numParts == 0
    {
      numParts := 0;
    }

    /** A text that is not empty, or the argument id of a field. */
    method OnToken()
      modifies this
      ensures numParts == old(numParts) + 1
    {
      numParts := numParts + 1;
    }
  }

  /** What the counter is told, errors being ignored. */
  ghost function CountedEvents(s: string): seq<Token<()>> {
    CounterIsSound();
    ReturningTellsAll(s, 0, [], ReadByBraces, Policy(s, false));
    Events(s, 0, [], ReadByBraces, Policy(s, false)).value
  }

  method CountParts(s: string) returns (n: nat)
    ensures n == |CountedEvents(s)|
  {
    CounterIsSound();
    ReturningTellsAll(s, 0, [], ReadByBraces, Policy(s, false));
    var tokens := ParseFormatString(s, ReadByBraces, false);
    var counter := new PartCounter();
    for i := 0 to |tokens.value|
      invariant counter.numParts == i
    {
      counter.OnToken();
    }
    n := counter.numParts;
  }

  /** For every string that compiles no more parts are counted than are emitted, and as many
      exactly if no type but that of a field at the very end is an opening brace. */
  lemma CountIsPartsEmitted(s: string)
    requires CompileFormat(s).Some?
    ensures Sound(ReadBySpecs) && AllEvents(s, ReadBySpecs).Some?
    ensures |CountedEvents(s)| <= |CompileFormat(s).value|
    ensures |CountedEvents(s)| == |CompileFormat(s).value|
       <==> !BadBeforeLast(AllEvents(s, ReadBySpecs).value, 0, BraceType)
  {
    ReaderIsSound();
    CounterIsSound();
    FieldsAreAlike();
    var onError := Policy(s, false);
    TokensAgree(s, AllEvents(s, ReadBySpecs).value, Env([], map[], (_, _) => None));
    EventsTally(s, 0, [], ReadBySpecs, Throw);
    EventsTally(s, 0, [], ReadByBraces, onError);
    AtMost(s, 0, ReadBySpecs, ReadByBraces, BraceType, onError);
    CountsAll(s, 0, ReadBySpecs, ReadByBraces, BraceType, onError);
    MisreadTokens(s, 0, [], ReadBySpecs, BraceType);
  }

  lemma FieldsAreAlike()
    ensures Alike(ReadBySpecs, ReadByBraces, BraceType)
  {
    ReaderIsSound();
    CounterIsSound();
    forall s: string, p: nat, depth: nat | Place(s, p, depth) && ReadBySpecs(s, p).Read?
      ensures SeenAs(s, p, depth, ReadBySpecs(s, p), ReadByBraces(s, p), BraceType(ReadBySpecs(s, p).value))
    {
      FieldScan(s, p, depth);
    }
  }

  // ---------- a string that is miscounted ----------

  const MISCOUNTED := "{:{}{}{}"

  function WidthAndBrace(): RawSpecs {
    RawSpecs("", NoAlign, NoSign, false, false, Dynamic(Auto), Absent, Some('{'))
  }

  /** After a dynamic width, an opening brace is read as the type. */
  lemma BraceTypeIsRead(s: string)
    requires s == "{}{}{}"
    ensures SpecsAt(s) == Read(WidthAndBrace(), 3)
  {
    var none := RawSpecs("", NoAlign, NoSign, false, false, Absent, Absent, None);
    assert s[0..] == s && s[1..] == "}{}{}";
    assert AlignAt(s) == Read(("", NoAlign), 0);
    assert FlagsOf(s, 0) == (NoSign, false, false, 0);
    assert WidthAt(s) == Read(Dynamic(Auto), 2);
    assert WidthThenRest(s, 0, none) == Read(WidthAndBrace(), 3);
    assert FlagsAt(s, 0, none) == WidthThenRest(s, 0, none);
  }

  lemma MiscountedFields(s: string)
    requires s == MISCOUNTED
    ensures ReadBySpecs(s, 0) == Read(Field(WithSpecs(Auto, WidthAndBrace())), 6)
    ensures ReadBySpecs(s, 6) == Read(Field(Default(Auto)), 2)
  {
    assert s[0..] == s && s[2..] == "{}{}{}";
    BraceTypeIsRead(s[2..]);
    FieldWithWidthAndBrace(s, 0, s);
    EmptyField(s, 6);
  }

  lemma EmptyField(s: string, p: nat)
    requires p + 1 < |s| && s[p] == '{' && s[p + 1] == '}'
    ensures ReadBySpecs(s, p) == Read(Field(Default(Auto)), 2)
  {
    assert s[p..][0] == '{' && s[p..][1] == '}';
  }

  lemma FieldWithWidthAndBrace(s: string, p: nat, t: string)
    requires p < |s| && t == s[p..] && |t| >= 6 && t[0] == '{' && t[1] == ':' && t[5] == '}'
    requires SpecsAt(t[2..]) == Read(WidthAndBrace(), 3)
    ensures ReadBySpecs(s, p) == Read(Field(WithSpecs(Auto, WidthAndBrace())), 6)
  {
    WidthAndBraceField(t, t[1..], t[2..]);
  }

  lemma WidthAndBraceField(t: string, u: string, v: string)
    requires |t| >= 6 && t[0] == '{' && t[1] == ':' && t[5] == '}' && u == t[1..] && v == t[2..]
    requires SpecsAt(v) == Read(WidthAndBrace(), 3)
    ensures FieldAt(t) == Read(Some(WithSpecs(Auto, WidthAndBrace())), 6)
  {
    var id, specs := Read(Auto, 0), Read(WidthAndBrace(), 3);
    AutomaticId(u);
    SpecsAfterColon(t, v, specs);
    FieldWithSpecs(t, id, specs);
    FieldHere(t, id, specs);
  }

  lemma SpecsAfterColon(t: string, v: string, specs: Read<RawSpecs>)
    requires |t| >= 2 && t[1] == ':' && v == t[2..] && SpecsAt(v) == specs
    ensures SpecsAfter(t, Read(Auto, 0)) == specs
  {
  }

  lemma FieldHere(t: string, id: Read<ArgId>, specs: Read<RawSpecs>)
    requires |t| >= 2 && t[0] == '{' && t[1] == ':' && ArgIdAt(t[1..]) == id && SpecsAfter(t, id) == specs
    ensures FieldAt(t) == FieldWith(t, id, specs)
  {
  }

  lemma AutomaticId(s: string)
    requires |s| > 0 && s[0] == ':'
    ensures ArgIdAt(s) == Read(Auto, 0)
  {
  }

  lemma FieldWithSpecs(t: string, id: Read<ArgId>, specs: Read<RawSpecs>)
    requires |t| >= 6 && t[0] == '{' && t[1] == ':' && t[5] == '}'
    requires id == Read(Auto, 0) && specs == Read(WidthAndBrace(), 3)
    ensures FieldWith(t, id, specs) == Read(Some(WithSpecs(Auto, WidthAndBrace())), 6)
  {
  }

  lemma TwoFields<F>(s: string, field: Reader<F>, onError: OnError, a: Token<F>, m: nat, b: Token<F>)
    requires Sound(field) && 2 <= m < |s| && s[0] == '{' && s[m] == '{'
    requires field(s, 0) == Read(a, m) && field(s, m) == Read(b, |s| - m)
    ensures Events(s, 0, [], field, onError) == Some([a, b])
  {
    NextBraceIs(s, 0, 0);
    FieldStep(s, field, onError, [], 0, 0, field(s, 0));
    assert [] + (TextEvent<F>(0, 0) + [a]) == [a];
    NextBraceIs(s, m, m);
    FieldStep(s, field, onError, [a], m, m, field(s, m));
    assert [a] + (TextEvent<F>(m, m) + [b]) == [a, b];
    LastStep(s, field, onError, [a, b], |s|);
    assert [a, b] + TextEvent<F>(|s|, |s|) == [a, b];
  }

  lemma MiscountedParts()
    ensures CompileFormat(MISCOUNTED).Some? && |CompileFormat(MISCOUNTED).value| == 2
  {
    MiscountedTokens(MISCOUNTED);
  }

  lemma MiscountedTokens(s: string)
    requires s == MISCOUNTED
    ensures CompileFormat(s).Some? && |CompileFormat(s).value| == 2
  {
    var first, second := Field(WithSpecs(Auto, WidthAndBrace())), Field(Default(Auto));
    ReaderIsSound();
    MiscountedFields(s);
    TwoFields(s, ReadBySpecs, Throw, first, 6, second);
    MiscountedCompiles(s, first, second);
  }

  lemma MiscountedCompiles(s: string, first: Token<Placeholder>, second: Token<Placeholder>)
    requires first == Field(WithSpecs(Auto, WidthAndBrace())) && second == Field(Default(Auto))
    ensures CompileAll(s, [first, second]).Some? && |CompileAll(s, [first, second]).value.parts| == 2
  {
    assert [first, second][..1] == [first] && [first][..0] == [];
    assert CompileAll(s, []) == Some(Compiled([], 0));
    assert CompileAll(s, [first]).Some? && CompileAll(s, [first]).value.next == 2;
  }

  lemma MiscountedByBraces()
    ensures ReadByBraces(MISCOUNTED, 0) == Read(Field(()), 8)
  {
    var s := MISCOUNTED;
    assert MatchingBrace(s, 8, 0) == 8 && MatchingBrace(s, 6, 0) == 8 && MatchingBrace(s, 4, 0) == 8;
    assert MatchingBrace(s, 2, 0) == 8;
  }

  /** Two parts are emitted for it, and one is counted. */
  lemma MiscountedString()
    ensures CompileFormat(MISCOUNTED).Some? && |CompileFormat(MISCOUNTED).value| == 2
    ensures |CountedEvents(MISCOUNTED)| == 1
  {
    MiscountedParts();
    CounterIsSound();
    MiscountedByBraces();
    OneFieldOnly(MISCOUNTED, ReadByBraces, Policy(MISCOUNTED, false), Field(()));
  }
}
