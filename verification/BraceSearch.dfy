/**
 The search for braces in a format string, in its two forms, for any way of reading a
 replacement field. What a handler is told is a sequence of tokens, in which text is given by
 its two ends.
 */
module BraceSearch {
  import opened Wrappers

  datatype Token<F> = Text(begin: nat, end: nat) | Field(field: F)

  datatype Read<T> = Failed | Read(value: T, length: nat)

  /** Reads what starts at an opening brace. */
  type Reader<!F> = (string, nat) -> Read<Token<F>>

  /** A field is at least a pair of braces and ends within the string. */
  ghost predicate Sound<F>(field: Reader<F>) {
    forall s, p: nat {:trigger field(s, p)} ::
      p < |s| && s[p] == '{' && field(s, p).Read? ==> 2 <= field(s, p).length <= |s| - p
  }

  /** Doubled opening braces stand for the second one. */
  ghost predicate Escapes<F>(field: Reader<F>) {
    forall s, p: nat {:trigger field(s, p)} ::
      p + 1 < |s| && s[p] == '{' && s[p + 1] == '{' ==> field(s, p) == Read(Text(p + 1, p + 2), 2)
  }

  predicate IsBrace(c: char) {
    c == '{' || c == '}'
  }

  predicate Plain(s: string) {
    NoBraces(s, 0, |s|)
  }

  predicate NoBraces(s: string, p: nat, n: nat)
    requires p <= n <= |s|
  {
    forall i :: p <= i < n ==> !IsBrace(s[i])
  }

  /** The position of the first brace from p on. */
  function NextBrace(s: string, p: nat): (n: nat)
    requires p <= |s|
    ensures p <= n <= |s| && (n < |s| ==> IsBrace(s[n]))
    decreases |s| - p
  {
    if p == |s| || IsBrace(s[p]) then p else NextBrace(s, p + 1)
  }

  lemma {:induction false} NextBraceIs(s: string, p: nat, n: nat)
    requires p <= n <= |s| && NoBraces(s, p, n) && (n < |s| ==> IsBrace(s[n]))
    ensures NextBrace(s, p) == n
    decreases n - p
  {
    if p < n {
      NextBraceIs(s, p + 1, n);
    }
  }

  lemma {:induction false} NextBraceSkips(s: string, p: nat)
    requires p <= |s|
    ensures NoBraces(s, p, NextBrace(s, p))
    decreases |s| - p
  {
    if p < |s| && !IsBrace(s[p]) {
      NextBraceSkips(s, p + 1);
    }
  }

  function TextEvent<F>(begin: nat, end: nat): seq<Token<F>> {
    if begin == end then [] else [Text(begin, end)]
  }

  /** The position of the first opening brace from p on. */
  function NextOpening(s: string, p: nat): (n: nat)
    requires p <= |s|
    ensures p <= n <= |s| && (n < |s| ==> s[n] == '{')
    decreases |s| - p
  {
    if p == |s| || s[p] == '{' then p else NextOpening(s, p + 1)
  }

  lemma {:induction false} NextOpeningIs(s: string, p: nat, n: nat)
    requires p <= n <= |s| && (n < |s| ==> s[n] == '{') && forall i :: p <= i < n ==> s[i] != '{'
    ensures NextOpening(s, p) == n
    decreases n - p
  {
    if p < n {
      NextOpeningIs(s, p + 1, n);
    }
  }

  lemma {:induction false} NextOpeningSkips(s: string, p: nat)
    requires p <= |s|
    ensures forall i :: p <= i < NextOpening(s, p) ==> s[i] != '{'
    decreases |s| - p
  {
    if p < |s| && s[p] != '{' {
      NextOpeningSkips(s, p + 1);
    }
  }

  /** What an error in the string leads to. A handler that throws ends everything. If it
      returns, an unreadable field takes up the rest of the string; after an unmatched closing
      brace the search for short strings stops, and the other one goes on at the next field. */
  datatype OnError = Throw | Stop | Skip

  /** The events of a format string: those before p, then what comes before the next brace
      as text, then what the brace means, and so on; empty texts are left out. */
  function Events<F>(s: string, p: nat, before: seq<Token<F>>, field: Reader<F>, onError: OnError)
    : Option<seq<Token<F>>>
    requires Sound(field) && p <= |s|
    decreases |s| - p
  {
    var n := NextBrace(s, p);
    if n == |s| then Some(before + TextEvent(p, n))
    else if s[n] == '{' then
      match field(s, n)
      case Failed => if onError == Throw then None else Some(before + TextEvent(p, n))
      case Read(e, length) => Events(s, n + length, before + (TextEvent(p, n) + [e]), field, onError)
    else if n + 1 < |s| && s[n + 1] == '}' then
      Events(s, n + 2, before + [Text(p, n + 1)], field, onError)
    else match onError
      case Throw => None
      case Stop => Some(before)
      case Skip =>
        if NextOpening(s, n) == |s| then Some(before)
        else Events(s, NextOpening(s, n), before, field, onError)
  }

  /** The events that a handler that throws is told. */
  function AllEvents<F>(s: string, field: Reader<F>): Option<seq<Token<F>>>
    requires Sound(field)
  {
    Events(s, 0, [], field, Throw)
  }

  /** A field comes next. */
  lemma FieldStep<F>(s: string, field: Reader<F>, onError: OnError, before: seq<Token<F>>, p: nat, n: nat,
                     read: Read<Token<F>>)
    requires Sound(field) && p <= n < |s| && n == NextBrace(s, p) && s[n] == '{' && read == field(s, n)
    ensures read.Failed? ==> Events(s, p, before, field, onError)
                             == if onError == Throw then None else Some(before + TextEvent(p, n))
    ensures read.Read? ==> n + 2 <= n + read.length <= |s|
    ensures read.Read? ==> Events(s, p, before, field, onError)
                           == Events(s, n + read.length, before + (TextEvent(p, n) + [read.value]), field, onError)
  {
  }

  /** A closing brace comes next, which must be doubled. */
  lemma BraceStep<F>(s: string, field: Reader<F>, onError: OnError, before: seq<Token<F>>, p: nat, n: nat)
    requires Sound(field) && p <= n < |s| && n == NextBrace(s, p) && s[n] == '}'
    ensures n + 1 < |s| && s[n + 1] == '}'
        ==> Events(s, p, before, field, onError) == Events(s, n + 2, before + [Text(p, n + 1)], field, onError)
    ensures !(n + 1 < |s| && s[n + 1] == '}')
        ==> Events(s, p, before, field, onError)
            == match onError
               case Throw => None
               case Stop => Some(before)
               case Skip => Resumed(s, NextOpening(s, n), before, field)
  {
  }

  /** After an unmatched closing brace, n being the next opening one or the end. */
  function Resumed<F>(s: string, n: nat, before: seq<Token<F>>, field: Reader<F>): Option<seq<Token<F>>>
    requires Sound(field) && n <= |s|
  {
    if n == |s| then Some(before) else Events(s, n, before, field, Skip)
  }

  lemma LastStep<F>(s: string, field: Reader<F>, onError: OnError, before: seq<Token<F>>, p: nat)
    requires Sound(field) && p <= |s| && NoBraces(s, p, |s|)
    ensures Events(s, p, before, field, onError) == Some(before + TextEvent(p, |s|))
  {
    NextBraceIs(s, p, |s|);
  }

  /** The string is a single field. */
  lemma OneFieldOnly<F>(s: string, field: Reader<F>, onError: OnError, a: Token<F>)
    requires Sound(field) && |s| > 0 && s[0] == '{' && field(s, 0) == Read(a, |s|)
    ensures Events(s, 0, [], field, onError) == Some([a])
  {
    NextBraceIs(s, 0, 0);
    FieldStep(s, field, onError, [], 0, 0, field(s, 0));
    assert [] + (TextEvent<F>(0, 0) + [a]) == [a];
    LastStep(s, field, onError, [a], |s|);
    assert [a] + TextEvent<F>(|s|, |s|) == [a];
  }

  // ---------- the two searches ----------

  /** What has been reported is what comes before begin. */
  ghost predicate Reported<F>(s: string, field: Reader<F>, onError: OnError, events: seq<Token<F>>, begin: nat)
    requires Sound(field) && begin <= |s|
  {
    Events(s, 0, [], field, onError) == Events(s, begin, events, field, onError)
  }

  /** Nothing more is reported. */
  ghost predicate Finished<F>(s: string, field: Reader<F>, onError: OnError, events: seq<Token<F>>)
    requires Sound(field)
  {
    Events(s, 0, [], field, onError) == if onError == Throw then None else Some(events)
  }

  /** Reports the text before a field, and the field. */
  method TakeField<F>(s: string, field: Reader<F>, ghost onError: OnError, before: seq<Token<F>>, begin: nat, p: nat)
    returns (ok: bool, events: seq<Token<F>>, next: nat)
    requires Sound(field) && begin <= p < |s| && Reported(s, field, onError, before, begin)
    requires NoBraces(s, begin, p) && s[p] == '{'
    ensures if ok then p < next <= |s| && Reported(s, field, onError, events, next)
            else Finished(s, field, onError, events)
  {
    var read := field(s, p);
    NextBraceIs(s, begin, p);
    FieldStep(s, field, onError, before, begin, p, read);
    ok, events, next := read.Read?, before + TextEvent(begin, p), p;
    if ok {
      events := before + (TextEvent(begin, p) + [read.value]);
      next := p + read.length;
    }
  }

  /** Reports the text up to a closing brace, which stands for two. */
  method TakeBrace<F>(s: string, field: Reader<F>, ghost onError: OnError, before: seq<Token<F>>, begin: nat, p: nat)
    returns (ok: bool, events: seq<Token<F>>, next: nat)
    requires Sound(field) && begin <= p < |s| && Reported(s, field, onError, before, begin)
    requires NoBraces(s, begin, p) && s[p] == '}'
    ensures ok ==> next == p + 2 <= |s| && s[p + 1] == '}' && Reported(s, field, onError, events, next)
    ensures !ok ==> events == before
    ensures !ok && onError != Skip ==> Finished(s, field, onError, events)
    ensures !ok && onError == Skip
        ==> Events(s, 0, [], field, Skip) == Resumed(s, NextOpening(s, p), events, field)
  {
    NextBraceIs(s, begin, p);
    BraceStep(s, field, onError, before, begin, p);
    if p + 1 == |s| || s[p + 1] != '}' {
      return false, before, p;
    }
    ok, events, next := true, before + [Text(begin, p + 1)], p + 2;
  }

  /** The simple loop, for short strings. */
  method OnePass<F>(s: string, field: Reader<F>, onError: OnError) returns (r: Option<seq<Token<F>>>)
    requires Sound(field) && onError != Skip
    ensures r == Events(s, 0, [], field, onError)
  {
    var events: seq<Token<F>>, begin: nat, p: nat := [], 0, 0;
    while p != |s|
      invariant begin <= p <= |s| && NoBraces(s, begin, p) && Reported(s, field, onError, events, begin)
      decreases |s| - p
    {
      var c := s[p];
      var ok := true;
      if c == '{' {
        ok, events, p := TakeField(s, field, onError, events, begin, p);
        begin := p;
      } else if c == '}' {
        ok, events, p := TakeBrace(s, field, onError, events, begin, p);
        begin := p;
      } else {
        p := p + 1;
      }
      if !ok {
        return if onError == Throw then None else Some(events);
      }
    }
    LastStep(s, field, onError, events, begin);
    r := Some(events + TextEvent(begin, |s|));
  }

  /** Looks for a character in a part of the string. */
  method Find(s: string, first: nat, last: nat, c: char) returns (found: bool, out: nat)
    requires first <= last <= |s|
    ensures first <= out <= last && (found <==> out < last) && (found ==> s[out] == c)
    ensures forall i :: first <= i < out ==> s[i] != c
  {
    out := first;
    while out != last
      invariant first <= out <= last && forall i :: first <= i < out ==> s[i] != c
    {
      if s[out] == c {
        return true, out;
      }
      out := out + 1;
    }
    found := false;
  }

  /** Reports the text from begin to end, which has no opening braces; what remains to be
      reported after the last doubled brace is returned with it. */
  method Write<F>(s: string, begin0: nat, end: nat, field: Reader<F>, onError: OnError, events0: seq<Token<F>>)
    returns (ok: bool, events: seq<Token<F>>, begin: nat)
    requires Sound(field) && onError != Stop && begin0 <= end <= |s|
    requires Reported(s, field, onError, events0, begin0)
    requires (end < |s| ==> s[end] == '{') && forall i :: begin0 <= i < end ==> s[i] != '{'
    ensures ok ==> begin <= end && NoBraces(s, begin, end) && Reported(s, field, onError, events, begin)
    ensures !ok && onError == Throw ==> Finished(s, field, onError, events)
    ensures !ok && onError == Skip ==> Events(s, 0, [], field, Skip) == Resumed(s, end, events, field)
  {
    events, begin := events0, begin0;
    while begin != end
      invariant begin0 <= begin <= end && Reported(s, field, onError, events, begin)
      decreases end - begin
    {
      var found, p := Find(s, begin, end, '}');
      if !found {
        break;
      }
      NextOpeningIs(s, p, end);
      ok, events, begin := TakeBrace(s, field, onError, events, begin, p);
      if !ok {
        return;
      }
    }
    ok := true;
  }

  /** Searches for opening braces, and for closing ones in the text between. */
  method TwoPass<F>(s: string, field: Reader<F>, onError: OnError) returns (r: Option<seq<Token<F>>>)
    requires Sound(field) && onError != Stop
    ensures r == Events(s, 0, [], field, onError)
  {
    var events: seq<Token<F>>, begin: nat := [], 0;
    while begin != |s|
      invariant begin <= |s| && Reported(s, field, onError, events, begin)
      decreases |s| - begin
    {
      var p := begin;
      if s[begin] != '{' {
        var found;
        found, p := Find(s, begin + 1, |s|, '{');
      }
      var ok, text;
      ok, events, text := Write(s, begin, p, field, onError, events);
      if !ok {
        if onError == Throw {
          return None;
        }
        if p == |s| {
          return Some(events);
        }
        text := p;
      } else if p == |s| {
        LastStep(s, field, onError, events, text);
        return Some(events + TextEvent(text, |s|));
      }
      ok, events, begin := TakeField(s, field, onError, events, text, p);
      if !ok {
        return if onError == Throw then None else Some(events);
      }
    }
    LastStep(s, field, onError, events, begin);
    r := Some(events + TextEvent(begin, |s|));
  }

  const LONG := 32

  /** Which search a string gets decides what an error leads to if the handler returns. */
  function Policy(s: string, throws: bool): OnError {
    if throws then Throw else if |s| < LONG then Stop else Skip
  }

  method ParseFormatString<F>(s: string, field: Reader<F>, throws: bool) returns (r: Option<seq<Token<F>>>)
    requires Sound(field)
    ensures r == Events(s, 0, [], field, Policy(s, throws))
  {
    if |s| < LONG {
      r := OnePass(s, field, Policy(s, throws));
    } else {
      r := TwoPass(s, field, Policy(s, throws));
    }
  }

  /** A handler that returns from errors is told at least as much, and the same if there are none. */
  lemma {:induction false} ReturningTellsAll<F>(s: string, p: nat, before: seq<Token<F>>, field: Reader<F>,
                                                onError: OnError)
    requires Sound(field) && p <= |s|
    ensures onError != Throw ==> Events(s, p, before, field, onError).Some?
    ensures Events(s, p, before, field, Throw).Some?
        ==> Events(s, p, before, field, onError) == Events(s, p, before, field, Throw)
    decreases |s| - p
  {
    var n := NextBrace(s, p);
    if n < |s| {
      if s[n] == '{' {
        var r := field(s, n);
        FieldStep(s, field, onError, before, p, n, r);
        FieldStep(s, field, Throw, before, p, n, r);
        if r.Read? {
          ReturningTellsAll(s, n + r.length, before + (TextEvent(p, n) + [r.value]), field, onError);
        }
      } else {
        BraceStep(s, field, onError, before, p, n);
        BraceStep(s, field, Throw, before, p, n);
        if n + 1 < |s| && s[n + 1] == '}' {
          ReturningTellsAll(s, n + 2, before + [Text(p, n + 1)], field, onError);
        } else if onError == Skip && NextOpening(s, n) < |s| {
          ReturningTellsAll(s, NextOpening(s, n), before, field, onError);
        }
      }
    }
  }

  // ---------- escaping ----------

  /** A text with every brace doubled. */
  function Escape(t: string): string {
    if t == "" then ""
    else if IsBrace(t[0]) then [t[0], t[0]] + Escape(t[1..])
    else [t[0]] + Escape(t[1..])
  }

  function TextAt(s: string, begin: nat, end: nat): string {
    if begin <= end <= |s| then s[begin..end] else ""
  }

  /** The text of events, if there are no fields among them. */
  function TextOf<F>(s: string, events: seq<Token<F>>): Option<string> {
    if |events| == 0 then Some("")
    else match (TextOf(s, events[..|events| - 1]), events[|events| - 1])
      case (Some(before), Text(b, e)) => Some(before + TextAt(s, b, e))
      case _ => None
  }

  lemma TextAppend<F>(s: string, events: seq<Token<F>>, before: string, b: nat, e: nat)
    requires TextOf(s, events) == Some(before) && b <= e <= |s|
    ensures TextOf(s, events + [Text(b, e)]) == Some(before + s[b..e])
    ensures TextOf(s, events + TextEvent(b, e)) == Some(before + s[b..e])
  {
    assert (events + [Text(b, e)])[..|events|] == events;
    if b == e {
      assert events + [] == events && before + s[b..e] == before;
    }
  }

  ghost predicate Spells<F>(s: string, events: Option<seq<Token<F>>>, text: string) {
    events.Some? && TextOf(s, events.value) == Some(text)
  }

  /** Doubling every brace makes a string that is all text, and that text is the original. */
  lemma EscapedTextComesBack<F>(t: string, field: Reader<F>)
    requires Sound(field) && Escapes(field)
    ensures Spells(Escape(t), AllEvents(Escape(t), field), t)
  {
    var s := Escape(t);
    assert s[0..] == s && "" + s[0..0] + t == t;
    EscapedFrom(t, s, 0, 0, [], "", field);
  }

  /** The same from p on, a text having begun at begin. */
  lemma {:induction false} EscapedFrom<F>(t: string, s: string, begin: nat, p: nat, before: seq<Token<F>>,
                                          start: string, field: Reader<F>)
    requires Sound(field) && Escapes(field) && begin <= p <= |s| && NoBraces(s, begin, p)
    requires s[p..] == Escape(t) && TextOf(s, before) == Some(start)
    ensures Spells(s, Events(s, begin, before, field, Throw), start + s[begin..p] + t)
    decreases |t|
  {
    if t == "" {
      LastText(s, begin, before, start, field);
    } else {
      EscapedFirst(t, s, p);
      Pieces(t, s, begin, p, start);
      if IsBrace(t[0]) {
        NextBraceIs(s, begin, p);
        var after := Doubled(s, begin, p, before, start, field);
        EscapedFrom(t[1..], s, p + 2, p + 2, after, start + s[begin..p] + [s[p]], field);
      } else {
        EscapedFrom(t[1..], s, begin, p + 1, before, start, field);
      }
    }
  }

  lemma EscapedFirst(t: string, s: string, p: nat)
    requires |t| > 0 && p <= |s| && s[p..] == Escape(t)
    ensures p < |s| && s[p] == t[0]
    ensures IsBrace(t[0]) ==> p + 2 <= |s| && s[p + 1] == t[0] && s[p + 2..] == Escape(t[1..])
    ensures !IsBrace(t[0]) ==> s[p + 1..] == Escape(t[1..])
  {
    assert s[p] == s[p..][0];
    if IsBrace(t[0]) {
      assert s[p + 1] == s[p..][1] && s[p + 2..] == s[p..][2..];
    } else {
      assert s[p + 1..] == s[p..][1..];
    }
  }

  lemma Pieces(t: string, s: string, begin: nat, p: nat, start: string)
    requires |t| > 0 && begin <= p < |s| && s[p] == t[0]
    ensures start + s[begin..p + 1] + t[1..] == start + s[begin..p] + t
    ensures p + 2 <= |s| ==> start + s[begin..p] + [s[p]] + s[p + 2..p + 2] + t[1..] == start + s[begin..p] + t
  {
  }

  lemma LastText<F>(s: string, begin: nat, before: seq<Token<F>>, start: string, field: Reader<F>)
    requires Sound(field) && begin <= |s| && NoBraces(s, begin, |s|) && TextOf(s, before) == Some(start)
    ensures Spells(s, Events(s, begin, before, field, Throw), start + s[begin..|s|] + "")
  {
    LastStep(s, field, Throw, before, begin);
    TextAppend(s, before, start, begin, |s|);
    assert start + s[begin..|s|] + "" == start + s[begin..|s|];
  }

  /** The text before a doubled brace and the brace are reported. */
  lemma Doubled<F>(s: string, begin: nat, p: nat, before: seq<Token<F>>, start: string, field: Reader<F>)
    returns (after: seq<Token<F>>)
    requires Sound(field) && Escapes(field) && begin <= p && p + 2 <= |s| && NextBrace(s, begin) == p
    requires IsBrace(s[p]) && s[p + 1] == s[p] && TextOf(s, before) == Some(start)
    ensures Events(s, begin, before, field, Throw) == Events(s, p + 2, after, field, Throw)
    ensures TextOf(s, after) == Some(start + s[begin..p] + [s[p]])
  {
    if s[p] == '{' {
      FieldStep(s, field, Throw, before, begin, p, Read(Text(p + 1, p + 2), 2));
      after := before + (TextEvent(begin, p) + [Text(p + 1, p + 2)]);
      OpeningText(s, begin, p, before, start);
    } else {
      BraceStep(s, field, Throw, before, begin, p);
      after := before + [Text(begin, p + 1)];
      ClosingText(s, begin, p, before, start);
    }
  }

  lemma OpeningText<F>(s: string, begin: nat, p: nat, before: seq<Token<F>>, start: string)
    requires begin <= p && p + 2 <= |s| && s[p + 1] == s[p] && TextOf(s, before) == Some(start)
    ensures TextOf(s, before + (TextEvent(begin, p) + [Text(p + 1, p + 2)])) == Some(start + s[begin..p] + [s[p]])
  {
    TextAppend(s, before, start, begin, p);
    BraceText(s, p, before, TextEvent(begin, p), start + s[begin..p]);
  }

  lemma Regrouped<T>(a: seq<T>, b: seq<T>, x: T)
    ensures a + (b + [x]) == a + b + [x]
  {
  }

  lemma BraceText<F>(s: string, p: nat, before: seq<Token<F>>, more: seq<Token<F>>, start: string)
    requires p + 2 <= |s| && s[p + 1] == s[p] && TextOf(s, before + more) == Some(start)
    ensures TextOf(s, before + (more + [Text(p + 1, p + 2)])) == Some(start + [s[p]])
  {
    TextAppend(s, before + more, start, p + 1, p + 2);
    Regrouped(before, more, Text(p + 1, p + 2));
    assert s[p + 1..p + 2] == [s[p]];
  }

  lemma ClosingText<F>(s: string, begin: nat, p: nat, before: seq<Token<F>>, start: string)
    requires begin <= p < |s| && TextOf(s, before) == Some(start)
    ensures TextOf(s, before + [Text(begin, p + 1)]) == Some(start + s[begin..p] + [s[p]])
  {
    TextAppend(s, before, start, begin, p + 1);
    assert start + s[begin..p + 1] == start + s[begin..p] + [s[p]];
  }
}
