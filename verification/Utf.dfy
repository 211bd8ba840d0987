/**
 The branchless UTF-8 decoder and the UTF-8 to UTF-16 transcoder built on it, against the
 definitions of RFC 3629 and RFC 2781.
 */
module Utf {
  import opened Wrappers

  type Rune = bv32
  type Unit = bv16

  /** A Unicode scalar value: in range and not a surrogate. */
  type ScalarValue = c: Rune | c < 0xD800 || 0xDFFF < c <= 0x10FFFF

  predicate Scalar(c: Rune) {
    c < 0xD800 || 0xDFFF < c <= 0x10FFFF
  }

  // ---------- RFC 3629 and RFC 2781 ----------

  /** Section 3 of RFC 3629. */
  function Encode8(c: Rune): seq<Byte>
    requires Scalar(c)
  {
    if c < 0x80 then [c as Byte]
    else if c < 0x800 then [(0xC0 | (c >> 6)) as Byte, Tail(c)]
    else if c < 0x10000 then [(0xE0 | (c >> 12)) as Byte, Tail(c >> 6), Tail(c)]
    else [(0xF0 | (c >> 18)) as Byte, Tail(c >> 12), Tail(c >> 6), Tail(c)]
  }

  function Tail(c: Rune): Byte {
    (0x80 | (c & 0x3F)) as Byte
  }

  /** Section 4 of RFC 3629: the length of the character that four bytes start with, or zero
      if they start with none. */
  function CharLength(s0: Byte, s1: Byte, s2: Byte, s3: Byte): nat {
    if s0 <= 0x7F then 1
    else if 0xC2 <= s0 <= 0xDF && IsTail(s1) then 2
    else if && ((s0 == 0xE0 && 0xA0 <= s1 <= 0xBF) || (0xE1 <= s0 <= 0xEC && IsTail(s1))
                || (s0 == 0xED && 0x80 <= s1 <= 0x9F) || (0xEE <= s0 <= 0xEF && IsTail(s1)))
            && IsTail(s2) then 3
    else if && ((s0 == 0xF0 && 0x90 <= s1 <= 0xBF) || (0xF1 <= s0 <= 0xF3 && IsTail(s1))
                || (s0 == 0xF4 && 0x80 <= s1 <= 0x8F))
            && IsTail(s2) && IsTail(s3) then 4
    else 0
  }

  predicate IsTail(b: Byte) {
    0x80 <= b <= 0xBF
  }

  /** Section 2.1 of RFC 2781. */
  function Encode16(c: Rune): seq<Unit>
    requires Scalar(c)
  {
    if c < 0x10000 then [c as Unit]
    else
      var u := c - 0x10000;
      [(0xD800 | (u >> 10)) as Unit, (0xDC00 | (u & 0x3FF)) as Unit]
  }

  // ---------- the decoder ----------

  datatype Decoded = Decoded(advance: nat, c: Rune, e: bv32)

  function Lengths(i: Byte): nat {
    if i < 16 then 1 else if i < 24 then 0 else if i < 28 then 2 else if i < 30 then 3
    else if i < 31 then 4 else 0
  }

  function Masks(len: nat): Byte {
    match len
    case 0 => 0x00
    case 1 => 0x7F
    case 2 => 0x1F
    case 3 => 0x0F
    case _ => 0x07
  }

  function Mins(len: nat): bv32 {
    match len
    case 0 => 4194304
    case 1 => 0
    case 2 => 128
    case 3 => 2048
    case _ => 65536
  }

  function ShiftC(len: nat, c: bv32): bv32 {
    match len
    case 1 => c >> 18
    case 2 => c >> 12
    case 3 => c >> 6
    case _ => c
  }

  function ShiftE(len: nat, e: bv32): bv32 {
    match len
    case 1 => e >> 6
    case 2 => e >> 4
    case 3 => e >> 2
    case _ => e
  }

  function Bit(b: bool): bv32 {
    if b then 1 else 0
  }

  function Utf8Decode(s0: Byte, s1: Byte, s2: Byte, s3: Byte): Decoded {
    var len := Lengths(s0 >> 3);
    var c := ShiftC(len, (((s0 & Masks(len)) as bv32) << 18) | (((s1 & 0x3F) as bv32) << 12)
                         | (((s2 & 0x3F) as bv32) << 6) | ((s3 & 0x3F) as bv32));
    var e := (Bit(c < Mins(len)) << 6) | (Bit((c >> 11) == 0x1B) << 7) | (Bit(c > 0x10FFFF) << 8)
             | (((s1 & 0xC0) as bv32) >> 2) | (((s2 & 0xC0) as bv32) >> 4) | ((s3 as bv32) >> 6);
    Decoded(len + (if len == 0 then 1 else 0), c, ShiftE(len, e ^ 0x2A))
  }

  ghost predicate Meets(s0: Byte, s1: Byte, s2: Byte, s3: Byte) {
    var d, n := Utf8Decode(s0, s1, s2, s3), CharLength(s0, s1, s2, s3);
    && (d.e == 0 <==> n > 0)
    && (d.e == 0 ==> d.advance == n && Scalar(d.c) && Encode8(d.c) == [s0, s1, s2, s3][..n])
  }

  lemma Lead(s0: Byte)
    ensures s0 <= 0x7F <==> Lengths(s0 >> 3) == 1
    ensures 0xC0 <= s0 <= 0xDF <==> Lengths(s0 >> 3) == 2
    ensures 0xE0 <= s0 <= 0xEF <==> Lengths(s0 >> 3) == 3
    ensures 0xF0 <= s0 <= 0xF7 <==> Lengths(s0 >> 3) == 4
    ensures 0x80 <= s0 <= 0xBF || 0xF8 <= s0 <==> Lengths(s0 >> 3) == 0
  {
  }

  lemma MeetsOne(s0: Byte, s1: Byte, s2: Byte, s3: Byte)
    requires s0 <= 0x7F
    ensures Meets(s0, s1, s2, s3)
  {
    Lead(s0);
  }

  lemma MeetsTwo(s0: Byte, s1: Byte, s2: Byte, s3: Byte)
    requires 0xC0 <= s0 <= 0xDF
    ensures Meets(s0, s1, s2, s3)
  {
    Lead(s0);
  }

  lemma MeetsThree(s0: Byte, s1: Byte, s2: Byte, s3: Byte)
    requires 0xE0 <= s0 <= 0xEF
    ensures Meets(s0, s1, s2, s3)
  {
    Lead(s0);
  }

  /** The 21 bits of a four-byte character. */
  function Four(s0: Byte, s1: Byte, s2: Byte, s3: Byte): bv32 {
    (((s0 & 0x07) as bv32) << 18) | (((s1 & 0x3F) as bv32) << 12)
    | (((s2 & 0x3F) as bv32) << 6) | ((s3 & 0x3F) as bv32)
  }

  lemma FourError(s0: Byte, s1: Byte, s2: Byte, s3: Byte)
    requires 0xF0 <= s0 <= 0xF7
    ensures Utf8Decode(s0, s1, s2, s3).advance == 4
    ensures Utf8Decode(s0, s1, s2, s3).c == Four(s0, s1, s2, s3)
    ensures Utf8Decode(s0, s1, s2, s3).e == 0
       <==> IsTail(s1) && IsTail(s2) && IsTail(s3) && 0x10000 <= Four(s0, s1, s2, s3) <= 0x10FFFF
  {
    Lead(s0);
    FourBits((s1 & 0xC0) as bv32, (s2 & 0xC0) as bv32, s3 as bv32, Four(s0, s1, s2, s3));
    TopBits(s1);
    TopBits(s2);
    TopBits(s3);
  }

  lemma FourBits(t1: bv32, t2: bv32, s3: bv32, c: bv32)
    requires t1 <= 0xC0 && t1 & 0x3F == 0 && t2 <= 0xC0 && t2 & 0x3F == 0 && s3 <= 0xFF && c < 0x200000
    ensures ((Bit(c < 65536) << 6) | (Bit((c >> 11) == 0x1B) << 7) | (Bit(c > 0x10FFFF) << 8)
             | (t1 >> 2) | (t2 >> 4) | (s3 >> 6)) ^ 0x2A == 0
       <==> t1 == 0x80 && t2 == 0x80 && s3 & 0xC0 == 0x80 && 0x10000 <= c <= 0x10FFFF
  {
  }

  lemma TopBits(s: Byte)
    ensures IsTail(s) <==> (s & 0xC0) as bv32 == 0x80
    ensures IsTail(s) <==> (s as bv32) & 0xC0 == 0x80
  {
  }

  lemma FourFields(s0: Byte, s1: Byte, s2: Byte, s3: Byte)
    ensures Four(s0, s1, s2, s3) >> 18 == (s0 & 0x07) as bv32
    ensures (Four(s0, s1, s2, s3) >> 12) & 0x3F == (s1 & 0x3F) as bv32
    ensures (Four(s0, s1, s2, s3) >> 6) & 0x3F == (s2 & 0x3F) as bv32
    ensures Four(s0, s1, s2, s3) & 0x3F == (s3 & 0x3F) as bv32
  {
  }

  lemma HighBits(c: bv32)
    requires c < 0x200000
    ensures c >> 16 == ((c >> 18) << 2) | (((c >> 12) & 0x3F) >> 4)
    ensures 0x10000 <= c <= 0x10FFFF <==> 1 <= c >> 16 <= 0x10
  {
  }

  lemma FourRange(s0: Byte, s1: Byte, s2: Byte, s3: Byte)
    requires 0xF0 <= s0 <= 0xF7 && IsTail(s1)
    ensures 0x10000 <= Four(s0, s1, s2, s3) <= 0x10FFFF
       <==> (s0 == 0xF0 && 0x90 <= s1) || 0xF1 <= s0 <= 0xF3 || (s0 == 0xF4 && s1 <= 0x8F)
  {
    FourFields(s0, s1, s2, s3);
    HighBits(Four(s0, s1, s2, s3));
    TwoBytes(s0, s1);
  }

  lemma TwoBytes(s0: Byte, s1: Byte)
    requires 0xF0 <= s0 <= 0xF7 && IsTail(s1)
    ensures 1 <= (((s0 & 0x07) as bv32) << 2) | (((s1 & 0x3F) as bv32) >> 4) <= 0x10
       <==> (s0 == 0xF0 && 0x90 <= s1) || 0xF1 <= s0 <= 0xF3 || (s0 == 0xF4 && s1 <= 0x8F)
  {
  }

  lemma LeadByte(s: Byte, c: Rune)
    requires 0xF0 <= s <= 0xF7 && c >> 18 == (s & 0x07) as bv32
    ensures 0xF0 | (c >> 18) <= 0xFF && (0xF0 | (c >> 18)) as Byte == s
  {
  }

  lemma TailByte(s: Byte, c: Rune)
    requires IsTail(s) && c & 0x3F == (s & 0x3F) as bv32
    ensures Tail(c) == s
  {
  }

  lemma FourEncodes(s0: Byte, s1: Byte, s2: Byte, s3: Byte)
    requires 0xF0 <= s0 <= 0xF7 && IsTail(s1) && IsTail(s2) && IsTail(s3)
    requires 0x10000 <= Four(s0, s1, s2, s3) <= 0x10FFFF
    ensures Encode8(Four(s0, s1, s2, s3)) == [s0, s1, s2, s3]
  {
    FourFields(s0, s1, s2, s3);
    EncodeFields(Four(s0, s1, s2, s3), s0, s1, s2, s3);
  }

  lemma EncodeFields(c: Rune, s0: Byte, s1: Byte, s2: Byte, s3: Byte)
    requires 0xF0 <= s0 <= 0xF7 && IsTail(s1) && IsTail(s2) && IsTail(s3)
    requires 0x10000 <= c <= 0x10FFFF && c >> 18 == (s0 & 0x07) as bv32
    requires (c >> 12) & 0x3F == (s1 & 0x3F) as bv32 && (c >> 6) & 0x3F == (s2 & 0x3F) as bv32
    requires c & 0x3F == (s3 & 0x3F) as bv32
    ensures Encode8(c) == [s0, s1, s2, s3]
  {
    LeadByte(s0, c);
    TailByte(s1, c >> 12);
    TailByte(s2, c >> 6);
    TailByte(s3, c);
    FourBytes(c, s0, s1, s2, s3);
  }

  lemma FourBytes(c: Rune, s0: Byte, s1: Byte, s2: Byte, s3: Byte)
    requires 0x10000 <= c <= 0x10FFFF
    requires 0xF0 | (c >> 18) <= 0xFF && (0xF0 | (c >> 18)) as Byte == s0
    requires Tail(c >> 12) == s1 && Tail(c >> 6) == s2 && Tail(c) == s3
    ensures Encode8(c) == [s0, s1, s2, s3]
  {
  }

  lemma MeetsFour(s0: Byte, s1: Byte, s2: Byte, s3: Byte)
    requires 0xF0 <= s0 <= 0xF7
    ensures Meets(s0, s1, s2, s3)
  {
    FourError(s0, s1, s2, s3);
    if IsTail(s1) {
      FourRange(s0, s1, s2, s3);
      if Utf8Decode(s0, s1, s2, s3).e == 0 {
        FourEncodes(s0, s1, s2, s3);
      }
    }
  }

  lemma MeetsNone(s0: Byte, s1: Byte, s2: Byte, s3: Byte)
    requires 0x80 <= s0 <= 0xBF || 0xF8 <= s0
    ensures Meets(s0, s1, s2, s3)
  {
    Lead(s0);
  }

  /** The error word is zero exactly for the characters of section 4, and then the code point
      is the one that section 3 encodes so. */
  lemma DecodeMeetsGrammar(s0: Byte, s1: Byte, s2: Byte, s3: Byte)
    ensures Meets(s0, s1, s2, s3)
  {
    if s0 <= 0x7F {
      MeetsOne(s0, s1, s2, s3);
    } else if 0xC0 <= s0 <= 0xDF {
      MeetsTwo(s0, s1, s2, s3);
    } else if 0xE0 <= s0 <= 0xEF {
      MeetsThree(s0, s1, s2, s3);
    } else if 0xF0 <= s0 <= 0xF7 {
      MeetsFour(s0, s1, s2, s3);
    } else {
      MeetsNone(s0, s1, s2, s3);
    }
  }

  lemma TailSame(a: Rune, b: Rune)
    requires Tail(a) == Tail(b)
    ensures a & 0x3F == b & 0x3F
  {
  }

  lemma SameTwo(a: Rune, b: Rune)
    requires a < 0x800 && b < 0x800 && Tail(a) == Tail(b)
    requires (0xC0 | (a >> 6)) as Byte == (0xC0 | (b >> 6)) as Byte
    ensures a == b
  {
  }

  lemma SameThree(a: Rune, b: Rune)
    requires a < 0x10000 && b < 0x10000 && Tail(a) == Tail(b) && Tail(a >> 6) == Tail(b >> 6)
    requires (0xE0 | (a >> 12)) as Byte == (0xE0 | (b >> 12)) as Byte
    ensures a == b
  {
  }

  lemma SameFour(a: Rune, b: Rune)
    requires a <= 0x10FFFF && b <= 0x10FFFF && Tail(a) == Tail(b) && Tail(a >> 6) == Tail(b >> 6)
    requires Tail(a >> 12) == Tail(b >> 12)
    requires (0xF0 | (a >> 18)) as Byte == (0xF0 | (b >> 18)) as Byte
    ensures a == b
  {
    TailSame(a, b);
    TailSame(a >> 6, b >> 6);
    TailSame(a >> 12, b >> 12);
  }

  lemma SameBytes(a: Rune, b: Rune)
    requires Scalar(a) && Scalar(b) && Encode8(a) == Encode8(b)
    ensures a < 0x80 ==> b < 0x80 && a as Byte == b as Byte
    ensures 0x80 <= a < 0x800 ==> 0x80 <= b < 0x800 && Tail(a) == Tail(b)
                                  && (0xC0 | (a >> 6)) as Byte == (0xC0 | (b >> 6)) as Byte
    ensures 0x800 <= a < 0x10000 ==> 0x800 <= b < 0x10000 && Tail(a) == Tail(b)
                                     && Tail(a >> 6) == Tail(b >> 6)
                                     && (0xE0 | (a >> 12)) as Byte == (0xE0 | (b >> 12)) as Byte
    ensures 0x10000 <= a ==> 0x10000 <= b && Tail(a) == Tail(b)
                             && Tail(a >> 6) == Tail(b >> 6) && Tail(a >> 12) == Tail(b >> 12)
                             && (0xF0 | (a >> 18)) as Byte == (0xF0 | (b >> 18)) as Byte
  {
    var x, y := Encode8(a), Encode8(b);
    assert |x| == |y| && x[0] == y[0] && x[|x| - 1] == y[|y| - 1];
    if |x| >= 3 {
      assert x[1] == y[1];
      assert x[|x| - 2] == y[|y| - 2];
    }
  }

  lemma EncodeIsInjective(a: Rune, b: Rune)
    requires Scalar(a) && Scalar(b) && Encode8(a) == Encode8(b)
    ensures a == b
  {
    SameBytes(a, b);
    if a < 0x80 {
    } else if a < 0x800 {
      SameTwo(a, b);
    } else if a < 0x10000 {
      SameThree(a, b);
    } else {
      SameFour(a, b);
    }
  }

  lemma IsATail(c: Rune)
    ensures IsTail(Tail(c))
  {
  }

  lemma GrammarTwo(c: Rune)
    requires 0x80 <= c < 0x800
    ensures 0xC2 <= (0xC0 | (c >> 6)) as Byte <= 0xDF && IsTail(Tail(c))
  {
  }

  lemma GrammarThree(c: Rune)
    requires 0x800 <= c < 0x10000 && Scalar(c)
    ensures var s0, s1 := (0xE0 | (c >> 12)) as Byte, Tail(c >> 6);
            || (s0 == 0xE0 && 0xA0 <= s1 <= 0xBF) || (0xE1 <= s0 <= 0xEC && IsTail(s1))
            || (s0 == 0xED && 0x80 <= s1 <= 0x9F) || (0xEE <= s0 <= 0xEF && IsTail(s1))
  {
  }

  lemma GrammarFour(c: Rune)
    requires 0x10000 <= c <= 0x10FFFF
    ensures var s0, s1 := (0xF0 | (c >> 18)) as Byte, Tail(c >> 12);
            || (s0 == 0xF0 && 0x90 <= s1 <= 0xBF) || (0xF1 <= s0 <= 0xF3 && IsTail(s1))
            || (s0 == 0xF4 && 0x80 <= s1 <= 0x8F)
  {
  }

  /** What section 3 produces is a character of section 4. */
  lemma EncodeMeetsGrammar(c: Rune, s0: Byte, s1: Byte, s2: Byte, s3: Byte)
    requires Scalar(c) && Encode8(c) <= [s0, s1, s2, s3]
    ensures CharLength(s0, s1, s2, s3) == |Encode8(c)|
  {
    assert Encode8(c)[0] == s0;
    IsATail(c);
    IsATail(c >> 6);
    if c < 0x80 {
      assert c as Byte <= 0x7F;
    } else if c < 0x800 {
      GrammarTwo(c);
      assert Encode8(c)[1] == s1;
    } else if c < 0x10000 {
      GrammarThree(c);
      assert Encode8(c)[1] == s1 && Encode8(c)[2] == s2;
    } else {
      GrammarFour(c);
      assert Encode8(c)[1] == s1 && Encode8(c)[2] == s2 && Encode8(c)[3] == s3;
    }
  }

  lemma DecodeUndoesEncode(c: Rune, s0: Byte, s1: Byte, s2: Byte, s3: Byte)
    requires Scalar(c) && Encode8(c) <= [s0, s1, s2, s3]
    ensures Utf8Decode(s0, s1, s2, s3) == Decoded(|Encode8(c)|, c, 0)
  {
    EncodeMeetsGrammar(c, s0, s1, s2, s3);
    DecodeMeetsGrammar(s0, s1, s2, s3);
    EncodeIsInjective(c, Utf8Decode(s0, s1, s2, s3).c);
  }

  // ---------- whole strings ----------

  ghost function Concat<C, B>(text: seq<C>, enc: C -> seq<B>): seq<B> {
    if |text| == 0 then [] else enc(text[0]) + Concat(text[1..], enc)
  }

  ghost function Char8(c: ScalarValue): seq<Byte> {
    Encode8(c)
  }

  ghost function Char16(c: ScalarValue): seq<Unit> {
    Encode16(c)
  }

  ghost function Utf8(text: seq<ScalarValue>): seq<Byte> {
    Concat(text, Char8)
  }

  ghost function Utf16(text: seq<ScalarValue>): seq<Unit> {
    Concat(text, Char16)
  }

  lemma {:induction false} Append<C, B>(text: seq<C>, c: C, enc: C -> seq<B>)
    ensures Concat(text + [c], enc) == Concat(text, enc) + enc(c)
  {
    if |text| == 0 {
      assert (text + [c])[1..] == [];
    } else {
      assert (text + [c])[1..] == text[1..] + [c];
      Append(text[1..], c, enc);
    }
  }

  /** Characters are nonempty, and a string starts with at most one of them. */
  ghost predicate PrefixFree<C(!new), B(!new)>(enc: C -> seq<B>) {
    && (forall a :: |enc(a)| > 0)
    && (forall a, b, s :: Starts(s, enc(a)) && Starts(s, enc(b)) ==> a == b)
  }

  predicate Starts<B(==)>(s: seq<B>, t: seq<B>) {
    t <= s
  }

  /** Then a string has at most one reading. */
  lemma {:induction false} OneReading<C(!new), B(!new)>(text: seq<C>, rest: seq<B>, other: seq<C>,
                                                     enc: C -> seq<B>)
    requires PrefixFree(enc) && Concat(text, enc) + rest == Concat(other, enc)
    ensures |text| <= |other| && text == other[..|text|] && rest == Concat(other[|text|..], enc)
  {
    if |text| > 0 {
      var s, n := Concat(other, enc), |enc(text[0])|;
      assert s == enc(text[0]) + (Concat(text[1..], enc) + rest);
      assert |s| > 0 && |other| > 0;
      assert Starts(s, enc(text[0])) && Starts(s, enc(other[0]));
      assert Concat(text[1..], enc) + rest == s[n..] == Concat(other[1..], enc);
      OneReading(text[1..], rest, other[1..], enc);
      assert other[1..][|text| - 1..] == other[|text|..];
    }
  }

  /** No character starts here. */
  ghost predicate Malformed<C(!new), B>(s: seq<B>, enc: C -> seq<B>) {
    forall c :: !Starts(s, enc(c))
  }

  lemma GoesOn<C(!new), B(!new)>(s: seq<B>, p: nat, text: seq<C>, other: seq<C>, enc: C -> seq<B>)
    requires PrefixFree(enc) && p < |s| && s[..p] == Concat(text, enc) && s == Concat(other, enc)
    ensures |text| < |other| && Starts(s[p..], enc(other[|text|]))
  {
    assert Concat(text, enc) + s[p..] == s;
    OneReading(text, s[p..], other, enc);
    assert other[|text|..][0] == other[|text|];
  }

  /** An error after a correct beginning means that the whole string has no reading. */
  lemma ErrorIsFinal<C(!new), B(!new)>(s: seq<B>, p: nat, text: seq<C>, enc: C -> seq<B>)
    requires PrefixFree(enc) && p < |s| && s[..p] == Concat(text, enc) && Malformed(s[p..], enc)
    ensures forall other :: s != Concat(other, enc)
  {
    forall other
      ensures s != Concat(other, enc)
    {
      if s == Concat(other, enc) {
        GoesOn(s, p, text, other, enc);
      }
    }
  }

  lemma NextCharacter<C, B>(s: seq<B>, p: nat, text: seq<C>, c: C, n: nat, enc: C -> seq<B>)
    requires p + n <= |s| && s[..p] == Concat(text, enc) && s[p..][..n] == enc(c)
    ensures s[..p + n] == Concat(text + [c], enc)
  {
    Append(text, c, enc);
    assert s[..p + n] == s[..p] + s[p..][..n];
  }

  /** The byte at position i of a string followed by zeros. */
  function At(s: seq<Byte>, i: nat): Byte {
    if i < |s| then s[i] else 0
  }

  function DecodeAt(s: seq<Byte>): Decoded {
    Utf8Decode(At(s, 0), At(s, 1), At(s, 2), At(s, 3))
  }

  lemma LengthFits(s: seq<Byte>)
    requires |s| > 0
    ensures CharLength(At(s, 0), At(s, 1), At(s, 2), At(s, 3)) <= |s|
  {
  }

  lemma FirstBytes(s: seq<Byte>, n: nat)
    requires n <= 4 && n <= |s|
    ensures s[..n] == [At(s, 0), At(s, 1), At(s, 2), At(s, 3)][..n]
  {
  }

  /** A character never reaches into the zeros after the string. */
  lemma DecodedCharacter(s: seq<Byte>, d: Decoded)
    requires |s| > 0 && d == DecodeAt(s) && d.e == 0
    ensures Scalar(d.c) && 1 <= d.advance <= |s| && s[..d.advance] == Encode8(d.c)
  {
    DecodeMeetsGrammar(At(s, 0), At(s, 1), At(s, 2), At(s, 3));
    LengthFits(s);
    FirstBytes(s, d.advance);
  }

  lemma EncodedCharacter(c: ScalarValue, s: seq<Byte>)
    requires Encode8(c) <= s
    ensures DecodeAt(s) == Decoded(|Encode8(c)|, c, 0)
  {
    DecodeUndoesEncode(c, At(s, 0), At(s, 1), At(s, 2), At(s, 3));
  }

  lemma Utf8IsPrefixFree()
    ensures PrefixFree(Char8)
  {
    forall a: ScalarValue
      ensures |Char8(a)| > 0
    {
    }
    forall a: ScalarValue, b: ScalarValue, s | Starts(s, Char8(a)) && Starts(s, Char8(b))
      ensures a == b
    {
      EncodedCharacter(a, s);
      EncodedCharacter(b, s);
    }
  }

  /** No string is the encoding of two texts. */
  lemma Utf8IsInjective(a: seq<ScalarValue>, b: seq<ScalarValue>)
    requires Utf8(a) == Utf8(b)
    ensures a == b
  {
    Utf8IsPrefixFree();
    assert Utf8(a) + [] == Utf8(b) && Utf8(b) + [] == Utf8(a);
    OneReading(a, [], b, Char8);
    OneReading(b, [], a, Char8);
  }

  lemma ErrorMeansMalformed(s: seq<Byte>)
    requires DecodeAt(s).e != 0
    ensures Malformed(s, Char8)
  {
    forall c: ScalarValue
      ensures !Starts(s, Char8(c))
    {
      if Starts(s, Char8(c)) {
        EncodedCharacter(c, s);
      }
    }
  }

  // ---------- the transcoder ----------

  lemma SurrogatePair(u: bv32)
    requires u <= 0xFFFFF
    ensures 0xD800 + (u >> 10) <= 0xDBFF && 0xDC00 + (u & 0x3FF) <= 0xDFFF
    ensures 0xD800 + (u >> 10) == 0xD800 | (u >> 10)
    ensures 0xDC00 + (u & 0x3FF) == 0xDC00 | (u & 0x3FF)
  {
  }

  lemma Offset(c: Rune)
    requires 0x10000 <= c <= 0x10FFFF
    ensures c - 0x10000 <= 0xFFFFF
  {
  }

  lemma PairIsEncoding(c: Rune, high: Unit, low: Unit)
    requires 0x10000 <= c <= 0x10FFFF && c - 0x10000 <= 0xFFFFF
    requires high == (0xD800 | ((c - 0x10000) >> 10)) as Unit
    requires low == (0xDC00 | ((c - 0x10000) & 0x3FF)) as Unit
    ensures Encode16(c) == [high, low]
  {
  }

  predicate HighSurrogate(u: Unit) {
    0xD800 <= u <= 0xDBFF
  }

  predicate LowSurrogate(u: Unit) {
    0xDC00 <= u <= 0xDFFF
  }

  lemma PairAsInt(c: Rune)
    requires 0x10000 <= c <= 0x10FFFF && c - 0x10000 <= 0xFFFFF
    ensures var u := c - 0x10000;
            u as int == c as int - 0x10000 && u as int == (u >> 10) as int * 0x400 + (u & 0x3FF) as int
  {
  }

  /** The number that units denote (section 2.2 of RFC 2781): one that is no surrogate itself, and
      a pair of surrogates the offset that they split into two halves of ten bits. */
  predicate Denote(units: seq<Unit>, n: int) {
    (|units| == 1 && !HighSurrogate(units[0]) && !LowSurrogate(units[0]) && n == units[0] as int)
    || (|units| == 2 && HighSurrogate(units[0]) && LowSurrogate(units[1])
        && n == 0x10000 + (units[0] as int - 0xD800) * 0x400 + (units[1] as int - 0xDC00))
  }

  lemma UnitsDenote(c: Rune)
    requires Scalar(c)
    ensures Denote(Encode16(c), c as int)
  {
    if c < 0x10000 {
      OneUnit(c);
    } else {
      Offset(c);
      var high, low := PairOf(c);
      PairDenotes(c as int, high, low);
    }
  }

  lemma PairOf(c: Rune) returns (high: Unit, low: Unit)
    requires 0x10000 <= c <= 0x10FFFF && c - 0x10000 <= 0xFFFFF
    ensures Encode16(c) == [high, low] && HighSurrogate(high) && LowSurrogate(low)
    ensures c as int == 0x10000 + (high as int - 0xD800) * 0x400 + (low as int - 0xDC00)
  {
    SurrogatePair(c - 0x10000);
    high, low := (0xD800 | ((c - 0x10000) >> 10)) as Unit, (0xDC00 | ((c - 0x10000) & 0x3FF)) as Unit;
    PairIsEncoding(c, high, low);
    PairAsInt(c);
    TopHalf(c - 0x10000);
    LowHalf(c - 0x10000);
  }

  lemma PairDenotes(n: int, high: Unit, low: Unit)
    requires HighSurrogate(high) && LowSurrogate(low)
    requires n == 0x10000 + (high as int - 0xD800) * 0x400 + (low as int - 0xDC00)
    ensures Denote([high, low], n)
  {
  }

  lemma OneUnit(c: Rune)
    requires c < 0x10000 && Scalar(c)
    ensures (c as Unit) as int == c as int && !HighSurrogate(c as Unit) && !LowSurrogate(c as Unit)
  {
  }

  lemma TopHalf(u: bv32)
    requires u <= 0xFFFFF && 0xD800 | (u >> 10) <= 0xDBFF
    ensures var high := (0xD800 | (u >> 10)) as Unit;
            HighSurrogate(high) && high as int - 0xD800 == (u >> 10) as int
  {
  }

  lemma LowHalf(u: bv32)
    requires u <= 0xFFFFF && 0xDC00 | (u & 0x3FF) <= 0xDFFF
    ensures var low := (0xDC00 | (u & 0x3FF)) as Unit;
            LowSurrogate(low) && low as int - 0xDC00 == (u & 0x3FF) as int
  {
  }

  /** The units of a code point, by addition where the standard speaks of bit fields. */
  method Units(cp: Rune) returns (units: seq<Unit>)
    requires Scalar(cp)
    ensures units == Encode16(cp)
  {
    if cp <= 0xFFFF {
      return [cp as Unit];
    }
    var high, low := SurrogateUnits(cp);
    units := [high] + [low];
  }

  method SurrogateUnits(cp: Rune) returns (high: Unit, low: Unit)
    requires 0x10000 <= cp <= 0x10FFFF
    ensures Encode16(cp) == [high, low]
  {
    Offset(cp);
    var u := cp - 0x10000;
    SurrogatePair(u);
    high, low := (0xD800 + (u >> 10)) as Unit, (0xDC00 + (u & 0x3FF)) as Unit;
    PairIsEncoding(cp, high, low);
  }

  /** Decodes the character at p from four bytes, the first of rest and zeros after them. */
  method DecodeBlock(mem: seq<Byte>, p: nat, ghost rest: seq<Byte>) returns (d: Decoded)
    requires p + 4 <= |mem| && |rest| > 0
    requires forall k :: 0 <= k < 4 ==> mem[p + k] == At(rest, k)
    ensures d.e == 0 ==> Scalar(d.c) && 1 <= d.advance <= |rest| && rest[..d.advance] == Char8(d.c)
    ensures d.e != 0 ==> Malformed(rest, Char8)
  {
    d := Utf8Decode(mem[p], mem[p + 1], mem[p + 2], mem[p + 3]);
    assert mem[p + 0] == At(rest, 0);
    assert d == DecodeAt(rest);
    if d.e != 0 {
      ErrorMeansMalformed(rest);
    } else {
      DecodedCharacter(rest, d);
    }
  }

  method TranscodeOne(mem: seq<Byte>, p: nat, buffer: seq<Unit>, ghost rest: seq<Byte>)
    returns (ok: bool, next: nat, out: seq<Unit>, ghost c: ScalarValue)
    requires p + 4 <= |mem| && |rest| > 0
    requires forall k :: 0 <= k < 4 ==> mem[p + k] == At(rest, k)
    ensures ok ==> p < next <= p + |rest| && rest[..next - p] == Char8(c)
    ensures ok ==> out == buffer + Char16(c)
    ensures !ok ==> Malformed(rest, Char8)
  {
    var d := DecodeBlock(mem, p, rest);
    if d.e != 0 {
      return false, p, buffer, 0;
    }
    c := d.c;
    var units := Units(d.c);
    ok, next, out := true, p + d.advance, buffer + units;
  }

  lemma Accepted(s: seq<Byte>, p: nat, text: seq<ScalarValue>, c: ScalarValue, n: nat)
    requires p + n <= |s| && s[..p] == Utf8(text) && s[p..][..n] == Char8(c)
    ensures s[..p + n] == Utf8(text + [c]) && Utf16(text + [c]) == Utf16(text) + Char16(c)
  {
    NextCharacter(s, p, text, c, n, Char8);
    Append(text, c, Char16);
  }

  lemma Rejected(s: seq<Byte>, p: nat, text: seq<ScalarValue>)
    requires p < |s| && s[..p] == Utf8(text) && Malformed(s[p..], Char8)
    ensures forall other :: s != Utf8(other)
  {
    Utf8IsPrefixFree();
    ErrorIsFinal(s, p, text, Char8);
  }

  /** Accepts exactly the strings of RFC 3629 and gives their UTF-16 form with a final zero. */
  method Utf8ToUtf16(s: seq<Byte>) returns (r: Result<seq<Unit>>)
    ensures r.Ok? ==> exists text :: s == Utf8(text) && r.value == Utf16(text) + [0]
    ensures r.Error? ==> forall text :: s != Utf8(text)
  {
    var buffer: seq<Unit>, p: nat := [], 0;
    ghost var text: seq<ScalarValue> := [];
    while p + 4 <= |s|
      invariant p <= |s| && s[..p] == Utf8(text) && buffer == Utf16(text)
    {
      var ok, next, out, c := TranscodeOne(s, p, buffer, s[p..]);
      if !ok {
        Rejected(s, p, text);
        return Error;
      }
      Accepted(s, p, text, c, next - p);
      text := text + [c];
      p, buffer := next, out;
    }
    if p < |s| {
      r := TranscodeTail(s, p, buffer, text);
    } else {
      assert s[..p] == s;
      r := Ok(buffer + [0]);
    }
  }

  lemma Padded(s: seq<Byte>, start: nat, buf: seq<Byte>, p: nat, rest: seq<Byte>)
    requires start + p < |s| < start + 4 && buf == s[start..] + seq(7 - (|s| - start), _ => 0)
    requires rest == s[start + p..]
    ensures p + 4 <= |buf| && forall k :: 0 <= k < 4 ==> buf[p + k] == At(rest, k)
  {
  }

  /** One character of the tail. */
  method TailStep(s: seq<Byte>, start: nat, buf: seq<Byte>, p: nat, buffer: seq<Unit>, ghost text: seq<ScalarValue>)
    returns (ok: bool, next: nat, out: seq<Unit>, ghost longer: seq<ScalarValue>)
    requires start + p < |s| < start + 4 && buf == s[start..] + seq(7 - (|s| - start), _ => 0)
    requires s[..start + p] == Utf8(text) && buffer == Utf16(text)
    ensures ok ==> p < next <= |s| - start && s[..start + next] == Utf8(longer) && out == Utf16(longer)
    ensures !ok ==> forall other :: s != Utf8(other)
  {
    ghost var c;
    Padded(s, start, buf, p, s[start + p..]);
    ok, next, out, c := TranscodeOne(buf, p, buffer, s[start + p..]);
    longer := text + [c];
    if ok {
      Accepted(s, start + p, text, c, next - p);
    } else {
      Rejected(s, start + p, text);
    }
  }

  /** The last one to three bytes, from a copy that is padded with zeros. */
  method TranscodeTail(s: seq<Byte>, start: nat, begun: seq<Unit>, ghost read: seq<ScalarValue>)
    returns (r: Result<seq<Unit>>)
    requires start < |s| < start + 4 && s[..start] == Utf8(read) && begun == Utf16(read)
    ensures r.Ok? ==> exists text :: s == Utf8(text) && r.value == Utf16(text) + [0]
    ensures r.Error? ==> forall text :: s != Utf8(text)
  {
    var left := |s| - start;
    var buf := s[start..] + seq(7 - left, _ => 0);
    var buffer, p: nat := begun, 0;
    ghost var text: seq<ScalarValue> := read;
    while p < left
      invariant p <= left && s[..start + p] == Utf8(text) && buffer == Utf16(text)
      decreases left - p
    {
      var ok;
      ok, p, buffer, text := TailStep(s, start, buf, p, buffer, text);
      if !ok {
        return Error;
      }
    }
    assert s[..start + p] == s;
    r := Ok(buffer + [0]);
  }
}
