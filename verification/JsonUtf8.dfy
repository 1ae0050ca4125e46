/**
 The UTF-8 codec of the JSON library: `codePointToUTF8` and `utf8ToCodepoint`.
 Masks and shifts are written as the divisions and remainders they are on
 unsigned operands: `0x80 | (0x3f & (cp >> 6))` is `0x80 + cp / 64 % 64`.
 */
module JsonUtf8 {
  import opened Bytes

  const REPLACEMENT: nat := 0xFFFD

  predicate IsScalar(cp: int) {
    0 <= cp <= 0x10FFFF && !(0xD800 <= cp <= 0xDFFF)
  }

  function CodePointToUtf8(cp: nat): (r: bytes)
    ensures cp <= 0x10FFFF <==> r != []
  {
    if cp <= 0x7F then [cp]
    else if cp <= 0x7FF then [0xC0 + cp / 64 % 32, 0x80 + cp % 64]
    else if cp <= 0xFFFF then [0xE0 + cp / 4096 % 16, 0x80 + cp / 64 % 64, 0x80 + cp % 64]
    else if cp <= 0x10FFFF then
      [0xF0 + cp / 262144 % 8, 0x80 + cp / 4096 % 64, 0x80 + cp / 64 % 64, 0x80 + cp % 64]
    else []
  }

  /** A code point together with the number of bytes it was read from. */
  datatype Unit = Unit(cp: nat, len: nat)

  /** `utf8ToCodepoint`: lenient about lead and continuation bytes, strict about
      overlong forms and encoded surrogates. */
  function Utf8ToCodepoint(s: bytes): (u: Unit)
    requires s != []
    ensures 1 <= u.len <= |s|
    ensures u.cp <= 0x1FFFFF && !(0xD800 <= u.cp <= 0xDFFF)
    ensures u.cp < 0x80 <==> s[0] < 0x80
    ensures s[0] < 0x80 ==> u == Unit(s[0], 1)
  {
    var first := s[0] as int;
    if first < 0x80 then Unit(first, 1)
    else if first < 0xE0 then
      if |s| < 2 then Unit(REPLACEMENT, 1)
      else
        var calculated: nat := first % 32 * 64 + s[1] as int % 64;
        Unit(if calculated < 0x80 then REPLACEMENT else calculated, 2)
    else if first < 0xF0 then
      if |s| < 3 then Unit(REPLACEMENT, 1)
      else
        var calculated: nat := first % 16 * 4096 + s[1] as int % 64 * 64 + s[2] as int % 64;
        Unit(if 0xD800 <= calculated <= 0xDFFF || calculated < 0x800 then REPLACEMENT else calculated, 3)
    else if first < 0xF8 then
      if |s| < 4 then Unit(REPLACEMENT, 1)
      else
        var calculated: nat := first % 8 * 262144 + s[1] as int % 64 * 4096 + s[2] as int % 64 * 64 + s[3] as int % 64;
        Unit(if calculated < 0x10000 then REPLACEMENT else calculated, 4)
    else Unit(REPLACEMENT, 1)
  }

  /** The code point that a surrogate pair written for `cp` stands for: the writer
      keeps only twenty bits above 0x10000. */
  function Emitted(cp: nat): (r: nat)
    requires cp <= 0x1FFFFF && !(0xD800 <= cp <= 0xDFFF)
    ensures IsScalar(r)
    ensures IsScalar(cp) ==> r == cp
  {
    if cp < 0x10000 then cp else 0x10000 + (cp - 0x10000) % 0x100000
  }

  /** The code points the escaping writer emits for a byte string. */
  function CodePoints(s: bytes): (cps: seq<nat>)
    ensures forall i | 0 <= i < |cps| :: IsScalar(cps[i])
  {
    if s == [] then []
    else
      var u := Utf8ToCodepoint(s);
      [Emitted(u.cp)] + CodePoints(s[u.len..])
  }

  function Utf8All(cps: seq<nat>): bytes {
    if cps == [] then [] else CodePointToUtf8(cps[0]) + Utf8All(cps[1..])
  }

  predicate IsTail(b: byte) {
    0x80 <= b <= 0xBF
  }

  /** Length of the UTF-8 character that `s` begins with by the syntax table in
      section 4 of RFC 3629, or 0 when there is none. */
  function Utf8CharLength(s: bytes): (n: nat)
    ensures n <= |s| && n <= 4
  {
    if |s| >= 1 && s[0] <= 0x7F then 1
    else if |s| >= 2 && 0xC2 <= s[0] <= 0xDF && IsTail(s[1]) then 2
    else if |s| >= 3 && IsTail(s[2]) &&
            (|| (s[0] == 0xE0 && 0xA0 <= s[1] <= 0xBF)
             || (0xE1 <= s[0] <= 0xEC && IsTail(s[1]))
             || (s[0] == 0xED && 0x80 <= s[1] <= 0x9F)
             || (0xEE <= s[0] <= 0xEF && IsTail(s[1]))) then 3
    else if |s| >= 4 && IsTail(s[2]) && IsTail(s[3]) &&
            (|| (s[0] == 0xF0 && 0x90 <= s[1] <= 0xBF)
             || (0xF1 <= s[0] <= 0xF3 && IsTail(s[1]))
             || (s[0] == 0xF4 && 0x80 <= s[1] <= 0x8F)) then 4
    else 0
  }

  /** Well-formed UTF-8 by RFC 3629, without reference to the codec. */
  predicate ValidUtf8(s: bytes) {
    s == [] || (Utf8CharLength(s) > 0 && ValidUtf8(s[Utf8CharLength(s)..]))
  }

  /** The six-bit digits of a code point determine it and are determined by it. */
  lemma SixBitDigits(cp: nat, a: nat, b: nat, c: nat, d: nat)
    requires a < 8 && b < 64 && c < 64 && d < 64
    requires cp == a * 262144 + b * 4096 + c * 64 + d
    ensures cp % 64 == d && cp / 64 % 64 == c && cp / 4096 % 64 == b && cp / 262144 % 8 == a
    ensures a == 0 ==> cp / 4096 % 16 == b % 16
    ensures a == 0 && b == 0 ==> cp / 64 % 32 == c % 32
  {
    assert cp / 64 == a * 4096 + b * 64 + c;
    assert cp / 4096 == a * 64 + b;
    assert cp / 262144 == a;
  }

  lemma SixBitExpansion(cp: nat) returns (a: nat, b: nat, c: nat, d: nat)
    requires cp <= 0x1FFFFF
    ensures a < 8 && b < 64 && c < 64 && d < 64
    ensures cp == a * 262144 + b * 4096 + c * 64 + d
  {
    d, c, b, a := cp % 64, cp / 64 % 64, cp / 64 / 64 % 64, cp / 64 / 64 / 64;
  }

  /** On an RFC 3629 character the lenient decoder reads exactly that character and
      the encoder writes it back. */
  lemma CharRoundTrip(s: bytes)
    requires s != [] && Utf8CharLength(s) > 0
    ensures var u := Utf8ToCodepoint(s);
            IsScalar(u.cp) && u.len == Utf8CharLength(s) && CodePointToUtf8(u.cp) == s[..u.len]
  {
    if s[0] <= 0x7F {
    } else if s[0] <= 0xDF {
      TwoByteChar(s);
    } else if s[0] <= 0xEF {
      ThreeByteChar(s);
    } else {
      FourByteChar(s);
    }
  }

  /** Removing the marker bits of a lead or continuation byte. */
  lemma MarkerBits(x: nat, marker: nat, m: nat)
    requires m in {8, 16, 32, 64} && marker % m == 0 && marker <= x < marker + m
    ensures x % m == x - marker
  {
  }

  lemma TwoByteChar(s: bytes)
    requires |s| >= 2 && 0xC2 <= s[0] <= 0xDF && IsTail(s[1])
    ensures Utf8ToCodepoint(s).len == 2 && IsScalar(Utf8ToCodepoint(s).cp)
    ensures CodePointToUtf8(Utf8ToCodepoint(s).cp) == s[..2]
  {
    var c: nat, d: nat := s[0] as int - 0xC0, s[1] as int - 0x80;
    var cp := c * 64 + d;
    assert Utf8ToCodepoint(s) == Unit(cp, 2) by {
      MarkerBits(s[0], 0xC0, 32);
      MarkerBits(s[1], 0x80, 64);
    }
    assert cp % 64 == d && cp / 64 % 32 == c by { SixBitDigits(cp, 0, 0, c, d); }
  }

  lemma ThreeByteChar(s: bytes)
    requires |s| >= 3 && 0xE0 <= s[0] <= 0xEF && IsTail(s[1]) && IsTail(s[2])
    requires s[0] == 0xE0 ==> 0xA0 <= s[1]
    requires s[0] == 0xED ==> s[1] <= 0x9F
    ensures Utf8ToCodepoint(s).len == 3 && IsScalar(Utf8ToCodepoint(s).cp)
    ensures CodePointToUtf8(Utf8ToCodepoint(s).cp) == s[..3]
  {
    var b: nat, c: nat, d: nat := s[0] as int - 0xE0, s[1] as int - 0x80, s[2] as int - 0x80;
    var cp := b * 4096 + c * 64 + d;
    assert Utf8ToCodepoint(s) == Unit(cp, 3) by {
      MarkerBits(s[0], 0xE0, 16);
      MarkerBits(s[1], 0x80, 64);
      MarkerBits(s[2], 0x80, 64);
    }
    assert cp % 64 == d && cp / 64 % 64 == c && cp / 4096 % 16 == b by { SixBitDigits(cp, 0, b, c, d); }
  }

  lemma FourByteChar(s: bytes)
    requires |s| >= 4 && 0xF0 <= s[0] <= 0xF4 && IsTail(s[1]) && IsTail(s[2]) && IsTail(s[3])
    requires s[0] == 0xF0 ==> 0x90 <= s[1]
    requires s[0] == 0xF4 ==> s[1] <= 0x8F
    ensures Utf8ToCodepoint(s).len == 4 && IsScalar(Utf8ToCodepoint(s).cp)
    ensures CodePointToUtf8(Utf8ToCodepoint(s).cp) == s[..4]
  {
    var a: nat, b: nat, c: nat, d: nat :=
      s[0] as int - 0xF0, s[1] as int - 0x80, s[2] as int - 0x80, s[3] as int - 0x80;
    var cp := a * 262144 + b * 4096 + c * 64 + d;
    assert Utf8ToCodepoint(s) == Unit(cp, 4) by {
      MarkerBits(s[0], 0xF0, 8);
      MarkerBits(s[1], 0x80, 64);
      MarkerBits(s[2], 0x80, 64);
      MarkerBits(s[3], 0x80, 64);
    }
    EncodedDigits(cp, a, b, c, d);
  }

  /** The encoder spreads the six-bit digits of a code point, surrogates included, over
      the bytes as the table in section 3 of RFC 3629 says. */
  lemma EncodedDigits(cp: nat, a: nat, b: nat, c: nat, d: nat)
    requires a < 8 && b < 64 && c < 64 && d < 64
    requires cp == a * 262144 + b * 4096 + c * 64 + d && cp <= 0x10FFFF
    ensures CodePointToUtf8(cp) ==
            if cp <= 0x7F then [cp]
            else if cp <= 0x7FF then [0xC0 + c, 0x80 + d]
            else if cp <= 0xFFFF then [0xE0 + b, 0x80 + c, 0x80 + d]
            else [0xF0 + a, 0x80 + b, 0x80 + c, 0x80 + d]
  {
    SixBitDigits(cp, a, b, c, d);
  }

  /** Every scalar value is written as an RFC 3629 character, whatever follows. */
  lemma EncodedIsChar(cp: nat, rest: bytes)
    requires IsScalar(cp)
    ensures Utf8CharLength(CodePointToUtf8(cp) + rest) == |CodePointToUtf8(cp)|
  {
    var a, b, c, d := SixBitExpansion(cp);
    SixBitDigits(cp, a, b, c, d);
  }

  lemma {:induction false} EncodedIsValid(cps: seq<nat>)
    requires forall i | 0 <= i < |cps| :: IsScalar(cps[i])
    ensures ValidUtf8(Utf8All(cps))
  {
    if cps != [] {
      var e, rest := CodePointToUtf8(cps[0]), Utf8All(cps[1..]);
      EncodedIsChar(cps[0], rest);
      EncodedIsValid(cps[1..]);
      assert (e + rest)[|e|..] == rest;
    }
  }

  lemma CodePointsStep(s: bytes)
    requires s != [] && Utf8CharLength(s) > 0
    ensures var n := Utf8CharLength(s);
            CodePoints(s) == [Utf8ToCodepoint(s).cp] + CodePoints(s[n..]) &&
            Utf8All(CodePoints(s)) == s[..n] + Utf8All(CodePoints(s[n..]))
  {
    CharRoundTrip(s);
    assert CodePoints(s)[1..] == CodePoints(s[Utf8CharLength(s)..]);
  }

  lemma {:induction false} ValidIsReencoded(s: bytes)
    requires ValidUtf8(s)
    ensures Utf8All(CodePoints(s)) == s
  {
    if s != [] {
      hide Utf8CharLength, Utf8ToCodepoint, CodePointToUtf8, CodePoints, Utf8All;
      CodePointsStep(s);
      ValidIsReencoded(s[Utf8CharLength(s)..]);
    }
  }

  /** Decoding and re-encoding gives a byte string back exactly when it is
      well-formed UTF-8. */
  lemma ReencodeExact(s: bytes)
    ensures Utf8All(CodePoints(s)) == s <==> ValidUtf8(s)
  {
    EncodedIsValid(CodePoints(s));
    if ValidUtf8(s) {
      ValidIsReencoded(s);
    }
  }
}
