/**
 String literals of the JSON library: the escaping writer `valueToQuotedStringN`
 and the reader's `decodeString` with its Unicode escapes.
 */
module JsonString {
  import opened Bytes
  import opened JsonUtf8

  // ----- decoding -----

  /** The reader's messages about string literals, numbers and structure. */
  datatype Problem =
    | EmptyEscape
    | BadEscape
    | FourDigitsExpected
    | HexDigitExpected
    | SixCharactersExpected
    | SecondHalfExpected
    | NotANumber
    | ValueExpected
    | DuplicateKey(name: bytes)
    | MissingColon
    | MissingCommaOrBrace
    | MissingBraceOrName
    | MissingCommaOrBracket
    | ExtraAfterValue
    | RootNotContainer

  /** Decoded text, or a problem together with how many bytes were left unread. */
  datatype Decoded = Text(text: bytes) | Bad(problem: Problem, left: nat)

  /** A decoded `\u` escape and the bytes it took after the `u`. */
  datatype Escape = Code(cp: nat, len: nat) | BadCode(problem: Problem, left: nat)

  function Prepend(front: bytes, d: Decoded): Decoded {
    match d
    case Text(text) => Text(front + text)
    case Bad(_, _) => d
  }

  function HexValue(c: byte): (r: Option<nat>)
    ensures r.Some? ==> r.value < 16
  {
    if 48 <= c <= 57 then Some(c as int - 48)
    else if 97 <= c <= 102 then Some(c as int - 87)
    else if 65 <= c <= 70 then Some(c as int - 55)
    else None
  }

  /** The loop of `decodeUnicodeEscapeSequence` from digit `index` on. */
  function HexFrom(b: bytes, index: nat, unicode: nat): (r: Escape)
    requires |b| >= 4 && index <= 4 && unicode < HexLimit(index)
    ensures r.Code? ==> r.len == 4 && r.cp < 0x10000
    ensures r.BadCode? ==> r.left <= |b|
    decreases 4 - index
  {
    if index == 4 then Code(unicode, 4)
    else
      match HexValue(b[index])
      case Some(d) => HexFrom(b, index + 1, unicode * 16 + d)
      case None => BadCode(HexDigitExpected, |b| - (index + 1))
  }

  /** Sixteen to the power of the digits read so far. */
  function HexLimit(index: nat): nat {
    match index
    case 0 => 1
    case 1 => 0x10
    case 2 => 0x100
    case 3 => 0x1000
    case _ => 0x10000
  }

  function Hex4(b: bytes): (r: Escape)
    ensures r.Code? ==> r.len == 4 <= |b| && r.cp < 0x10000
    ensures r.BadCode? ==> r.left <= |b|
  {
    if |b| < 4 then BadCode(FourDigitsExpected, |b|)
    else HexFrom(b, 0, 0)
  }

  /** `decodeUnicodeCodePoint`: one escape, or two when the first is a high surrogate.
      The second half is not required to be a low surrogate. */
  function DecodeCodePoint(b: bytes): (r: Escape)
    ensures r.Code? ==> r.len <= |b| && r.cp <= 0x10FFFF
    ensures r.BadCode? ==> r.left <= |b|
  {
    var first := Hex4(b);
    if first.BadCode? || !(0xD800 <= first.cp <= 0xDBFF) then first
    else
      var rest := b[4..];
      if |rest| < 6 then BadCode(SixCharactersExpected, |rest|)
      else if rest[0] != BACKSLASH then BadCode(SecondHalfExpected, |rest| - 1)
      else if rest[1] != 117 then BadCode(SecondHalfExpected, |rest| - 2)
      else
        match Hex4(rest[2..])
        case Code(second, _) => Code(0x10000 + first.cp % 1024 * 1024 + second % 1024, 10)
        case bad => bad
  }

  /** The byte a one-letter escape stands for. */
  function SimpleEscape(e: byte): Option<byte> {
    if e == QUOTE || e == SLASH || e == BACKSLASH then Some(e)
    else if e == 98 then Some(BACKSPACE)
    else if e == 102 then Some(FF)
    else if e == 110 then Some(LF)
    else if e == 114 then Some(CR)
    else if e == 116 then Some(TAB)
    else None
  }

  /** `decodeString` on the bytes between the quotes. */
  function DecodeBody(b: bytes): (r: Decoded)
    ensures r.Bad? ==> r.left <= |b|
  {
    if b == [] || b[0] == QUOTE then Text([])
    else if b[0] != BACKSLASH then Prepend([b[0]], DecodeBody(b[1..]))
    else if |b| == 1 then Bad(EmptyEscape, 0)
    else if b[1] == 117 then
      match DecodeCodePoint(b[2..])
      case Code(cp, n) => Prepend(CodePointToUtf8(cp), DecodeBody(b[2..][n..]))
      case BadCode(problem, left) => Bad(problem, left)
    else
      match SimpleEscape(b[1])
      case Some(c) => Prepend([c], DecodeBody(b[2..]))
      case None => Bad(BadEscape, |b| - 2)
  }

  /** The loop of `decodeString`. */
  method DecodeString(b: bytes) returns (r: Decoded)
    ensures r == DecodeBody(b)
  {
    var decoded: bytes := [];
    var current := 0;
    assert b[0..] == b;
    while current != |b|
      invariant current <= |b|
      invariant DecodeBody(b) == Prepend(decoded, DecodeBody(b[current..]))
      decreases |b| - current
    {
      ghost var rest := b[current..];
      var c := b[current];
      current := current + 1;
      assert b[current..] == rest[1..];
      if c == QUOTE {
        return Text(decoded);
      }
      if c == BACKSLASH {
        if current == |b| {
          return Bad(EmptyEscape, 0);
        }
        var escape := b[current];
        current := current + 1;
        assert b[current..] == rest[2..];
        if escape == 117 {
          match DecodeCodePoint(b[current..])
          case BadCode(problem, left) =>
            return Bad(problem, left);
          case Code(cp, n) =>
            PrependPrepend(decoded, CodePointToUtf8(cp), DecodeBody(rest[2..][n..]));
            decoded := decoded + CodePointToUtf8(cp);
            current := current + n;
            assert b[current..] == rest[2..][n..];
        } else {
          match SimpleEscape(escape)
          case None =>
            return Bad(BadEscape, |b| - current);
          case Some(plain) =>
            PrependPrepend(decoded, [plain], DecodeBody(rest[2..]));
            decoded := decoded + [plain];
        }
      } else {
        PrependPrepend(decoded, [c], DecodeBody(rest[1..]));
        decoded := decoded + [c];
      }
    }
    r := Text(decoded);
  }

  lemma PrependPrepend(a: bytes, b: bytes, d: Decoded)
    ensures Prepend(a, Prepend(b, d)) == Prepend(a + b, d)
  {
    if d.Text? {
      assert a + (b + d.text) == (a + b) + d.text;
    }
  }

  // ----- quoting -----

  function HexDigit(d: nat): byte
    requires d < 16
  {
    if d < 10 then 48 + d else 87 + d
  }

  function ToHex16(x: nat): (r: bytes)
    ensures |r| == 4
  {
    var hi, lo := x / 256 % 256, x % 256;
    [HexDigit(hi / 16), HexDigit(hi % 16), HexDigit(lo / 16), HexDigit(lo % 16)]
  }

  function HexEscape(x: nat): bytes {
    [BACKSLASH, 117] + ToHex16(x)
  }

  /** How the escaping writer spells one code point that has no one-letter escape. */
  function CodePointEscape(cp: nat): bytes {
    if cp < 0x20 then HexEscape(cp)
    else if cp < 0x80 then [cp]
    else if cp < 0x10000 then HexEscape(cp)
    else
      HexEscape(0xD800 + (cp - 0x10000) / 1024 % 1024) + HexEscape(0xDC00 + (cp - 0x10000) % 1024)
  }

  /** Letter of the one-letter escape written for a byte, if it has one. */
  function ShortEscape(c: byte): (r: Option<byte>)
    ensures r.Some? ==> SimpleEscape(r.value) == Some(c) && r.value != 117
    ensures c == QUOTE || c == BACKSLASH ==> r.Some?
  {
    if c == QUOTE || c == BACKSLASH then Some(c)
    else if c == BACKSPACE then Some(98)
    else if c == FF then Some(102)
    else if c == LF then Some(110)
    else if c == CR then Some(114)
    else if c == TAB then Some(116)
    else None
  }

  /** What one turn of the writer's loop appends, and how many bytes it reads. */
  datatype Piece = Piece(text: bytes, len: nat)

  function NextPiece(s: bytes, emitUtf8: bool): (p: Piece)
    requires s != []
    ensures 1 <= p.len <= |s|
  {
    match ShortEscape(s[0])
    case Some(letter) => Piece([BACKSLASH, letter], 1)
    case None =>
      if emitUtf8 then Piece(if s[0] < 0x20 then HexEscape(s[0]) else [s[0]], 1)
      else Piece(CodePointEscape(Utf8ToCodepoint(s).cp), Utf8ToCodepoint(s).len)
  }

  function QuoteBody(s: bytes, emitUtf8: bool): bytes {
    if s == [] then []
    else NextPiece(s, emitUtf8).text + QuoteBody(s[NextPiece(s, emitUtf8).len..], emitUtf8)
  }

  function Quote(s: bytes, emitUtf8: bool): bytes {
    [QUOTE] + QuoteBody(s, emitUtf8) + [QUOTE]
  }

  predicate RequiresEscaping(c: byte) {
    c == BACKSLASH || c == QUOTE || c < 0x20 || c > 0x7F
  }

  /** `valueToQuotedStringN`: a fast path for plain text, otherwise the escaping loop. */
  method ValueToQuotedString(s: bytes, emitUtf8: bool) returns (r: bytes)
    ensures r == Quote(s, emitUtf8)
  {
    if forall i | 0 <= i < |s| :: !RequiresEscaping(s[i]) {
      PlainText(s, emitUtf8);
      r := [QUOTE] + s + [QUOTE];
    } else {
      r := EscapeLoop(s, emitUtf8);
    }
  }

  method EscapeLoop(s: bytes, emitUtf8: bool) returns (r: bytes)
    ensures r == Quote(s, emitUtf8)
  {
    hide NextPiece, QuoteBody;
    ghost var goal := [QUOTE] + QuoteBody(s, emitUtf8);
    r := [QUOTE];
    var c := 0;
    assert s[0..] == s;
    while c != |s|
      invariant c <= |s|
      invariant goal == r + QuoteBody(s[c..], emitUtf8)
      decreases |s| - c
    {
      var p := NextPiece(s[c..], emitUtf8);
      QuoteStep(s, c, emitUtf8, r);
      r := r + p.text;
      c := c + p.len;
    }
    QuoteNothing(s[c..], emitUtf8);
    assert goal == r;
    r := r + [QUOTE];
  }

  lemma QuoteNothing(s: bytes, emitUtf8: bool)
    requires s == []
    ensures QuoteBody(s, emitUtf8) == []
  {
  }

  lemma QuoteStep(s: bytes, c: nat, emitUtf8: bool, r: bytes)
    requires c < |s|
    ensures var p := NextPiece(s[c..], emitUtf8);
            r + QuoteBody(s[c..], emitUtf8) == (r + p.text) + QuoteBody(s[c + p.len..], emitUtf8)
  {
    hide NextPiece;
    var p := NextPiece(s[c..], emitUtf8);
    assert s[c..][p.len..] == s[c + p.len..];
  }

  lemma {:induction false} PlainText(s: bytes, emitUtf8: bool)
    requires forall i | 0 <= i < |s| :: !RequiresEscaping(s[i])
    ensures QuoteBody(s, emitUtf8) == s
  {
    if s != [] {
      assert !RequiresEscaping(s[0]);
      if s[0] < 0x7F || s[0] == 0x7F {
        PlainPiece(s, emitUtf8);
        PlainText(s[1..], emitUtf8);
        assert s == [s[0]] + s[1..];
      }
    }
  }

  lemma PlainPiece(s: bytes, emitUtf8: bool)
    requires s != [] && !RequiresEscaping(s[0])
    ensures NextPiece(s, emitUtf8) == Piece([s[0]], 1)
  {
  }

  /** Bytes that are no control characters, and ASCII unless raw text is asked for. */
  predicate Plain(b: bytes, emitUtf8: bool) {
    forall i | 0 <= i < |b| :: 0x20 <= b[i] && (emitUtf8 || b[i] < 0x80)
  }

  lemma PiecePlain(s: bytes, emitUtf8: bool)
    requires s != []
    ensures Plain(NextPiece(s, emitUtf8).text, emitUtf8)
  {
    hide Utf8ToCodepoint;
  }

  /** Quoted text holds no control characters, and is ASCII unless raw text is asked for. */
  lemma {:induction false} QuotedPlain(s: bytes, emitUtf8: bool)
    ensures Plain(QuoteBody(s, emitUtf8), emitUtf8)
    decreases |s|
  {
    hide NextPiece;
    if s != [] {
      PiecePlain(s, emitUtf8);
      QuotedPlain(s[NextPiece(s, emitUtf8).len..], emitUtf8);
    }
  }

  // ----- string literals by section 7 of RFC 8259 -----

  /** The 22 hexadecimal digits. */
  function HexDigits(): map<byte, nat> {
    map[48 := 0, 49 := 1, 50 := 2, 51 := 3, 52 := 4, 53 := 5, 54 := 6, 55 := 7, 56 := 8, 57 := 9,
        65 := 10, 66 := 11, 67 := 12, 68 := 13, 69 := 14, 70 := 15,
        97 := 10, 98 := 11, 99 := 12, 100 := 13, 101 := 14, 102 := 15]
  }

  /** The eight letters that may follow a backslash, `u` apart, and what they stand for. */
  function Letters(): map<byte, byte> {
    map[34 := 34, 92 := 92, 47 := 47, 98 := 8, 102 := 12, 110 := 10, 114 := 13, 116 := 9]
  }

  /** Four hexadecimal digits in either case. */
  predicate IsHex(ds: bytes) {
    |ds| == 4 && forall i | 0 <= i < |ds| :: ds[i] in HexDigits()
  }

  /** The number that hexadecimal digits denote in base sixteen. */
  function HexNumber(ds: bytes): nat
    requires forall i | 0 <= i < |ds| :: ds[i] in HexDigits()
  {
    if ds == [] then 0 else HexNumber(ds[..|ds| - 1]) * 16 + HexDigits()[ds[|ds| - 1]]
  }

  /** One character of a string literal. */
  datatype Part =
    | Raw(b: byte)
    | Letter(letter: byte)
    | Unicode(digits: bytes)
    | Pair(high: bytes, low: bytes)

  predicate IsHighSurrogate(cp: nat) {
    0xD800 <= cp <= 0xDBFF
  }

  /** The second half of a pair may be any four digits: the reader does not ask for a
      low surrogate. */
  predicate IsPart(p: Part) {
    match p
    case Raw(b) => b != QUOTE && b != BACKSLASH
    case Letter(letter) => letter in Letters()
    case Unicode(digits) => IsHex(digits) && !IsHighSurrogate(HexNumber(digits))
    case Pair(high, low) => IsHex(high) && IsHex(low) && IsHighSurrogate(HexNumber(high))
  }

  function PartText(p: Part): bytes {
    match p
    case Raw(b) => [b]
    case Letter(letter) => [BACKSLASH, letter]
    case Unicode(digits) => [BACKSLASH, 117] + digits
    case Pair(high, low) => [BACKSLASH, 117] + high + [BACKSLASH, 117] + low
  }

  function PartMeaning(p: Part): bytes
    requires IsPart(p)
  {
    match p
    case Raw(b) => [b]
    case Letter(letter) => [Letters()[letter]]
    case Unicode(digits) => CodePointToUtf8(HexNumber(digits))
    case Pair(high, low) =>
      CodePointToUtf8(0x10000 + (HexNumber(high) - 0xD800) * 1024 + HexNumber(low) % 1024)
  }

  predicate AreParts(ps: seq<Part>) {
    forall i | 0 <= i < |ps| :: IsPart(ps[i])
  }

  function PartsText(ps: seq<Part>): bytes {
    if ps == [] then [] else PartText(ps[0]) + PartsText(ps[1..])
  }

  function PartsMeaning(ps: seq<Part>): bytes
    requires AreParts(ps)
  {
    if ps == [] then [] else PartMeaning(ps[0]) + PartsMeaning(ps[1..])
  }

  lemma HexValueExact(c: byte)
    ensures HexValue(c) == if c in HexDigits() then Some(HexDigits()[c]) else None
  {
  }

  lemma SimpleEscapeExact(c: byte)
    ensures SimpleEscape(c) == if c in Letters() then Some(Letters()[c]) else None
  {
  }

  lemma HexNumberFour(ds: bytes)
    requires IsHex(ds)
    ensures HexNumber(ds) ==
            ((HexDigits()[ds[0]] * 16 + HexDigits()[ds[1]]) * 16 + HexDigits()[ds[2]]) * 16 + HexDigits()[ds[3]]
  {
    hide HexDigits;
    assert ds[..3][..2] == ds[..2] && ds[..2][..1] == ds[..1] && ds[..1][..0] == [];
    assert HexNumber(ds[..1]) == HexDigits()[ds[0]];
    assert HexNumber(ds[..2]) == HexNumber(ds[..1]) * 16 + HexDigits()[ds[1]];
    assert HexNumber(ds[..3]) == HexNumber(ds[..2]) * 16 + HexDigits()[ds[2]];
  }

  /** Four characters decode as a number if and only if all are hexadecimal digits, and
      then as the number these denote. */
  lemma Hex4Exact(b: bytes)
    ensures Hex4(b).Code? <==> |b| >= 4 && IsHex(b[..4])
    ensures Hex4(b).Code? ==> Hex4(b) == Code(HexNumber(b[..4]), 4)
  {
    hide HexDigits, HexValue, HexNumber;
    if |b| >= 4 {
      var ds := b[..4];
      HexValueExact(b[0]);
      HexValueExact(b[1]);
      HexValueExact(b[2]);
      HexValueExact(b[3]);
      assert forall i | 0 <= i < 4 :: ds[i] == b[i];
      HexLoop(b);
      if IsHex(ds) {
        HexNumberFour(ds);
      }
    }
  }

  lemma HexLoop(b: bytes)
    requires |b| >= 4
    ensures Hex4(b).Code? <==>
              HexValue(b[0]).Some? && HexValue(b[1]).Some? && HexValue(b[2]).Some? && HexValue(b[3]).Some?
    ensures Hex4(b).Code? ==>
              Hex4(b) == Code(((HexValue(b[0]).value * 16 + HexValue(b[1]).value) * 16
                               + HexValue(b[2]).value) * 16 + HexValue(b[3]).value, 4)
  {
    hide HexValue;
    if HexValue(b[0]).Some? && HexValue(b[1]).Some? {
      var two := HexValue(b[0]).value * 16 + HexValue(b[1]).value;
      assert HexFrom(b, 0, 0) == HexFrom(b, 1, HexValue(b[0]).value) == HexFrom(b, 2, two);
      if HexValue(b[2]).Some? {
        assert HexFrom(b, 2, two) == HexFrom(b, 3, two * 16 + HexValue(b[2]).value);
      }
    }
  }

  /** Decoding one part, whatever follows it. */
  lemma PartDecodes(p: Part, rest: bytes)
    requires IsPart(p)
    ensures DecodeBody(PartText(p) + rest) == Prepend(PartMeaning(p), DecodeBody(rest))
  {
    hide HexDigits, Letters, DecodeCodePoint, SimpleEscape, CodePointToUtf8, HexNumber, IsHex;
    var b := PartText(p) + rest;
    if p.Raw? {
      assert b[1..] == rest;
    } else if p.Letter? {
      LetterMeans(p.letter);
      assert b[2..] == rest;
    } else {
      EscapeDecodes(p, rest);
    }
  }

  lemma EscapeDecodes(p: Part, rest: bytes)
    requires IsPart(p) && (p.Unicode? || p.Pair?)
    ensures DecodeBody(PartText(p) + rest) == Prepend(PartMeaning(p), DecodeBody(rest))
  {
    hide HexDigits, DecodeCodePoint, CodePointToUtf8, HexNumber, IsHex;
    var b := PartText(p) + rest;
    if p.Unicode? {
      assert b[2..] == p.digits + rest;
      UnicodeDecodes(b[2..], p.digits, rest);
    } else {
      assert b[2..] == p.high + [BACKSLASH, 117] + p.low + rest;
      PairDecodes(b[2..], p.high, p.low, rest);
    }
  }

  lemma LetterMeans(letter: byte)
    requires letter in Letters()
    ensures letter != 117 && SimpleEscape(letter) == Some(Letters()[letter])
  {
  }

  lemma UnicodeDecodes(b: bytes, digits: bytes, rest: bytes)
    requires IsPart(Unicode(digits)) && b == digits + rest
    ensures DecodeCodePoint(b) == Code(HexNumber(digits), 4) && b[4..] == rest
  {
    hide HexDigits, Hex4, HexNumber;
    assert b[..4] == digits;
    Hex4Exact(b);
  }

  lemma PairDecodes(b: bytes, high: bytes, low: bytes, rest: bytes)
    requires IsPart(Pair(high, low)) && b == high + [BACKSLASH, 117] + low + rest
    ensures DecodeCodePoint(b) == Code(0x10000 + (HexNumber(high) - 0xD800) * 1024 + HexNumber(low) % 1024, 10)
    ensures b[10..] == rest
  {
    hide HexDigits, Hex4, HexNumber;
    assert b[..4] == high;
    Hex4Exact(b);
    var tail := b[4..];
    assert tail == [BACKSLASH, 117] + low + rest;
    assert tail[2..][..4] == low;
    Hex4Exact(tail[2..]);
    assert HexNumber(high) % 1024 == HexNumber(high) - 0xD800;
  }

  /** Any sequence of parts decodes to the concatenation of their meanings. */
  lemma {:induction false} PartsDecode(ps: seq<Part>, rest: bytes)
    requires AreParts(ps)
    ensures DecodeBody(PartsText(ps) + rest) == Prepend(PartsMeaning(ps), DecodeBody(rest))
    decreases |ps|
  {
    hide IsPart, DecodeBody, PartText, PartMeaning;
    if ps == [] {
      assert PartsText(ps) + rest == rest;
    } else {
      var more := PartsText(ps[1..]) + rest;
      PartDecodes(ps[0], more);
      PartsDecode(ps[1..], rest);
      assert PartsText(ps) + rest == PartText(ps[0]) + more;
      PrependPrepend(PartMeaning(ps[0]), PartsMeaning(ps[1..]), DecodeBody(rest));
    }
  }

  /** `b` is the text of parts up to its end or to a bare quote. */
  ghost predicate IsLiteral(b: bytes, ps: seq<Part>, tail: bytes) {
    AreParts(ps) && b == PartsText(ps) + tail && (tail == [] || tail[0] == QUOTE)
  }

  /** The part that a body which decodes begins with. */
  lemma FirstPart(b: bytes) returns (p: Part)
    requires b != [] && b[0] != QUOTE && DecodeBody(b).Text?
    ensures IsPart(p) && PartText(p) <= b && DecodeBody(b[|PartText(p)|..]).Text?
    ensures |PartText(p)| > 0
  {
    hide HexDigits, Letters, Hex4, SimpleEscape, CodePointToUtf8, HexNumber;
    if b[0] != BACKSLASH {
      p := Raw(b[0]);
    } else if b[1] == 117 {
      p := FirstEscape(b[2..]);
      assert b[..2] == [BACKSLASH, 117];
      assert b[2..][DecodeCodePoint(b[2..]).len..] == b[|PartText(p)|..];
      assert b[..|PartText(p)|] == b[..2] + b[2..][..|PartText(p)| - 2];
    } else {
      SimpleEscapeExact(b[1]);
      p := Letter(b[1]);
    }
  }

  lemma FirstEscape(b: bytes) returns (p: Part)
    requires DecodeCodePoint(b).Code?
    ensures IsPart(p) && (p.Unicode? || p.Pair?)
    ensures |PartText(p)| - 2 == DecodeCodePoint(b).len
    ensures PartText(p) == [BACKSLASH, 117] + b[..DecodeCodePoint(b).len]
  {
    hide HexDigits, Hex4, HexNumber;
    Hex4Exact(b);
    if IsHighSurrogate(HexNumber(b[..4])) {
      var tail := b[4..];
      Hex4Exact(tail[2..]);
      p := Pair(b[..4], tail[2..][..4]);
      assert b[..10] == b[..4] + [BACKSLASH, 117] + tail[2..][..4];
    } else {
      p := Unicode(b[..4]);
    }
  }

  lemma {:induction false} DecodedIsLiteral(b: bytes) returns (ps: seq<Part>, tail: bytes)
    requires DecodeBody(b).Text?
    ensures IsLiteral(b, ps, tail)
    decreases |b|
  {
    hide IsPart, PartText, DecodeBody;
    if b == [] || b[0] == QUOTE {
      ps, tail := [], b;
    } else {
      var p := FirstPart(b);
      var n := |PartText(p)|;
      var more;
      more, tail := DecodedIsLiteral(b[n..]);
      ps := [p] + more;
      assert ps[1..] == more;
      assert b == PartText(p) + b[n..];
      assert PartText(p) + (PartsText(more) + tail) == (PartText(p) + PartsText(more)) + tail;
    }
  }

  /** String literals exactly: a body decodes to `text` if and only if it is made of raw
      bytes, letter escapes, `\u` escapes and pairs of them whose meanings make `text`. */
  lemma DecodeExact(b: bytes, text: bytes)
    ensures DecodeBody(b) == Text(text) <==>
              exists ps: seq<Part>, tail: bytes :: IsLiteral(b, ps, tail) && PartsMeaning(ps) == text
  {
    hide DecodeBody, IsPart, PartsText, PartsMeaning;
    forall ps: seq<Part>, tail: bytes | IsLiteral(b, ps, tail)
      ensures DecodeBody(b) == Text(PartsMeaning(ps))
    {
      LiteralDecodes(b, ps, tail);
    }
    if DecodeBody(b).Text? {
      var ps, tail := DecodedIsLiteral(b);
    }
  }

  lemma LiteralDecodes(b: bytes, ps: seq<Part>, tail: bytes)
    requires IsLiteral(b, ps, tail)
    ensures DecodeBody(b) == Text(PartsMeaning(ps))
  {
    PartsDecode(ps, tail);
    assert DecodeBody(tail) == Text([]);
    assert PartsMeaning(ps) + [] == PartsMeaning(ps);
  }

  // ----- round trip -----

  lemma HexDigitValue(d: nat)
    requires d < 16
    ensures HexDigit(d) in HexDigits() && HexDigits()[HexDigit(d)] == d
  {
  }

  /** The four digits the writer prints denote the number. */
  lemma HexRoundTrip(x: nat)
    requires x < 0x10000
    ensures IsHex(ToHex16(x)) && HexNumber(ToHex16(x)) == x
  {
    hide HexDigits, HexDigit, HexNumber;
    var hi, lo := x / 256 % 256, x % 256;
    HexDigitValue(hi / 16);
    HexDigitValue(hi % 16);
    HexDigitValue(lo / 16);
    HexDigitValue(lo % 16);
    HexNumberFour(ToHex16(x));
    assert x == hi * 256 + lo;
  }

  /** The part the writer writes for a code point without a one-letter escape. */
  function CodePointPart(cp: nat): Part {
    if cp < 0x20 || 0x80 <= cp < 0x10000 then Unicode(ToHex16(cp))
    else if cp < 0x80 then Raw(cp)
    else Pair(ToHex16(0xD800 + (cp - 0x10000) / 1024 % 1024), ToHex16(0xDC00 + (cp - 0x10000) % 1024))
  }

  lemma CodePointParts(cp: nat)
    requires cp <= 0x1FFFFF && !(0xD800 <= cp <= 0xDFFF) && cp != QUOTE && cp != BACKSLASH
    ensures var p := CodePointPart(cp);
            IsPart(p) && PartText(p) == CodePointEscape(cp) && PartMeaning(p) == CodePointToUtf8(Emitted(cp))
  {
    hide ToHex16, HexNumber, HexDigits;
    if cp < 0x20 || 0x80 <= cp < 0x10000 {
      HexRoundTrip(cp);
    } else if cp >= 0x10000 {
      hide CodePointToUtf8;
      var v := cp - 0x10000;
      var hi, lo := v / 1024 % 1024, v % 1024;
      HexRoundTrip(0xD800 + hi);
      HexRoundTrip(0xDC00 + lo);
      TwentyBits(v);
      assert (0xDC00 + lo) % 1024 == lo;
      assert PartText(CodePointPart(cp)) == HexEscape(0xD800 + hi) + HexEscape(0xDC00 + lo);
    }
  }

  lemma TwentyBits(v: nat)
    ensures v % 0x100000 == v / 1024 % 1024 * 1024 + v % 1024
  {
    var q, r := v / 0x100000, v % 0x100000;
    assert v == q * 1024 * 1024 + r;
    assert v / 1024 == q * 1024 + r / 1024;
  }

  /** What one turn of the writer's loop reads, as the writer means it. */
  function PieceMeaning(s: bytes, emitUtf8: bool): bytes
    requires s != []
  {
    if emitUtf8 then [s[0]] else CodePointToUtf8(Emitted(Utf8ToCodepoint(s).cp))
  }

  lemma WrittenPart(s: bytes, emitUtf8: bool) returns (p: Part)
    requires s != []
    ensures IsPart(p) && PartText(p) == NextPiece(s, emitUtf8).text && PartMeaning(p) == PieceMeaning(s, emitUtf8)
  {
    hide ToHex16, CodePointPart, CodePointEscape, Utf8ToCodepoint, HexNumber, HexDigits;
    var c := s[0];
    if ShortEscape(c).Some? {
      p := Letter(ShortEscape(c).value);
    } else if !emitUtf8 {
      CodePointParts(Utf8ToCodepoint(s).cp);
      p := CodePointPart(Utf8ToCodepoint(s).cp);
    } else if c < 0x20 {
      HexRoundTrip(c);
      p := Unicode(ToHex16(c));
    } else {
      p := Raw(c);
    }
  }

  /** The reader's view of a quoted string. */
  function QuotedMeaning(s: bytes, emitUtf8: bool): bytes {
    if emitUtf8 then s else Utf8All(CodePoints(s))
  }

  lemma MeaningStep(s: bytes, emitUtf8: bool)
    requires s != []
    ensures QuotedMeaning(s, emitUtf8)
         == PieceMeaning(s, emitUtf8) + QuotedMeaning(s[NextPiece(s, emitUtf8).len..], emitUtf8)
  {
    hide Utf8ToCodepoint, CodePointToUtf8, CodePointEscape, Emitted;
    if emitUtf8 {
      assert s == [s[0]] + s[1..];
    } else {
      assert NextPiece(s, emitUtf8).len == Utf8ToCodepoint(s).len;
      assert CodePoints(s)[1..] == CodePoints(s[Utf8ToCodepoint(s).len..]);
    }
  }

  /** What the writer quotes is a string literal with the meaning of what it read. */
  lemma {:induction false} QuotedParts(s: bytes, emitUtf8: bool) returns (ps: seq<Part>)
    ensures AreParts(ps) && PartsText(ps) == QuoteBody(s, emitUtf8) && PartsMeaning(ps) == QuotedMeaning(s, emitUtf8)
    decreases |s|
  {
    ps := [];
    if s != [] {
      hide NextPiece, PieceMeaning, QuotedMeaning, IsPart, PartText, PartMeaning;
      var p := WrittenPart(s, emitUtf8);
      var more := QuotedParts(s[NextPiece(s, emitUtf8).len..], emitUtf8);
      MeaningStep(s, emitUtf8);
      ps := [p] + more;
      assert ps[1..] == more;
    }
  }

  /** Reading any quoted string back succeeds, and gives its meaning. */
  lemma QuotedDecodes(s: bytes, emitUtf8: bool)
    ensures DecodeBody(QuoteBody(s, emitUtf8)) == Text(QuotedMeaning(s, emitUtf8))
  {
    hide DecodeBody, QuoteBody, IsPart, PartsText, PartsMeaning;
    var ps := QuotedParts(s, emitUtf8);
    assert QuoteBody(s, emitUtf8) == PartsText(ps) + [];
    LiteralDecodes(QuoteBody(s, emitUtf8), ps, []);
  }

  /** String literal round trip: the original bytes come back exactly when they are
      written raw or are well-formed UTF-8. */
  lemma StringRoundTrip(s: bytes, emitUtf8: bool)
    ensures DecodeBody(QuoteBody(s, emitUtf8)) == Text(s) <==> emitUtf8 || ValidUtf8(s)
  {
    QuotedDecodes(s, emitUtf8);
    ReencodeExact(s);
  }
}
