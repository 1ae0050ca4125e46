/**
 Tokens of the JSON reader: for every document, position and feature setting, the
 token that `readToken` reads there and where it stops. The scanning functions are
 the declarative form of the reader's cursor loops.
 */
module JsonLexer {
  import opened Bytes

  datatype Features = Features(
    allowComments: bool,
    allowTrailingCommas: bool,
    strictRoot: bool,
    allowDroppedNullPlaceholders: bool,
    allowNumericKeys: bool,
    allowSingleQuotes: bool,
    failIfExtra: bool,
    rejectDupKeys: bool,
    allowSpecialFloats: bool,
    skipBom: bool,
    stackLimit: nat)

  datatype TokenType =
    | EndOfStream
    | ObjectBegin
    | ObjectEnd
    | ArrayBegin
    | ArrayEnd
    | StringToken
    | NumberToken
    | TrueToken
    | FalseToken
    | NullToken
    | NaNToken
    | PosInfToken
    | NegInfToken
    | ArraySeparator
    | MemberSeparator
    | CommentToken
    | ErrorToken

  datatype Token = Token(kind: TokenType, start: nat, end: nat)

  /** Whether a scan succeeded and where it stopped. */
  datatype Scan = Scan(ok: bool, end: nat)

  const NAN_REST: bytes := [97, 78]
  const INFINITY_REST: bytes := [110, 102, 105, 110, 105, 116, 121]

  function SkipSpaces(doc: bytes, pos: nat): (r: nat)
    requires pos <= |doc|
    ensures pos <= r <= |doc|
    ensures r < |doc| ==> !IsSpace(doc[r])
    ensures forall i | pos <= i < r :: IsSpace(doc[i])
    decreases |doc| - pos
  {
    if pos < |doc| && IsSpace(doc[pos]) then SkipSpaces(doc, pos + 1) else pos
  }

  function SkipDigits(doc: bytes, pos: nat): (r: nat)
    requires pos <= |doc|
    ensures pos <= r <= |doc|
    ensures r < |doc| ==> !IsDigit(doc[r])
    ensures forall i | pos <= i < r :: IsDigit(doc[i])
    decreases |doc| - pos
  {
    if pos < |doc| && IsDigit(doc[pos]) then SkipDigits(doc, pos + 1) else pos
  }

  function FractionEnd(doc: bytes, pos: nat): (r: nat)
    requires pos <= |doc|
    ensures pos <= r <= |doc|
  {
    if pos < |doc| && doc[pos] == DOT then SkipDigits(doc, pos + 1) else pos
  }

  function ExponentEnd(doc: bytes, pos: nat): (r: nat)
    requires pos <= |doc|
    ensures pos <= r <= |doc|
  {
    if pos < |doc| && (doc[pos] == 101 || doc[pos] == 69) then
      if pos + 1 < |doc| && (doc[pos + 1] == PLUS || doc[pos + 1] == MINUS) then SkipDigits(doc, pos + 2)
      else SkipDigits(doc, pos + 1)
    else pos
  }

  /** End of the number whose first character is just before `pos`. */
  function NumberEnd(doc: bytes, pos: nat): (r: nat)
    requires pos <= |doc|
    ensures pos <= r <= |doc|
  {
    ExponentEnd(doc, FractionEnd(doc, SkipDigits(doc, pos)))
  }

  function ScanString(doc: bytes, pos: nat, quote: byte): (r: Scan)
    requires pos <= |doc|
    ensures pos <= r.end <= |doc|
    ensures r.ok ==> pos < r.end
    decreases |doc| - pos
  {
    if pos == |doc| then Scan(false, pos)
    else if doc[pos] == BACKSLASH then
      if pos + 1 == |doc| then Scan(false, pos + 1) else ScanString(doc, pos + 2, quote)
    else if doc[pos] == quote then Scan(true, pos + 1)
    else ScanString(doc, pos + 1, quote)
  }

  /** `readCStyleComment`: a final slash ends the document's last comment even
      without a star before it. */
  function ScanCStyle(doc: bytes, pos: nat): (r: Scan)
    requires pos <= |doc|
    ensures pos <= r.end <= |doc|
    decreases |doc| - pos
  {
    if pos + 1 < |doc| then
      if doc[pos] == STAR && doc[pos + 1] == SLASH then Scan(true, pos + 2) else ScanCStyle(doc, pos + 1)
    else if pos == |doc| then Scan(false, pos)
    else Scan(doc[pos] == SLASH, pos + 1)
  }

  function CppStyleEnd(doc: bytes, pos: nat): (r: nat)
    requires pos <= |doc|
    ensures pos <= r <= |doc|
    decreases |doc| - pos
  {
    if pos == |doc| then pos
    else if doc[pos] == LF then pos + 1
    else if doc[pos] == CR then
      if pos + 1 < |doc| && doc[pos + 1] == LF then pos + 2 else pos + 1
    else CppStyleEnd(doc, pos + 1)
  }

  /** The comment whose slash is just before `pos`. */
  function ScanComment(doc: bytes, pos: nat): (r: Scan)
    requires pos <= |doc|
    ensures pos <= r.end <= |doc|
  {
    if pos == |doc| then Scan(false, pos)
    else if doc[pos] == STAR then ScanCStyle(doc, pos + 1)
    else if doc[pos] == SLASH then Scan(true, CppStyleEnd(doc, pos + 1))
    else Scan(false, pos + 1)
  }

  /** `match`: the cursor moves only when the word is there. */
  function ScanWord(doc: bytes, pos: nat, word: bytes): (r: Scan)
    requires pos <= |doc|
    ensures pos <= r.end <= |doc|
  {
    if OccursAt(doc, pos, word) then Scan(true, pos + |word|) else Scan(false, pos)
  }

  function Made(kind: TokenType, start: nat, s: Scan): Token {
    Token(if s.ok then kind else ErrorToken, start, s.end)
  }

  /** A signed number or a signed infinity, the sign at `start`. */
  function LexSigned(f: Features, doc: bytes, start: nat, infinity: TokenType): (t: Token)
    requires start < |doc|
    ensures t.start == start < t.end <= |doc|
    ensures t.kind in {NumberToken, infinity, ErrorToken}
  {
    var p := start + 1;
    if p < |doc| && doc[p] == 73 then
      if f.allowSpecialFloats then Made(infinity, start, ScanWord(doc, p + 1, INFINITY_REST))
      else Token(ErrorToken, start, p + 1)
    else Token(NumberToken, start, NumberEnd(doc, p))
  }

  function PunctuationKind(c: byte): Option<TokenType> {
    if c == LBRACE then Some(ObjectBegin)
    else if c == RBRACE then Some(ObjectEnd)
    else if c == LBRACKET then Some(ArrayBegin)
    else if c == RBRACKET then Some(ArrayEnd)
    else if c == COMMA then Some(ArraySeparator)
    else if c == COLON then Some(MemberSeparator)
    else if c == NUL then Some(EndOfStream)
    else None
  }

  /** Tokens that begin with a letter. */
  function LexWord(f: Features, doc: bytes, start: nat): (t: Token)
    requires start < |doc|
    ensures t.start == start < t.end <= |doc|
    ensures t.kind in {TrueToken, FalseToken, NullToken, NaNToken, PosInfToken, ErrorToken}
  {
    var c, p := doc[start], start + 1;
    if c == 116 then Made(TrueToken, start, ScanWord(doc, p, TRUE_TEXT[1..]))
    else if c == 102 then Made(FalseToken, start, ScanWord(doc, p, FALSE_TEXT[1..]))
    else if c == 110 then Made(NullToken, start, ScanWord(doc, p, NULL_TEXT[1..]))
    else if c == 78 && f.allowSpecialFloats then Made(NaNToken, start, ScanWord(doc, p, NAN_REST))
    else if c == 73 && f.allowSpecialFloats then Made(PosInfToken, start, ScanWord(doc, p, INFINITY_REST))
    else Token(ErrorToken, start, p)
  }

  function LexAt(f: Features, doc: bytes, start: nat): (t: Token)
    requires start < |doc|
    ensures t.start == start < t.end <= |doc|
    ensures t.kind == StringToken ==> start + 2 <= t.end
  {
    var c, p := doc[start], start + 1;
    match PunctuationKind(c)
    case Some(kind) => Token(kind, start, p)
    case None =>
      if c == QUOTE then Made(StringToken, start, ScanString(doc, p, QUOTE))
      else if c == APOSTROPHE && f.allowSingleQuotes then Made(StringToken, start, ScanString(doc, p, APOSTROPHE))
      else if c == SLASH then Made(CommentToken, start, ScanComment(doc, p))
      else if IsDigit(c) then Token(NumberToken, start, NumberEnd(doc, p))
      else if c == MINUS then LexSigned(f, doc, start, NegInfToken)
      else if c == PLUS then LexSigned(f, doc, start, PosInfToken)
      else LexWord(f, doc, start)
  }

  /** `readToken`: every token but the end of the document takes at least one byte. */
  function Lex(f: Features, doc: bytes, pos: nat): (t: Token)
    requires pos <= |doc|
    ensures pos <= t.start <= t.end <= |doc|
    ensures t.start == t.end ==> t.kind == EndOfStream && t.end == |doc|
    ensures t.kind == StringToken ==> t.start + 2 <= t.end
  {
    var start := SkipSpaces(doc, pos);
    if start == |doc| then Token(EndOfStream, start, start) else LexAt(f, doc, start)
  }

  /** Reads tokens until one that is not a comment. */
  function LexPastComments(f: Features, doc: bytes, pos: nat): (t: Token)
    requires pos <= |doc|
    ensures pos <= t.start <= t.end <= |doc|
    ensures t.kind != CommentToken
    ensures t.start == t.end ==> t.kind == EndOfStream && t.end == |doc|
    ensures t.kind == StringToken ==> t.start + 2 <= t.end
    decreases |doc| - pos
  {
    var t := Lex(f, doc, pos);
    if t.kind == CommentToken then LexPastComments(f, doc, t.end) else t
  }

  /** `skipCommentTokens`. */
  function LexValueStart(f: Features, doc: bytes, pos: nat): (t: Token)
    requires pos <= |doc|
    ensures pos <= t.start <= t.end <= |doc|
    ensures t.start == t.end ==> t.kind == EndOfStream && t.end == |doc|
    ensures t.kind == StringToken ==> t.start + 2 <= t.end
  {
    if f.allowComments then LexPastComments(f, doc, pos) else Lex(f, doc, pos)
  }

  /** Where `recoverFromError` stops. */
  function RecoverEnd(f: Features, doc: bytes, pos: nat, until: TokenType): (r: nat)
    requires pos <= |doc|
    ensures pos <= r <= |doc|
    decreases |doc| - pos
  {
    var t := Lex(f, doc, pos);
    if t.kind == until || t.kind == EndOfStream then t.end else RecoverEnd(f, doc, t.end, until)
  }
}
