/**
 Texts that spell a list of tokens: the tokens in order with any white space around
 them. Which texts lex as which token is exact: a token text lexes as its token wherever
 it stands, and whatever is lexed has the text of its token.
 */
module JsonSpelling {
  import opened Bytes
  import opened JsonLexer
  import opened JsonString
  import opened JsonReader
  import opened JsonSyntax
  import opened JsonGrammar
  import JsonNumber

  function TrimLeft(text: bytes): (r: bytes)
    ensures |r| <= |text|
    ensures r != [] ==> !IsSpace(r[0])
  {
    if text != [] && IsSpace(text[0]) then TrimLeft(text[1..]) else text
  }

  predicate Spells(text: bytes, ts: seq<Tok>)
    decreases |ts|
  {
    var t := TrimLeft(text);
    if ts == [] then t == []
    else ts[0].text <= t && Spells(t[|ts[0].text|..], ts[1..])
  }

  predicate AllSpaces(text: bytes) {
    forall i | 0 <= i < |text| :: IsSpace(text[i])
  }

  // ----- composing texts -----

  lemma {:induction false} TrimLeftConcat(a: bytes, b: bytes)
    ensures TrimLeft(a + b) == if TrimLeft(a) == [] then TrimLeft(b) else TrimLeft(a) + b
  {
    if a == [] {
      assert a + b == b;
    } else if IsSpace(a[0]) {
      assert (a + b)[1..] == a[1..] + b;
      TrimLeftConcat(a[1..], b);
    }
  }

  lemma {:induction false} TrimLeftSpaces(text: bytes)
    requires AllSpaces(text)
    ensures TrimLeft(text) == []
  {
    if text != [] {
      TrimLeftSpaces(text[1..]);
    }
  }

  /** A token whose text does not begin with white space. */
  predicate Visible(t: Tok) {
    t.text != [] && !IsSpace(t.text[0])
  }

  predicate AllVisible(ts: seq<Tok>) {
    forall i | 0 <= i < |ts| :: Visible(ts[i])
  }

  /** One token in front of a spelled text. */
  lemma SpellsStep(a: bytes, t: Tok, ts: seq<Tok>)
    ensures Spells(a, [t] + ts) <==> t.text <= TrimLeft(a) && Spells(TrimLeft(a)[|t.text|..], ts)
  {
    assert ([t] + ts)[1..] == ts;
  }

  lemma SpellsNone(a: bytes)
    ensures Spells(a, []) <==> TrimLeft(a) == []
  {
  }

  /** White space in front does not matter. */
  lemma SpellsTrimmed(a: bytes, b: bytes, ts: seq<Tok>)
    requires TrimLeft(a) == TrimLeft(b)
    ensures Spells(a, ts) <==> Spells(b, ts)
  {
  }

  /** Spelled texts can be put one after the other. */
  lemma {:induction false} SpellsConcat(a: bytes, la: seq<Tok>, b: bytes, lb: seq<Tok>)
    requires Spells(a, la) && Spells(b, lb) && AllVisible(la)
    ensures Spells(a + b, la + lb)
    decreases |la|
  {
    hide Spells, TrimLeft;
    TrimLeftConcat(a, b);
    if la == [] {
      SpellsNone(a);
      SpellsTrimmed(a + b, b, lb);
      assert la + lb == lb;
    } else {
      var t, n, rest := TrimLeft(a), |la[0].text|, la[1..];
      assert la == [la[0]] + rest;
      SpellsStep(a, la[0], rest);
      SpellsConcat(t[n..], rest, b, lb);
      assert (t + b)[n..] == t[n..] + b;
      assert la + lb == [la[0]] + (rest + lb);
      SpellsStep(a + b, la[0], rest + lb);
    }
  }

  lemma SpellsSpaces(text: bytes)
    requires AllSpaces(text)
    ensures Spells(text, [])
  {
    TrimLeftSpaces(text);
  }

  lemma SpellsOne(t: Tok)
    requires Visible(t)
    ensures Spells(t.text, [t])
  {
    assert TrimLeft(t.text) == t.text;
    assert t.text[|t.text|..] == [];
    assert Spells([], []);
    assert [t][1..] == [];
  }

  // ----- the texts of tokens -----

  predicate IsSign(b: byte) {
    b == PLUS || b == MINUS
  }

  predicate DigitsIn(s: bytes, from: nat, to: nat) {
    from <= to <= |s| && forall i | from <= i < to :: IsDigit(s[i])
  }

  predicate FractionIn(s: bytes, from: nat, to: nat) {
    from == to || (from < to <= |s| && s[from] == DOT && DigitsIn(s, from + 1, to))
  }

  predicate ExponentIn(s: bytes, from: nat, to: nat) {
    from == to ||
    (from < to <= |s| && (s[from] == 101 || s[from] == 69) &&
     (DigitsIn(s, from + 1, to) || (from + 2 <= to && IsSign(s[from + 1]) && DigitsIn(s, from + 2, to))))
  }

  /** From `from` to `to` stand a digit or a sign, then digits, a fraction and an exponent,
      any of which may be empty. */
  predicate NumberIn(s: bytes, from: nat, i: nat, j: nat, to: nat) {
    && from < i <= j <= to <= |s| && (IsDigit(s[from]) || IsSign(s[from]))
    && DigitsIn(s, from + 1, i) && FractionIn(s, i, j) && ExponentIn(s, j, to)
  }

  ghost predicate IsNumberText(text: bytes) {
    exists i, j :: NumberIn(text, 0, i, j, |text|)
  }

  /** A string body that ends where its quote does: every quote and backslash is escaped. */
  predicate ScanSafe(b: bytes, quote: byte) {
    b == [] ||
    (if b[0] == BACKSLASH then |b| >= 2 && ScanSafe(b[2..], quote) else b[0] != quote && ScanSafe(b[1..], quote))
  }

  predicate IsQuote(f: Features, b: byte) {
    b == QUOTE || (f.allowSingleQuotes && b == APOSTROPHE)
  }

  predicate IsStringText(f: Features, text: bytes) {
    |text| >= 2 && IsQuote(f, text[0]) && text[|text| - 1] == text[0] && ScanSafe(text[1..|text| - 1], text[0])
  }

  const NAN_TEXT: bytes := [78, 97, 78]
  const INFINITY_TEXT: bytes := [73, 110, 102, 105, 110, 105, 116, 121]

  predicate IsPlainGap(gap: Gap) {
    gap == Tight || gap == Loose || gap == AtValue
  }

  /** The tokens other than comments and their texts. */
  ghost predicate GoodToken(f: Features, t: Tok) {
    IsPlainGap(t.gap) &&
    match t.kind
    case NumberToken => IsNumberText(t.text)
    case StringToken => IsStringText(f, t.text)
    case TrueToken => t.text == TRUE_TEXT
    case FalseToken => t.text == FALSE_TEXT
    case NullToken => t.text == NULL_TEXT
    case NaNToken => f.allowSpecialFloats && t.text == NAN_TEXT
    case PosInfToken => f.allowSpecialFloats && (t.text == INFINITY_TEXT || t.text == [PLUS] + INFINITY_TEXT)
    case NegInfToken => f.allowSpecialFloats && t.text == [MINUS] + INFINITY_TEXT
    case ArrayBegin => t.text == [LBRACKET]
    case ArrayEnd => t.text == [RBRACKET]
    case ObjectBegin => t.text == [LBRACE]
    case ObjectEnd => t.text == [RBRACE]
    case ArraySeparator => t.text == [COMMA]
    case MemberSeparator => t.text == [COLON]
    case _ => false
  }

  predicate IsCloser(kind: TokenType) {
    kind == ArraySeparator || kind == ArrayEnd || kind == ObjectEnd || kind == MemberSeparator
  }

  /** Good tokens, a number always followed by a comma, a colon or a closing bracket or brace. */
  ghost predicate GoodTokens(f: Features, ts: seq<Tok>) {
    && (forall i | 0 <= i < |ts| :: GoodToken(f, ts[i]))
    && (forall i | 0 <= i < |ts| - 1 && ts[i].kind == NumberToken :: IsCloser(ts[i + 1].kind))
  }

  lemma GoodTokenText(f: Features, t: Tok)
    requires GoodToken(f, t)
    ensures t.text != [] && !IsSpace(t.text[0]) && t.text[0] < 0x80 && t.text[0] != SLASH
  {
    hide ScanSafe, DigitsIn, FractionIn, ExponentIn;
  }

  lemma FirstGood(f: Features, ts: seq<Tok>)
    requires ts != [] && GoodTokens(f, ts)
    ensures GoodToken(f, ts[0])
  {
  }

  lemma GoodConcat(f: Features, a: seq<Tok>, b: seq<Tok>)
    requires GoodTokens(f, a) && GoodTokens(f, b)
    requires a == [] || b == [] || IsCloser(b[0].kind) || a[|a| - 1].kind != NumberToken
    ensures GoodTokens(f, a + b)
  {
    hide GoodToken, IsCloser;
  }

  // ----- strings -----

  lemma {:induction false} ScanSafeString(doc: bytes, pos: nat, body: bytes, quote: byte)
    requires ScanSafe(body, quote) && OccursAt(doc, pos, body + [quote]) && quote != BACKSLASH
    ensures ScanString(doc, pos, quote) == Scan(true, pos + |body| + 1)
    decreases |body|
  {
    var s := body + [quote];
    assert doc[pos] == s[0];
    if body != [] {
      var n := if body[0] == BACKSLASH then 2 else 1;
      assert body[n..] + [quote] == s[n..];
      assert doc[pos + n..pos + |s|] == s[n..];
      ScanSafeString(doc, pos + n, body[n..], quote);
    }
  }

  lemma {:induction false} ScannedString(doc: bytes, pos: nat, quote: byte)
    requires pos <= |doc| && ScanString(doc, pos, quote).ok && quote != BACKSLASH
    ensures var end := ScanString(doc, pos, quote).end;
            pos < end && doc[end - 1] == quote && ScanSafe(doc[pos..end - 1], quote)
    decreases |doc| - pos
  {
    var end := ScanString(doc, pos, quote).end;
    if doc[pos] == quote {
      assert doc[pos..end - 1] == [];
    } else {
      var n := if doc[pos] == BACKSLASH then 2 else 1;
      ScannedString(doc, pos + n, quote);
      assert doc[pos..end - 1][n..] == doc[pos + n..end - 1];
    }
  }

  lemma StringLexes(f: Features, doc: bytes, pos: nat, text: bytes)
    requires IsStringText(f, text) && OccursAt(doc, pos, text)
    ensures LexAt(f, doc, pos) == Token(StringToken, pos, pos + |text|)
  {
    hide ScanString, ScanComment, NumberEnd, ScanWord, LexWord, ScanSafe, LexSigned;
    assert doc[pos] == text[0];
    var body := text[1..|text| - 1];
    assert body + [text[0]] == text[1..];
    assert doc[pos + 1..pos + |text|] == text[1..];
    ScanSafeString(doc, pos + 1, body, text[0]);
  }

  lemma LexedString(f: Features, doc: bytes, pos: nat)
    requires pos < |doc| && LexAt(f, doc, pos).kind == StringToken
    ensures IsStringText(f, TextOf(doc, LexAt(f, doc, pos)))
  {
    hide ScanString, ScanComment, NumberEnd, ScanWord, ScanSafe;
    var end := LexAt(f, doc, pos).end;
    ScannedString(doc, pos + 1, doc[pos]);
    var text := doc[pos..end];
    assert text[0] == doc[pos] && text[|text| - 1] == doc[end - 1];
    BodyOf(doc, LexAt(f, doc, pos));
  }

  // ----- numbers -----

  lemma {:induction false} SkipDigitsTo(doc: bytes, pos: nat, end: nat)
    requires pos <= end <= |doc|
    requires forall i | pos <= i < end :: IsDigit(doc[i])
    requires end < |doc| ==> !IsDigit(doc[end])
    ensures SkipDigits(doc, pos) == end
    decreases end - pos
  {
    if pos < end {
      SkipDigitsTo(doc, pos + 1, end);
    }
  }

  /** The byte after a token does not continue a number. */
  predicate NotNumberAt(doc: bytes, pos: nat) {
    pos < |doc| ==>
      !IsDigit(doc[pos]) && !IsSign(doc[pos]) && doc[pos] != DOT && doc[pos] != 101 && doc[pos] != 69 && doc[pos] != 73
  }

  /** A stretch of a text reads the same where the text occurs in a document. */
  lemma Shifted(text: bytes, doc: bytes, pos: nat, from: nat, to: nat)
    requires OccursAt(doc, pos, text) && from <= to <= |text|
    ensures from < |text| ==> doc[pos + from] == text[from]
    ensures DigitsIn(text, from, to) <==> DigitsIn(doc, pos + from, pos + to)
    ensures FractionIn(text, from, to) <==> FractionIn(doc, pos + from, pos + to)
  {
    forall i | from <= i < |text|
      ensures doc[pos + i] == text[i]
    {
      assert doc[pos..pos + |text|][i] == text[i];
    }
    forall i | pos + from <= i < pos + |text|
      ensures doc[i] == text[i - pos]
    {
      assert doc[pos..pos + |text|][i - pos] == doc[i];
    }
  }

  lemma NumberShifted(text: bytes, doc: bytes, pos: nat, i: nat, j: nat)
    requires OccursAt(doc, pos, text) && 0 < i <= j <= |text|
    ensures NumberIn(text, 0, i, j, |text|) <==> NumberIn(doc, pos, pos + i, pos + j, pos + |text|)
  {
    hide DigitsIn, FractionIn;
    var n := |text|;
    Shifted(text, doc, pos, 0, n);
    Shifted(text, doc, pos, 1, i);
    Shifted(text, doc, pos, i, j);
    Shifted(text, doc, pos, j, n);
    if j < n {
      Shifted(text, doc, pos, j + 1, n);
    }
    if j + 1 < n {
      Shifted(text, doc, pos, j + 2, n);
    }
  }

  lemma FractionTo(doc: bytes, from: nat, to: nat)
    requires from <= to <= |doc| && FractionIn(doc, from, to)
    requires to < |doc| ==> !IsDigit(doc[to]) && doc[to] != DOT
    ensures FractionEnd(doc, from) == to
  {
    hide SkipDigits;
    if from < to {
      SkipDigitsTo(doc, from + 1, to);
    }
  }

  lemma ExponentTo(doc: bytes, from: nat, to: nat)
    requires from <= to <= |doc| && ExponentIn(doc, from, to) && NotNumberAt(doc, to)
    ensures ExponentEnd(doc, from) == to
  {
    hide SkipDigits;
    if from < to {
      SkipDigitsTo(doc, if DigitsIn(doc, from + 1, to) then from + 1 else from + 2, to);
    }
  }

  lemma NumberTo(doc: bytes, pos: nat, i: nat, j: nat, end: nat)
    requires NumberIn(doc, pos, i, j, end) && NotNumberAt(doc, end)
    ensures NumberEnd(doc, pos + 1) == end
    ensures pos + 1 < |doc| ==> doc[pos + 1] != 73
  {
    hide SkipDigits, FractionEnd, ExponentEnd;
    SkipDigitsTo(doc, pos + 1, i);
    FractionTo(doc, i, j);
    ExponentTo(doc, j, end);
  }

  lemma NumberLexes(f: Features, doc: bytes, pos: nat, text: bytes)
    requires IsNumberText(text) && OccursAt(doc, pos, text) && NotNumberAt(doc, pos + |text|)
    ensures LexAt(f, doc, pos) == Token(NumberToken, pos, pos + |text|)
  {
    hide ScanString, ScanComment, NumberEnd, ScanWord, LexWord, DigitsIn, FractionIn, ExponentIn;
    var i, j :| NumberIn(text, 0, i, j, |text|);
    NumberShifted(text, doc, pos, i, j);
    NumberTo(doc, pos, pos + i, pos + j, pos + |text|);
  }

  lemma NumberScanned(doc: bytes, pos: nat) returns (i: nat, j: nat)
    requires pos < |doc| && (IsDigit(doc[pos]) || IsSign(doc[pos]))
    ensures NumberIn(doc, pos, i, j, NumberEnd(doc, pos + 1))
  {
    i := SkipDigits(doc, pos + 1);
    j := FractionEnd(doc, i);
  }

  lemma LexedNumber(f: Features, doc: bytes, pos: nat)
    requires pos < |doc| && LexAt(f, doc, pos).kind == NumberToken
    ensures IsNumberText(TextOf(doc, LexAt(f, doc, pos)))
  {
    hide ScanString, ScanComment, NumberEnd, ScanWord, DigitsIn, FractionIn, ExponentIn;
    var i, j := NumberScanned(doc, pos);
    NumberShifted(TextOf(doc, LexAt(f, doc, pos)), doc, pos, i - pos, j - pos);
  }

  // ----- words and punctuation -----

  predicate IsWordKind(kind: TokenType) {
    kind in {TrueToken, FalseToken, NullToken, NaNToken, PosInfToken, NegInfToken}
  }

  lemma WordLexes(f: Features, doc: bytes, pos: nat, t: Tok)
    requires GoodToken(f, t) && IsWordKind(t.kind) && OccursAt(doc, pos, t.text)
    ensures LexAt(f, doc, pos) == Token(t.kind, pos, pos + |t.text|)
  {
    hide ScanString, ScanComment, NumberEnd, ScanSafe;
    assert doc[pos] == t.text[0];
    if IsSign(doc[pos]) {
      hide LexWord;
      assert doc[pos + 1] == t.text[1];
      assert doc[pos + 2..pos + |t.text|] == t.text[2..] == INFINITY_REST;
    } else {
      hide LexSigned;
      assert doc[pos + 1..pos + |t.text|] == t.text[1..];
      assert OccursAt(doc, pos + 1, t.text[1..]);
    }
  }

  lemma LexedWord(f: Features, doc: bytes, pos: nat)
    requires pos < |doc| && IsWordKind(LexAt(f, doc, pos).kind)
    ensures GoodToken(f, Tok(AtValue, LexAt(f, doc, pos).kind, TextOf(doc, LexAt(f, doc, pos))))
  {
    hide ScanString, ScanComment, NumberEnd, ScanSafe, IsNumberText, IsStringText;
    var t := LexAt(f, doc, pos);
    if IsSign(doc[pos]) {
      SignedText(f, doc, pos);
    } else {
      WordText(f, doc, pos);
    }
  }

  lemma SignedText(f: Features, doc: bytes, pos: nat)
    requires pos < |doc| && IsSign(doc[pos]) && IsWordKind(LexAt(f, doc, pos).kind)
    ensures var t := LexAt(f, doc, pos);
            && t.kind == (if doc[pos] == PLUS then PosInfToken else NegInfToken)
            && f.allowSpecialFloats && TextOf(doc, t) == [doc[pos]] + INFINITY_TEXT
  {
    hide ScanString, ScanComment, NumberEnd, LexWord;
    var t := LexAt(f, doc, pos);
    assert TextOf(doc, t) == [doc[pos], doc[pos + 1]] + doc[pos + 2..t.end];
    assert [doc[pos + 1]] + INFINITY_REST == INFINITY_TEXT;
    assert [doc[pos], doc[pos + 1]] + INFINITY_REST == [doc[pos]] + ([doc[pos + 1]] + INFINITY_REST);
  }

  lemma WordText(f: Features, doc: bytes, pos: nat)
    requires pos < |doc| && !IsSign(doc[pos]) && IsWordKind(LexAt(f, doc, pos).kind)
    ensures GoodToken(f, Tok(AtValue, LexAt(f, doc, pos).kind, TextOf(doc, LexAt(f, doc, pos))))
  {
    hide ScanString, ScanComment, NumberEnd, ScanSafe, IsNumberText, IsStringText, LexSigned;
    var t := LexAt(f, doc, pos);
    assert TextOf(doc, t) == [doc[pos]] + doc[pos + 1..t.end];
    WordTails();
  }

  lemma WordTails()
    ensures [116] + TRUE_TEXT[1..] == TRUE_TEXT && [102] + FALSE_TEXT[1..] == FALSE_TEXT
    ensures [110] + NULL_TEXT[1..] == NULL_TEXT && [78] + NAN_REST == NAN_TEXT && [73] + INFINITY_REST == INFINITY_TEXT
  {
  }

  predicate IsPunctuation(kind: TokenType) {
    kind in {ArrayBegin, ArrayEnd, ObjectBegin, ObjectEnd, ArraySeparator, MemberSeparator}
  }

  lemma PunctuationLexes(f: Features, doc: bytes, pos: nat, t: Tok)
    requires GoodToken(f, t) && IsPunctuation(t.kind) && OccursAt(doc, pos, t.text)
    ensures LexAt(f, doc, pos) == Token(t.kind, pos, pos + |t.text|)
  {
    hide ScanString, ScanComment, NumberEnd, ScanWord, LexWord, ScanSafe, LexSigned;
    assert doc[pos] == t.text[0];
  }

  /** The text of a token lexes as that token wherever it stands. */
  lemma TokenLexes(f: Features, doc: bytes, pos: nat, t: Tok)
    requires GoodToken(f, t) && OccursAt(doc, pos, t.text)
    requires t.kind == NumberToken ==> NotNumberAt(doc, pos + |t.text|)
    ensures t.text != [] && LexAt(f, doc, pos) == Token(t.kind, pos, pos + |t.text|)
  {
    GoodTokenText(f, t);
    if t.kind == NumberToken {
      NumberLexes(f, doc, pos, t.text);
    } else if t.kind == StringToken {
      StringLexes(f, doc, pos, t.text);
    } else if IsWordKind(t.kind) {
      WordLexes(f, doc, pos, t);
    } else {
      PunctuationLexes(f, doc, pos, t);
    }
  }

  /** Whatever is lexed without error has the text of its token, behind white space only. */
  lemma LexedText(f: Features, doc: bytes, pos: nat)
    requires pos <= |doc|
    ensures var t := Lex(f, doc, pos);
            && (forall i | pos <= i < t.start :: IsSpace(doc[i]))
            && (t.kind !in {EndOfStream, CommentToken, ErrorToken} ==> GoodToken(f, Tok(AtValue, t.kind, TextOf(doc, t))))
  {
    LexedPunctuation(f, doc, pos);
    var p := SkipSpaces(doc, pos);
    hide LexAt;
    if p < |doc| {
      var kind := LexAt(f, doc, p).kind;
      if kind == NumberToken {
        LexedNumber(f, doc, p);
      } else if kind == StringToken {
        LexedString(f, doc, p);
      } else if IsWordKind(kind) {
        LexedWord(f, doc, p);
      }
    }
  }

  // ----- lexing a spelled text -----

  lemma {:induction false} TrimLeftAt(doc: bytes, pos: nat)
    requires pos <= |doc|
    ensures TrimLeft(doc[pos..]) == doc[SkipSpaces(doc, pos)..]
    decreases |doc| - pos
  {
    if pos < |doc| && IsSpace(doc[pos]) {
      TrimLeftAt(doc, pos + 1);
      assert doc[pos..][1..] == doc[pos + 1..];
    }
  }

  /** What follows a number in a spelled text does not continue it. */
  lemma AfterNumber(f: Features, doc: bytes, pos: nat, ts: seq<Tok>)
    requires pos <= |doc| && Spells(doc[pos..], ts) && GoodTokens(f, ts)
    requires ts != [] ==> IsCloser(ts[0].kind)
    ensures NotNumberAt(doc, pos)
  {
    TrimLeftAt(doc, pos);
    var p := SkipSpaces(doc, pos);
    if ts != [] && p == pos && pos < |doc| {
      assert GoodToken(f, ts[0]);
      assert ts[0].text <= doc[pos..];
      assert doc[pos] == ts[0].text[0];
    }
  }

  lemma SpelledTail(doc: bytes, pos: nat, ts: seq<Tok>)
    requires pos <= |doc| && ts != [] && Spells(doc[pos..], ts)
    ensures var p, n := SkipSpaces(doc, pos), |ts[0].text|;
            OccursAt(doc, p, ts[0].text) && Spells(doc[p + n..], ts[1..])
  {
    TrimLeftAt(doc, pos);
    SpellsUnfold(doc[pos..], ts);
    hide TrimLeft, SkipSpaces, Spells;
    var p, n := SkipSpaces(doc, pos), |ts[0].text|;
    assert doc[p..p + n] == doc[p..][..n];
    assert doc[p..][n..] == doc[p + n..];
  }

  lemma SpellsUnfold(text: bytes, ts: seq<Tok>)
    requires ts != [] && Spells(text, ts)
    ensures ts[0].text <= TrimLeft(text) && Spells(TrimLeft(text)[|ts[0].text|..], ts[1..])
  {
  }

  lemma SpelledFirst(f: Features, doc: bytes, pos: nat, ts: seq<Tok>)
    requires pos <= |doc| && ts != [] && Spells(doc[pos..], ts) && GoodTokens(f, ts)
    ensures var p, n := SkipSpaces(doc, pos), |ts[0].text|;
            && Lex(f, doc, pos) == Token(ts[0].kind, p, p + n)
            && TextOf(doc, Lex(f, doc, pos)) == ts[0].text
            && Spells(doc[p + n..], ts[1..]) && GoodTokens(f, ts[1..])
  {
    hide GoodToken, LexAt, IsCloser, Spells;
    SpelledTail(doc, pos, ts);
    var p, n := SkipSpaces(doc, pos), |ts[0].text|;
    if ts[0].kind == NumberToken {
      AfterNumber(f, doc, p + n, ts[1..]);
    }
    TokenLexes(f, doc, p, ts[0]);
  }

  /** A token that is not behind a comment is the next one for every plain gap. */
  lemma NextPlain(f: Features, doc: bytes, pos: nat, t: Tok)
    requires pos <= |doc| && GoodToken(f, t)
    requires Lex(f, doc, pos).kind == t.kind && TextOf(doc, Lex(f, doc, pos)) == t.text
    ensures Next(f, doc, pos, t) && LexFor(f, t.gap, doc, pos) == Lex(f, doc, pos)
  {
    hide Lex, IsNumberText, IsStringText;
  }

  /** A spelled text lexes to its tokens, with only white space after them. */
  lemma {:induction false} SpelledReads(f: Features, doc: bytes, pos: nat, ts: seq<Tok>) returns (fin: nat)
    requires pos <= |doc| && Spells(doc[pos..], ts) && GoodTokens(f, ts)
    ensures Reads(f, doc, pos, ts, fin)
    ensures fin <= |doc| && SkipSpaces(doc, fin) == |doc|
    decreases |ts|
  {
    hide GoodTokens, Lex;
    if ts == [] {
      fin := pos;
      TrimLeftAt(doc, pos);
    } else {
      SpelledFirst(f, doc, pos, ts);
      assert GoodToken(f, ts[0]) by { FirstGood(f, ts); }
      NextPlain(f, doc, pos, ts[0]);
      hide Spells, SkipSpaces, Next, LexFor;
      fin := SpelledReads(f, doc, Lex(f, doc, pos).end, ts[1..]);
    }
  }

  // ----- what the writers quote and print -----

  lemma {:induction false} ScanSafeConcat(a: bytes, b: bytes)
    requires ScanSafe(a, QUOTE) && ScanSafe(b, QUOTE)
    ensures ScanSafe(a + b, QUOTE)
    decreases |a|
  {
    if a == [] {
      assert a + b == b;
    } else {
      var n := if a[0] == BACKSLASH then 2 else 1;
      ScanSafeConcat(a[n..], b);
      assert (a + b)[n..] == a[n..] + b;
    }
  }

  lemma {:induction false} PlainScanSafe(b: bytes)
    requires forall i | 0 <= i < |b| :: b[i] != QUOTE && b[i] != BACKSLASH
    ensures ScanSafe(b, QUOTE)
  {
    if b != [] {
      PlainScanSafe(b[1..]);
    }
  }

  lemma HexScanSafe(digits: bytes)
    requires IsHex(digits)
    ensures ScanSafe([BACKSLASH, 117] + digits, QUOTE)
  {
    PlainScanSafe(digits) by {
      assert QUOTE !in HexDigits() && BACKSLASH !in HexDigits();
      hide HexDigits;
    }
    assert ([BACKSLASH, 117] + digits)[2..] == digits;
  }

  lemma PartScanSafe(p: Part)
    requires IsPart(p)
    ensures ScanSafe(PartText(p), QUOTE)
  {
    hide HexDigits, HexNumber, IsHex, Letters;
    match p {
      case Raw(b) => assert PartText(p)[1..] == [];
      case Letter(letter) => assert PartText(p)[2..] == [];
      case Unicode(digits) => HexScanSafe(digits);
      case Pair(high, low) =>
        HexScanSafe(high);
        HexScanSafe(low);
        ScanSafeConcat([BACKSLASH, 117] + high, [BACKSLASH, 117] + low);
        assert PartText(p) == ([BACKSLASH, 117] + high) + ([BACKSLASH, 117] + low);
    }
  }

  lemma {:induction false} PartsScanSafe(ps: seq<Part>)
    requires AreParts(ps)
    ensures ScanSafe(PartsText(ps), QUOTE)
  {
    hide IsPart, PartText, ScanSafe;
    if ps == [] {
      PlainScanSafe(PartsText(ps));
    } else {
      PartScanSafe(ps[0]);
      PartsScanSafe(ps[1..]);
      ScanSafeConcat(PartText(ps[0]), PartsText(ps[1..]));
    }
  }

  /** A string literal of parts between double quotes is one string token. */
  lemma PartsStringText(f: Features, ps: seq<Part>)
    requires AreParts(ps)
    ensures IsStringText(f, [QUOTE] + PartsText(ps) + [QUOTE])
  {
    hide ScanSafe, AreParts, PartsText;
    PartsScanSafe(ps);
    var q := [QUOTE] + PartsText(ps) + [QUOTE];
    assert q[1..|q| - 1] == PartsText(ps);
  }

  lemma QuoteText(f: Features, s: bytes, emitUtf8: bool)
    ensures IsStringText(f, Quote(s, emitUtf8))
  {
    hide IsStringText, QuoteBody, AreParts, PartsText, PartsMeaning;
    var ps := QuotedParts(s, emitUtf8);
    PartsStringText(f, ps);
  }

  lemma IntegerText(n: int)
    ensures IsNumberText(JsonNumber.IntText(n))
  {
    var text := JsonNumber.IntText(n);
    JsonNumber.DecimalDenotes(if n < 0 then -n else n);
    var digits := JsonNumber.Decimal(if n < 0 then -n else n);
    hide JsonNumber.Decimal;
    assert forall i | 0 <= i < |digits| :: IsDigit(digits[i]);
    assert NumberIn(text, 0, |text|, |text|, |text|);
  }
}
