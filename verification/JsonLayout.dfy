/**
 Comments: where one ends, and that white space and comments change nothing in the places
 where the reader skips them.
 */
module JsonLayout {
  import opened Bytes
  import opened JsonLexer
  import opened JsonReader
  import opened JsonSyntax
  import opened JsonGrammar
  import opened JsonSpelling

  // ----- where comments end -----

  predicate IsLineEnd(b: byte) {
    b == LF || b == CR
  }

  /** A line comment ends behind the first line end, a two-byte one included, or with the
      document. */
  lemma {:induction false} LineCommentEnd(doc: bytes, pos: nat, k: nat)
    requires pos <= k <= |doc| && forall i | pos <= i < k :: !IsLineEnd(doc[i])
    requires k < |doc| ==> IsLineEnd(doc[k])
    ensures CppStyleEnd(doc, pos) ==
            if k == |doc| then k else if doc[k] == CR && k + 1 < |doc| && doc[k + 1] == LF then k + 2 else k + 1
    decreases k - pos
  {
    if pos < k {
      LineCommentEnd(doc, pos + 1, k);
    }
  }

  predicate ClosesAt(doc: bytes, i: nat) {
    i + 1 < |doc| && doc[i] == STAR && doc[i + 1] == SLASH
  }

  /** A block comment ends behind the first closing marker. */
  lemma {:induction false} BlockCommentEnd(doc: bytes, pos: nat, k: nat)
    requires pos <= k && ClosesAt(doc, k) && forall i | pos <= i < k :: !ClosesAt(doc, i)
    ensures ScanCStyle(doc, pos) == Scan(true, k + 2)
    decreases k - pos
  {
    if pos < k {
      assert !ClosesAt(doc, pos);
      BlockCommentEnd(doc, pos + 1, k);
    }
  }

  /** Without a closing marker it takes the rest of the document, and passes only if that
      ends in a slash. */
  lemma {:induction false} UnclosedComment(doc: bytes, pos: nat)
    requires pos <= |doc| && forall i | pos <= i < |doc| :: !ClosesAt(doc, i)
    ensures ScanCStyle(doc, pos) == Scan(pos < |doc| && doc[|doc| - 1] == SLASH, |doc|)
    decreases |doc| - pos
  {
    if pos + 1 < |doc| {
      assert !ClosesAt(doc, pos);
      UnclosedComment(doc, pos + 1);
    }
  }

  // ----- white space and comments -----

  datatype Trivia = Space(b: byte) | LineComment(body: bytes, end: bytes) | BlockComment(body: bytes)

  predicate IsTrivia(t: Trivia) {
    match t
    case Space(b) => IsSpace(b)
    case LineComment(body, end) =>
      (forall i | 0 <= i < |body| :: !IsLineEnd(body[i])) && end in {[LF], [CR], [CR, LF]}
    case BlockComment(body) => forall i | 0 <= i < |body| :: !ClosesAt(body, i)
  }

  function TriviaText(t: Trivia): bytes {
    match t
    case Space(b) => [b]
    case LineComment(body, end) => [SLASH, SLASH] + body + end
    case BlockComment(body) => [SLASH, STAR] + body + [STAR, SLASH]
  }

  function GapText(ts: seq<Trivia>): bytes {
    if ts == [] then [] else TriviaText(ts[0]) + GapText(ts[1..])
  }

  predicate OnlyTrivia(ts: seq<Trivia>) {
    forall i | 0 <= i < |ts| :: IsTrivia(ts[i])
  }

  predicate OnlySpaces(ts: seq<Trivia>) {
    forall i | 0 <= i < |ts| :: ts[i].Space? && IsTrivia(ts[i])
  }

  /** Lexing past comments depends only on what follows the white space. */
  lemma SameStart(f: Features, doc: bytes, p: nat, q: nat)
    requires p <= |doc| && q <= |doc| && SkipSpaces(doc, p) == SkipSpaces(doc, q)
    ensures Lex(f, doc, p) == Lex(f, doc, q) && LexPastComments(f, doc, p) == LexPastComments(f, doc, q)
  {
    hide LexAt, SkipSpaces;
  }

  lemma OccursPart(doc: bytes, pos: nat, a: bytes, b: bytes)
    requires OccursAt(doc, pos, a + b)
    ensures OccursAt(doc, pos, a) && OccursAt(doc, pos + |a|, b)
  {
    var whole := doc[pos..pos + |a| + |b|];
    assert whole[..|a|] == a && whole[|a|..] == b;
    assert doc[pos..pos + |a|] == whole[..|a|];
    assert doc[pos + |a|..pos + |a| + |b|] == whole[|a|..];
  }

  lemma OccursByte(doc: bytes, pos: nat, text: bytes)
    requires OccursAt(doc, pos, text)
    ensures forall i | pos <= i < pos + |text| :: doc[i] == text[i - pos]
  {
    assert forall i | pos <= i < pos + |text| :: doc[pos..pos + |text|][i - pos] == doc[i];
  }

  /** The opening, the body and the end of a comment. */
  lemma CommentParts(doc: bytes, pos: nat, open: bytes, body: bytes, close: bytes)
    requires |open| == 2 && close != [] && OccursAt(doc, pos, open + body + close)
    ensures var k := pos + 2 + |body|;
            && k + |close| <= |doc| && doc[pos] == open[0] && doc[pos + 1] == open[1] && doc[k] == close[0]
            && (forall i | pos + 2 <= i < k :: doc[i] == body[i - pos - 2])
            && (|close| == 2 ==> doc[k + 1] == close[1])
  {
    OccursPart(doc, pos, open + body, close);
    OccursPart(doc, pos, open, body);
    OccursByte(doc, pos, open);
    OccursByte(doc, pos + 2, body);
    OccursByte(doc, pos + 2 + |body|, close);
  }

  lemma LineLexes(doc: bytes, pos: nat, t: Trivia)
    requires t.LineComment? && IsTrivia(t) && OccursAt(doc, pos, TriviaText(t))
    ensures doc[pos] == SLASH && ScanComment(doc, pos + 1).ok
    ensures SkipSpaces(doc, ScanComment(doc, pos + 1).end) == SkipSpaces(doc, pos + |TriviaText(t)|)
  {
    CommentParts(doc, pos, [SLASH, SLASH], t.body, t.end);
    var k := pos + 2 + |t.body|;
    hide CppStyleEnd, OccursAt, SkipSpaces;
    LineCommentEnd(doc, pos + 2, k);
    LineRest(doc, k, t.end);
  }

  lemma LineRest(doc: bytes, k: nat, end: bytes)
    requires end in {[LF], [CR], [CR, LF]} && k + |end| <= |doc|
    requires doc[k] == end[0] && (|end| == 2 ==> doc[k + 1] == end[1])
    ensures SkipSpaces(doc, if doc[k] == CR && k + 1 < |doc| && doc[k + 1] == LF then k + 2 else k + 1)
         == SkipSpaces(doc, k + |end|)
  {
  }

  lemma BlockLexes(doc: bytes, pos: nat, t: Trivia)
    requires t.BlockComment? && IsTrivia(t) && OccursAt(doc, pos, TriviaText(t))
    ensures doc[pos] == SLASH && ScanComment(doc, pos + 1) == Scan(true, pos + |TriviaText(t)|)
  {
    CommentParts(doc, pos, [SLASH, STAR], t.body, [STAR, SLASH]);
    var k := pos + 2 + |t.body|;
    forall i | pos + 2 <= i < k
      ensures !ClosesAt(doc, i)
    {
      assert !ClosesAt(t.body, i - pos - 2);
      assert i + 1 < k ==> doc[i + 1] == t.body[i + 1 - pos - 2];
    }
    hide ScanCStyle;
    BlockCommentEnd(doc, pos + 2, k);
  }

  /** A comment lexes as a comment token, with nothing left of it but white space. */
  lemma CommentLexes(f: Features, doc: bytes, pos: nat, t: Trivia)
    requires !t.Space? && IsTrivia(t) && OccursAt(doc, pos, TriviaText(t))
    ensures Lex(f, doc, pos).kind == CommentToken
    ensures SkipSpaces(doc, Lex(f, doc, pos).end) == SkipSpaces(doc, pos + |TriviaText(t)|)
  {
    if t.LineComment? {
      LineLexes(doc, pos, t);
    } else {
      BlockLexes(doc, pos, t);
    }
    hide ScanComment, TriviaText;
    assert SkipSpaces(doc, pos) == pos;
  }

  lemma TriviaSkipped(f: Features, doc: bytes, pos: nat, t: Trivia)
    requires IsTrivia(t) && OccursAt(doc, pos, TriviaText(t))
    ensures LexPastComments(f, doc, pos) == LexPastComments(f, doc, pos + |TriviaText(t)|)
    ensures t.Space? ==> Lex(f, doc, pos) == Lex(f, doc, pos + |TriviaText(t)|)
  {
    if t.Space? {
      assert doc[pos] == doc[pos..pos + 1][0] == t.b;
      SameStart(f, doc, pos, pos + 1);
    } else {
      CommentLexes(f, doc, pos, t);
      hide Lex, TriviaText;
      SameStart(f, doc, Lex(f, doc, pos).end, pos + |TriviaText(t)|);
    }
  }

  /** White space and comments change nothing where comments are skipped, and white space
      nowhere. */
  lemma {:induction false} GapSkipped(f: Features, doc: bytes, pos: nat, ts: seq<Trivia>)
    requires OnlyTrivia(ts) && OccursAt(doc, pos, GapText(ts))
    ensures LexPastComments(f, doc, pos) == LexPastComments(f, doc, pos + |GapText(ts)|)
    ensures OnlySpaces(ts) ==> Lex(f, doc, pos) == Lex(f, doc, pos + |GapText(ts)|)
    decreases |ts|
  {
    hide IsTrivia, TriviaText, Lex, LexPastComments;
    if ts != [] {
      OccursPart(doc, pos, TriviaText(ts[0]), GapText(ts[1..]));
      TriviaSkipped(f, doc, pos, ts[0]);
      GapSkipped(f, doc, pos + |TriviaText(ts[0])|, ts[1..]);
    }
  }

  // ----- documents laid out -----

  /** What may stand before a token. */
  predicate Suits(f: Features, gap: Gap, ts: seq<Trivia>) {
    OnlyTrivia(ts) && (gap == Tight || (gap == AtValue && !f.allowComments) ==> OnlySpaces(ts))
  }

  /** One gap before each token and one at the end. */
  predicate Laid(f: Features, ts: seq<Tok>, gaps: seq<seq<Trivia>>) {
    && |gaps| == |ts| + 1 && Suits(f, AtValue, gaps[|ts|])
    && forall i | 0 <= i < |ts| :: Suits(f, ts[i].gap, gaps[i])
  }

  function LaidText(ts: seq<Tok>, gaps: seq<seq<Trivia>>): bytes
    requires |gaps| == |ts| + 1
  {
    if ts == [] then GapText(gaps[0]) else GapText(gaps[0]) + (ts[0].text + LaidText(ts[1..], gaps[1..]))
  }

  /** A gap begins with white space or a slash. */
  lemma GapStart(ts: seq<Trivia>)
    requires OnlyTrivia(ts)
    ensures GapText(ts) != [] ==> IsSpace(GapText(ts)[0]) || GapText(ts)[0] == SLASH
  {
    if ts != [] {
      assert IsTrivia(ts[0]);
      assert TriviaText(ts[0]) != [];
    }
  }

  lemma LaidStart(f: Features, ts: seq<Tok>, gaps: seq<seq<Trivia>>)
    requires Laid(f, ts, gaps) && GoodTokens(f, ts)
    ensures var text := LaidText(ts, gaps);
            text != [] ==> IsSpace(text[0]) || text[0] == SLASH || (ts != [] && ts[0].text != [] && text[0] == ts[0].text[0])
  {
    hide IsTrivia, GapText, GoodToken;
    GapStart(gaps[0]);
    if ts != [] {
      GoodTokenText(f, ts[0]);
    }
  }

  lemma CloserStart(f: Features, t: Tok)
    requires GoodToken(f, t) && IsCloser(t.kind)
    ensures t.text != [] && NotNumberAt(t.text, 0)
  {
  }

  /** What follows a number in a laid out document does not continue it. */
  lemma AfterNumberLaid(f: Features, doc: bytes, pos: nat, ts: seq<Tok>, gaps: seq<seq<Trivia>>)
    requires pos <= |doc| && Laid(f, ts, gaps) && GoodTokens(f, ts) && doc[pos..] == LaidText(ts, gaps)
    requires ts != [] ==> IsCloser(ts[0].kind)
    ensures NotNumberAt(doc, pos)
  {
    hide LaidText, Laid, GoodToken;
    LaidStart(f, ts, gaps);
    if pos < |doc| {
      assert doc[pos] == doc[pos..][0];
      if ts != [] {
        CloserStart(f, ts[0]);
      }
    }
  }

  lemma LaidFirst(f: Features, doc: bytes, pos: nat, ts: seq<Tok>, gaps: seq<seq<Trivia>>)
    requires pos <= |doc| && |gaps| == |ts| + 1 && doc[pos..] == LaidText(ts, gaps)
    requires ts != [] && Laid(f, ts, gaps) && GoodTokens(f, ts)
    ensures var p := pos + |GapText(gaps[0])|;
            && OccursAt(doc, pos, GapText(gaps[0])) && OccursAt(doc, p, ts[0].text) && p + |ts[0].text| <= |doc|
            && doc[p + |ts[0].text|..] == LaidText(ts[1..], gaps[1..])
            && Laid(f, ts[1..], gaps[1..]) && GoodTokens(f, ts[1..])
  {
    hide Suits, GapText, GoodToken;
    var g, t, rest := GapText(gaps[0]), ts[0].text, LaidText(ts[1..], gaps[1..]);
    assert OccursAt(doc, pos, g + (t + rest)) by { assert doc[pos..] == doc[pos..|doc|]; }
    OccursPart(doc, pos, g, t + rest);
    OccursPart(doc, pos + |g|, t, rest);
  }

  /** The first token of a laid out document is read as such. */
  lemma LaidNext(f: Features, doc: bytes, pos: nat, ts: seq<Tok>, gaps: seq<seq<Trivia>>)
    requires pos <= |doc| && |gaps| == |ts| + 1 && doc[pos..] == LaidText(ts, gaps)
    requires ts != [] && Laid(f, ts, gaps) && GoodTokens(f, ts)
    ensures Next(f, doc, pos, ts[0])
    ensures LexFor(f, ts[0].gap, doc, pos).end == pos + |GapText(gaps[0])| + |ts[0].text|
  {
    hide *;
    LaidFirst(f, doc, pos, ts, gaps);
    FirstGood(f, ts);
    var t, p := ts[0], pos + |GapText(gaps[0])|;
    if t.kind == NumberToken {
      NumberFollowed(f, ts);
      AfterNumberLaid(f, doc, p + |t.text|, ts[1..], gaps[1..]);
    }
    TokenAt(f, doc, p, t);
    NextPlain(f, doc, p, t);
    SuitsFirst(f, ts, gaps);
    GapSkipped(f, doc, pos, gaps[0]);
    NextMoved(f, doc, pos, p, t, gaps[0]);
  }

  lemma NumberFollowed(f: Features, ts: seq<Tok>)
    requires ts != [] && GoodTokens(f, ts) && ts[0].kind == NumberToken
    ensures ts[1..] != [] ==> IsCloser(ts[1..][0].kind)
  {
  }

  lemma SuitsFirst(f: Features, ts: seq<Tok>, gaps: seq<seq<Trivia>>)
    requires ts != [] && Laid(f, ts, gaps)
    ensures Suits(f, ts[0].gap, gaps[0]) && OnlyTrivia(gaps[0])
  {
  }

  lemma TokenAt(f: Features, doc: bytes, p: nat, t: Tok)
    requires GoodToken(f, t) && OccursAt(doc, p, t.text)
    requires t.kind == NumberToken ==> NotNumberAt(doc, p + |t.text|)
    ensures Lex(f, doc, p) == Token(t.kind, p, p + |t.text|) && TextOf(doc, Lex(f, doc, p)) == t.text
  {
    GoodTokenText(f, t);
    TokenLexes(f, doc, p, t);
    hide LexAt, GoodToken;
    assert doc[p] == doc[p..p + |t.text|][0] == t.text[0];
  }

  lemma NextMoved(f: Features, doc: bytes, pos: nat, p: nat, t: Tok, gap: seq<Trivia>)
    requires pos <= |doc| && p <= |doc| && GoodToken(f, t) && Suits(f, t.gap, gap) && Next(f, doc, p, t)
    requires LexPastComments(f, doc, pos) == LexPastComments(f, doc, p)
    requires OnlySpaces(gap) ==> Lex(f, doc, pos) == Lex(f, doc, p)
    ensures Next(f, doc, pos, t) && LexFor(f, t.gap, doc, pos) == LexFor(f, t.gap, doc, p)
  {
    hide Lex, LexPastComments, OnlySpaces;
  }

  lemma {:induction false} LaidReads(f: Features, doc: bytes, pos: nat, ts: seq<Tok>, gaps: seq<seq<Trivia>>)
    returns (fin: nat)
    requires pos <= |doc| && Laid(f, ts, gaps) && GoodTokens(f, ts) && doc[pos..] == LaidText(ts, gaps)
    ensures Reads(f, doc, pos, ts, fin) && fin <= |doc| && LexValueStart(f, doc, fin).kind == EndOfStream
    decreases |ts|
  {
    hide Next, LexFor, GoodTokens, GapText, LexValueStart, Suits;
    if ts == [] {
      fin := pos;
      EndReached(f, doc, pos, gaps[0]);
    } else {
      LaidNext(f, doc, pos, ts, gaps);
      LaidFirst(f, doc, pos, ts, gaps);
      hide Laid, LaidText;
      fin := LaidReads(f, doc, LexFor(f, ts[0].gap, doc, pos).end, ts[1..], gaps[1..]);
    }
  }

  lemma EndReached(f: Features, doc: bytes, pos: nat, gap: seq<Trivia>)
    requires pos <= |doc| && Suits(f, AtValue, gap) && doc[pos..] == GapText(gap)
    ensures LexValueStart(f, doc, pos).kind == EndOfStream
  {
    hide GapText, OnlySpaces;
    assert OccursAt(doc, pos, GapText(gap)) by { assert doc[pos..] == doc[pos..|doc|]; }
    GapSkipped(f, doc, pos, gap);
  }
}
