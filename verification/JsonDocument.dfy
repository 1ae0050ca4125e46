/**
 The document theorem: any text that spells an admissible tree, laid out with white space
 anywhere and comments where the reader skips them, parses to what the tree means, under
 every setting that admits its depth and its root; the stack limit is exact.
 */
module JsonDocument {
  import opened Bytes
  import opened JsonLexer
  import opened JsonString
  import opened JsonValue
  import opened JsonReader
  import opened JsonSyntax
  import opened JsonGrammar
  import opened JsonTokens
  import opened JsonSpelling
  import opened JsonLayout
  import JsonNumber

  // ----- trees whose tokens lex as themselves -----

  predicate IsNameKind(kind: TokenType) {
    kind == StringToken || kind == NumberToken
  }

  ghost predicate SpelledName(f: Features, x: Entry) {
    IsNameKind(x.kind) && GoodToken(f, Tok(Loose, x.kind, x.text)) && x.comma == COMMA_TOK
  }

  /** Every leaf and every name has the text of its token, and commas separate members. */
  ghost predicate Spellable(f: Features, n: Node)
    decreases n, 1
  {
    match n
    case Leaf(kind, text) => IsLeafKind(kind) && GoodToken(f, Tok(AtValue, kind, text))
    case Missing(_, _) => false
    case List(nodes, _) => NodesSpellable(f, nodes)
    case Dict(entries, _) => EntriesSpellable(f, entries)
  }

  ghost predicate NodesSpellable(f: Features, nodes: seq<Node>)
    decreases nodes, 0
  {
    nodes == [] || (Spellable(f, nodes[0]) && NodesSpellable(f, nodes[1..]))
  }

  ghost predicate EntriesSpellable(f: Features, entries: seq<Entry>)
    decreases entries, 0
  {
    entries == [] || (SpelledName(f, entries[0]) && Spellable(f, entries[0].node) && EntriesSpellable(f, entries[1..]))
  }

  lemma SingleGood(f: Features, t: Tok)
    requires GoodToken(f, t)
    ensures GoodTokens(f, [t])
  {
  }

  /** A token that is no number in front of good tokens. */
  lemma GoodCons(f: Features, t: Tok, ts: seq<Tok>)
    requires GoodToken(f, t) && GoodTokens(f, ts)
    requires t.kind != NumberToken || (ts != [] && IsCloser(ts[0].kind))
    ensures GoodTokens(f, [t] + ts)
  {
    hide GoodToken, GoodTokens;
    SingleGood(f, t);
    GoodConcat(f, [t], ts);
  }

  lemma PunctuationGood(f: Features)
    ensures GoodToken(f, OPEN_BRACKET) && GoodToken(f, CLOSE_BRACKET) && GoodToken(f, EMPTY_BRACKET)
    ensures GoodToken(f, OPEN_BRACE) && GoodToken(f, CLOSE_BRACE) && GoodToken(f, COMMA_TOK) && GoodToken(f, COLON_TOK)
  {
  }

  lemma {:induction false} NodeTokensGood(f: Features, n: Node)
    requires Spellable(f, n)
    ensures GoodTokens(f, NodeTokens(n))
    decreases n, 1
  {
    hide GoodToken, GoodTokens;
    PunctuationGood(f);
    match n {
      case Leaf(kind, text) =>
        SingleGood(f, Tok(AtValue, kind, text));
      case List(nodes, trailing) =>
        NodesTokensGood(f, nodes, trailing);
        GoodCons(f, OPEN_BRACKET, NodesTokens(nodes, trailing));
      case Dict(entries, trailing) =>
        EntriesTokensGood(f, entries, trailing);
        GoodCons(f, OPEN_BRACE, EntriesTokens(entries, trailing));
    }
  }

  lemma {:induction false} NodesTokensGood(f: Features, nodes: seq<Node>, trailing: bool)
    requires NodesSpellable(f, nodes)
    ensures GoodTokens(f, NodesTokens(nodes, trailing))
    decreases nodes, 0
  {
    hide GoodToken, GoodTokens, NodeTokens, Spellable;
    PunctuationGood(f);
    if nodes == [] {
      SingleGood(f, EMPTY_BRACKET);
    } else {
      NodeTokensGood(f, nodes[0]);
      NodesTokensGood(f, nodes[1..], trailing);
      SingleGood(f, CLOSE_BRACKET);
      GoodCons(f, COMMA_TOK, NodesTokens(nodes[1..], trailing));
      GoodConcat(f, NodeTokens(nodes[0]), MoreNodes(nodes[1..], trailing));
    }
  }

  lemma {:induction false} EntriesTokensGood(f: Features, entries: seq<Entry>, trailing: bool)
    requires EntriesSpellable(f, entries)
    ensures GoodTokens(f, EntriesTokens(entries, trailing))
    decreases entries, 0
  {
    hide GoodToken, GoodTokens, NodeTokens, Spellable;
    PunctuationGood(f);
    if entries == [] {
      SingleGood(f, CLOSE_BRACE);
    } else {
      var x, rest := entries[0], MoreEntries(entries[0].comma, entries[1..], trailing);
      NodeTokensGood(f, x.node);
      EntriesTokensGood(f, entries[1..], trailing);
      SingleGood(f, CLOSE_BRACE);
      GoodCons(f, COMMA_TOK, EntriesTokens(entries[1..], trailing));
      GoodConcat(f, NodeTokens(x.node), rest);
      GoodCons(f, COLON_TOK, NodeTokens(x.node) + rest);
      GoodCons(f, Tok(Loose, x.kind, x.text), [COLON_TOK] + (NodeTokens(x.node) + rest));
    }
  }

  // ----- the tokens of a value -----

  lemma ScalarSpellable(f: Features, v: Value, emitUtf8: bool)
    requires Printable(v, emitUtf8) && !v.Array? && !v.Object?
    ensures Spellable(f, NodeOf(v, emitUtf8))
  {
    hide IsNumberText, IsStringText, Quote, JsonNumber.IntText;
    match v {
      case Int(i) => IntegerText(i);
      case UInt(u) => IntegerText(u);
      case Str(s) => QuoteText(f, s, emitUtf8);
      case _ =>
    }
  }

  lemma {:induction false} ValueSpellable(f: Features, v: Value, emitUtf8: bool)
    requires Printable(v, emitUtf8)
    ensures Spellable(f, NodeOf(v, emitUtf8))
    decreases v, 1
  {
    PrintableParts(v, emitUtf8);
    if v.Array? {
      ItemsSpellable(f, v.items, emitUtf8);
    } else if v.Object? {
      MembersSpellable(f, v.members, emitUtf8);
    } else {
      ScalarSpellable(f, v, emitUtf8);
    }
  }

  lemma {:induction false} ItemsSpellable(f: Features, items: seq<Value>, emitUtf8: bool)
    requires ItemsPrintable(items, emitUtf8)
    ensures NodesSpellable(f, NodesOf(items, emitUtf8))
    decreases items, 0
  {
    if items != [] {
      ValueSpellable(f, items[0], emitUtf8);
      ItemsSpellable(f, items[1..], emitUtf8);
      hide Printable, Spellable, NodeOf;
      assert NodesOf(items, emitUtf8)[1..] == NodesOf(items[1..], emitUtf8);
    }
  }

  lemma {:induction false} MembersSpellable(f: Features, ms: seq<Member>, emitUtf8: bool)
    requires MembersPrintable(ms, emitUtf8)
    ensures EntriesSpellable(f, EntriesOf(ms, emitUtf8))
    decreases ms, 0
  {
    if ms != [] {
      assert MemberPrintable(ms[0], emitUtf8);
      ValueSpellable(f, ms[0].value, emitUtf8);
      MembersSpellable(f, ms[1..], emitUtf8);
      QuoteText(f, ms[0].key, emitUtf8);
      EntriesSpelled(f, ms, emitUtf8);
    }
  }

  lemma EntriesSpelled(f: Features, ms: seq<Member>, emitUtf8: bool)
    requires ms != [] && IsStringText(f, Quote(ms[0].key, emitUtf8))
    requires Spellable(f, NodeOf(ms[0].value, emitUtf8)) && EntriesSpellable(f, EntriesOf(ms[1..], emitUtf8))
    ensures EntriesSpellable(f, EntriesOf(ms, emitUtf8))
  {
    hide Spellable, NodeOf, Quote, IsStringText, IsNumberText;
    assert EntriesOf(ms, emitUtf8)[1..] == EntriesOf(ms[1..], emitUtf8);
  }

  lemma TokensGood(e: Env, v: Value, emitUtf8: bool)
    requires Printable(v, emitUtf8)
    ensures GoodTokens(e.f, Tokens(v, emitUtf8))
  {
    hide GoodTokens, NodeTokens, NodeOf, Tokens, Printable, WellFormed, Meaning, NodeDepth, Depth, Canonical, Spellable;
    NodeMirrors(e, v, emitUtf8);
    ValueSpellable(e.f, v, emitUtf8);
    NodeTokensGood(e.f, NodeOf(v, emitUtf8));
  }

  lemma TokensVisible(v: Value, emitUtf8: bool)
    requires Printable(v, emitUtf8)
    ensures AllVisible(Tokens(v, emitUtf8))
  {
    var f := Features(false, false, false, false, false, false, false, false, false, false, 0);
    var e := Env(f, _ => None, _ => []);
    hide Printable, Tokens;
    TokensGood(e, v, emitUtf8);
    var ts := Tokens(v, emitUtf8);
    forall i | 0 <= i < |ts|
      ensures Visible(ts[i])
    {
      GoodTokenText(f, ts[i]);
    }
  }

  // ----- documents -----

  /** Only white space before the end lexes to the end of the document. */
  lemma LexAtEnd(f: Features, doc: bytes, pos: nat)
    requires pos <= |doc| && SkipSpaces(doc, pos) == |doc|
    ensures LexValueStart(f, doc, pos).kind == EndOfStream
  {
  }

  /** Settings under which a document holding `v` is accepted. */
  predicate Admits(f: Features, v: Value) {
    Depth(v) <= f.stackLimit && (f.strictRoot ==> v.Array? || v.Object?)
  }

  /** The same for a tree. */
  predicate AdmitsNode(f: Features, n: Node) {
    NodeDepth(n) <= f.stackLimit && (f.strictRoot ==> n.List? || n.Dict?)
  }

  ghost predicate ParsesAs(e: Env, doc: bytes, root: Value, v: Value, deep: bool, admitted: bool) {
    && (Parse(e, doc, root) == Parsed(true, v, []) <==> admitted)
    && (Parse(e, doc, root) == ParseThrew <==> deep)
    && (!deep && !admitted ==>
          Parse(e, doc, root) == Parsed(false, v, [ErrorInfo(RootNotContainer, Token(ErrorToken, 0, |doc|), None)]))
  }

  /** A document that lexes to an admissible tree up to its end: accepted with what the
      tree means if its depth and root are admitted; beyond the limit the reader throws,
      and a root that is not is reported as the only error. */
  lemma TreeParses(e: Env, doc: bytes, n: Node, fin: nat, root: Value)
    requires WellFormed(e, n) && Reads(e.f, doc, DocumentStart(e.f, doc), NodeTokens(n), fin) && fin <= |doc|
    requires LexValueStart(e.f, doc, fin).kind == EndOfStream
    ensures ParsesAs(e, doc, root, Meaning(e, n), NodeDepth(n) > e.f.stackLimit, AdmitsNode(e.f, n))
  {
    assert n.List? == Meaning(e, n).Array? && n.Dict? == Meaning(e, n).Object?;
    hide WellFormed, Reads, ReadValue, LexValueStart, Meaning, NodeDepth, NodeTokens, DocumentStart, Outcome, ParsesAs;
    NodeRead(e, doc, DocumentStart(e.f, doc), 1, root, n, fin);
    RootParses(e, doc, root, NodeDepth(n) <= e.f.stackLimit, fin, Meaning(e, n));
  }

  lemma RootParses(e: Env, doc: bytes, root: Value, fits: bool, fin: nat, v: Value)
    requires fin <= |doc| && LexValueStart(e.f, doc, fin).kind == EndOfStream
    requires ReadValue(e, doc, DocumentStart(e.f, doc), 1, root) == Outcome(fits, fin, v)
    ensures ParsesAs(e, doc, root, v, !fits, fits && (e.f.strictRoot ==> v.Array? || v.Object?))
  {
    hide ReadValue, LexValueStart, DocumentStart;
  }

  /** A text that begins with white space, a slash or an ASCII byte has no byte order mark. */
  lemma NoBom(f: Features, doc: bytes)
    requires doc == [] || doc[0] < 0x80
    ensures DocumentStart(f, doc) == 0
  {
    assert |doc| >= 3 ==> doc[0..3][0] == doc[0];
  }

  lemma FirstAscii(f: Features, n: Node)
    requires Spellable(f, n)
    ensures NodeTokens(n) != [] && NodeTokens(n)[0].text != [] && NodeTokens(n)[0].text[0] < 0x80
  {
    NodeTokensGood(f, n);
    hide GoodToken, Spellable, NodesTokens, EntriesTokens;
    GoodTokenText(f, NodeTokens(n)[0]);
  }

  /** Any layout of a spelled tree, members in any order and names repeated or not. */
  lemma LaidParses(e: Env, n: Node, gaps: seq<seq<Trivia>>, root: Value)
    requires WellFormed(e, n) && Spellable(e.f, n) && Laid(e.f, NodeTokens(n), gaps)
    ensures ParsesAs(e, LaidText(NodeTokens(n), gaps), root, Meaning(e, n),
                     NodeDepth(n) > e.f.stackLimit, AdmitsNode(e.f, n))
  {
    var ts := NodeTokens(n);
    var doc := LaidText(ts, gaps);
    NodeTokensGood(e.f, n);
    FirstAscii(e.f, n);
    hide GoodTokens, WellFormed, Spellable, NodeTokens, Meaning, NodeDepth, LaidText, Laid, ParsesAs;
    LaidStart(e.f, ts, gaps);
    NoBom(e.f, doc);
    assert doc[0..] == doc;
    var fin := LaidReads(e.f, doc, 0, ts, gaps);
    TreeParses(e, doc, n, fin, root);
  }

  predicate OnlySpacesAfter(doc: bytes, pos: nat) {
    pos <= |doc| && SkipSpaces(doc, pos) == |doc|
  }

  lemma SpelledStart(f: Features, doc: bytes, ts: seq<Tok>)
    requires Spells(doc, ts) && GoodTokens(f, ts) && ts != []
    ensures DocumentStart(f, doc) == 0
  {
    GoodTokenText(f, ts[0]);
    hide GoodToken;
    if doc != [] && !IsSpace(doc[0]) {
      assert doc[0] == ts[0].text[0];
    }
    NoBom(f, doc);
  }

  /** The round trip is exact: a text that spells the tokens of a value parses to its
      canonical form if its depth is within the limit and its root is admitted. */
  lemma RoundTripExact(e: Env, text: bytes, v: Value, emitUtf8: bool, root: Value)
    requires Printable(v, emitUtf8) && Spells(text, Tokens(v, emitUtf8))
    ensures ParsesAs(e, text, root, Canonical(v), Depth(v) > e.f.stackLimit, Admits(e.f, v))
  {
    var n := NodeOf(v, emitUtf8);
    assert n.List? == v.Array? && n.Dict? == v.Object?;
    NodeMirrors(e, v, emitUtf8);
    TokensGood(e, v, emitUtf8);
    FirstTokenKind(e, n);
    hide Spells, GoodTokens, Tokens, NodeTokens, Printable, Meaning, NodeDepth, Depth, Canonical, ParsesAs, NodeOf;
    hide WellFormed;
    SpelledStart(e.f, text, Tokens(v, emitUtf8));
    assert text[0..] == text;
    var fin := SpelledReads(e.f, text, 0, Tokens(v, emitUtf8));
    LexAtEnd(e.f, text, fin);
    TreeParses(e, text, n, fin, root);
  }

  /** Two texts for the same value, in any layout, lex to the same tokens. */
  lemma SameTokens(e: Env, a: bytes, b: bytes, v: Value, emitUtf8: bool) returns (finA: nat, finB: nat)
    requires Printable(v, emitUtf8)
    requires Spells(a, Tokens(v, emitUtf8)) && Spells(b, Tokens(v, emitUtf8))
    ensures Reads(e.f, a, 0, Tokens(v, emitUtf8), finA) && OnlySpacesAfter(a, finA)
    ensures Reads(e.f, b, 0, Tokens(v, emitUtf8), finB) && OnlySpacesAfter(b, finB)
  {
    TokensGood(e, v, emitUtf8);
    assert a[0..] == a && b[0..] == b;
    hide GoodTokens, Printable, Spells, Tokens;
    finA := SpelledReads(e.f, a, 0, Tokens(v, emitUtf8));
    finB := SpelledReads(e.f, b, 0, Tokens(v, emitUtf8));
  }
}
