/**
 The reader against the syntax: a document read without errors is one that lexes to the
 tokens of an admissible tree, and its value is what the tree means. Nesting beyond the
 stack limit throws.
 */
module JsonGrammar {
  import opened Bytes
  import opened JsonLexer
  import opened JsonString
  import opened JsonValue
  import opened JsonReader
  import opened JsonSyntax
  import JsonNumber

  // ----- lexing a list of tokens -----

  function LexFor(f: Features, gap: Gap, doc: bytes, pos: nat): (t: Token)
    requires pos <= |doc|
    ensures pos <= t.start <= t.end <= |doc|
  {
    match gap
    case Tight => Lex(f, doc, pos)
    case AtValue => LexValueStart(f, doc, pos)
    case Loose => LexPastComments(f, doc, pos)
    case Commented => LexPastComments(f, doc, pos)
    case _ => LexAhead(f, doc, pos)
  }

  /** The token before which a value is missing, left where it is. */
  function LexAhead(f: Features, doc: bytes, pos: nat): (t: Token)
    requires pos <= |doc|
    ensures pos <= t.start <= t.end <= |doc|
  {
    var t := LexValueStart(f, doc, pos);
    if t.start < t.end then Token(t.kind, t.start, t.end - 1) else t
  }

  predicate NeedsComment(gap: Gap) {
    gap == Commented || gap == CommentedAhead
  }

  /** The next token of the document is `t`. */
  predicate Next(f: Features, doc: bytes, pos: nat, t: Tok)
    requires pos <= |doc|
  {
    var n := LexFor(f, t.gap, doc, pos);
    && n.kind == t.kind && TextOf(doc, n) == t.text
    && (NeedsComment(t.gap) ==> Lex(f, doc, pos).kind == CommentToken)
  }

  /** Lexing `doc` from `pos` gives exactly the tokens `ts` and stops at `fin`. */
  predicate Reads(f: Features, doc: bytes, pos: nat, ts: seq<Tok>, fin: nat)
    decreases |ts|
  {
    && pos <= |doc|
    && if ts == [] then pos == fin
       else Next(f, doc, pos, ts[0]) && Reads(f, doc, LexFor(f, ts[0].gap, doc, pos).end, ts[1..], fin)
  }

  /** The position behind the tokens `ts`. */
  function After(f: Features, doc: bytes, pos: nat, ts: seq<Tok>): (r: nat)
    requires pos <= |doc|
    ensures r <= |doc|
    decreases |ts|
  {
    if ts == [] then pos else After(f, doc, LexFor(f, ts[0].gap, doc, pos).end, ts[1..])
  }

  lemma {:induction false} ReadsSplit(f: Features, doc: bytes, pos: nat, a: seq<Tok>, b: seq<Tok>, fin: nat)
    requires Reads(f, doc, pos, a + b, fin)
    ensures Reads(f, doc, pos, a, After(f, doc, pos, a))
    ensures Reads(f, doc, After(f, doc, pos, a), b, fin)
    decreases |a|
  {
    hide LexFor, Next;
    if a == [] {
      assert a + b == b;
    } else {
      assert (a + b)[1..] == a[1..] + b;
      ReadsSplit(f, doc, LexFor(f, a[0].gap, doc, pos).end, a[1..], b, fin);
    }
  }

  lemma {:induction false} ReadsConcat(f: Features, doc: bytes, pos: nat, a: seq<Tok>, mid: nat, b: seq<Tok>, fin: nat)
    requires Reads(f, doc, pos, a, mid) && Reads(f, doc, mid, b, fin)
    ensures Reads(f, doc, pos, a + b, fin)
    decreases |a|
  {
    hide LexFor, Next;
    if a == [] {
      assert a + b == b;
    } else {
      assert (a + b)[1..] == a[1..] + b;
      ReadsConcat(f, doc, LexFor(f, a[0].gap, doc, pos).end, a[1..], mid, b, fin);
    }
  }

  /** One token in front. */
  lemma ReadsStep(f: Features, doc: bytes, pos: nat, t: Tok, ts: seq<Tok>, fin: nat)
    requires pos <= |doc|
    ensures Reads(f, doc, pos, [t] + ts, fin) <==>
              Next(f, doc, pos, t) && Reads(f, doc, LexFor(f, t.gap, doc, pos).end, ts, fin)
  {
    assert ([t] + ts)[1..] == ts;
  }

  lemma ReadsOne(f: Features, doc: bytes, pos: nat, t: Tok, fin: nat)
    requires pos <= |doc|
    ensures Reads(f, doc, pos, [t], fin) <==> Next(f, doc, pos, t) && LexFor(f, t.gap, doc, pos).end == fin
  {
    ReadsStep(f, doc, pos, t, [], fin);
    assert [t] + [] == [t];
  }

  lemma {:induction false} ReadsBound(f: Features, doc: bytes, pos: nat, ts: seq<Tok>, fin: nat)
    requires Reads(f, doc, pos, ts, fin)
    ensures pos <= fin <= |doc|
    decreases |ts|
  {
    hide Next, LexFor;
    if ts != [] {
      ReadsBound(f, doc, LexFor(f, ts[0].gap, doc, pos).end, ts[1..], fin);
    }
  }

  /** White space before the first token does not matter. */
  lemma LexSkipsSpaces(f: Features, doc: bytes, pos: nat)
    requires pos <= |doc|
    ensures Lex(f, doc, SkipSpaces(doc, pos)) == Lex(f, doc, pos)
    ensures LexPastComments(f, doc, SkipSpaces(doc, pos)) == LexPastComments(f, doc, pos)
  {
    hide LexAt;
  }

  lemma NextPastSpaces(f: Features, doc: bytes, pos: nat, t: Tok)
    requires pos <= |doc|
    ensures LexFor(f, t.gap, doc, SkipSpaces(doc, pos)) == LexFor(f, t.gap, doc, pos)
    ensures Next(f, doc, SkipSpaces(doc, pos), t) <==> Next(f, doc, pos, t)
  {
    LexSkipsSpaces(f, doc, pos);
    hide Lex, LexPastComments, SkipSpaces;
  }

  lemma ReadsPastSpaces(f: Features, doc: bytes, pos: nat, ts: seq<Tok>, fin: nat)
    requires ts != [] && pos <= |doc|
    ensures Reads(f, doc, SkipSpaces(doc, pos), ts, fin) <==> Reads(f, doc, pos, ts, fin)
  {
    NextPastSpaces(f, doc, pos, ts[0]);
    hide LexFor, Next, SkipSpaces;
  }

  /** A closing bracket is seen by looking at the first byte after white space. */
  lemma ClosingBracket(f: Features, doc: bytes, pos: nat)
    requires pos <= |doc|
    ensures var p := SkipSpaces(doc, pos); (p < |doc| && doc[p] == RBRACKET) <==> Lex(f, doc, pos).kind == ArrayEnd
    ensures Lex(f, doc, pos).kind == ArrayEnd ==>
              Lex(f, doc, pos).end == SkipSpaces(doc, pos) + 1 && TextOf(doc, Lex(f, doc, pos)) == [RBRACKET]
  {
    hide ScanString, ScanComment, NumberEnd, ScanWord;
  }

  predicate PunctuationText(doc: bytes, t: Token)
    requires t.start <= t.end <= |doc|
  {
    && (t.kind == ArrayBegin ==> TextOf(doc, t) == [LBRACKET])
    && (t.kind == ArrayEnd ==> TextOf(doc, t) == [RBRACKET])
    && (t.kind == ObjectBegin ==> TextOf(doc, t) == [LBRACE])
    && (t.kind == ObjectEnd ==> TextOf(doc, t) == [RBRACE])
    && (t.kind == ArraySeparator ==> TextOf(doc, t) == [COMMA])
    && (t.kind == MemberSeparator ==> TextOf(doc, t) == [COLON])
  }

  lemma LexedPunctuation(f: Features, doc: bytes, pos: nat)
    requires pos <= |doc|
    ensures PunctuationText(doc, Lex(f, doc, pos))
  {
    hide ScanString, ScanComment, NumberEnd, ScanWord;
  }

  // ----- leaves and names -----

  lemma BodyOf(doc: bytes, t: Token)
    requires t.start + 2 <= t.end <= |doc|
    ensures doc[t.start + 1..t.end - 1] == TextOf(doc, t)[1..|TextOf(doc, t)| - 1]
  {
    var text, n := TextOf(doc, t), t.end - t.start - 1;
    assert forall i | 1 <= i < n :: text[1..n][i - 1] == text[i] == doc[t.start + i];
  }

  lemma ScalarExact(e: Env, doc: bytes, t: Token)
    requires t.start <= t.end <= |doc|
    requires t.kind == NumberToken ==> t.start < t.end
    requires t.kind == StringToken ==> t.start + 2 <= t.end
    ensures var r := ReadScalar(e, doc, t);
            LeafValue(e, t.kind, TextOf(doc, t)) == if r.Got? then Some(r.value) else None
  {
    hide DecodeBody, JsonNumber.TokenValue;
    if t.kind == StringToken {
      BodyOf(doc, t);
    }
  }

  lemma NameExact(e: Env, doc: bytes, t: Token)
    requires t.start <= t.end <= |doc|
    requires t.kind == NumberToken ==> t.start < t.end
    requires t.kind == StringToken ==> t.start + 2 <= t.end
    ensures var r := ReadName(e, doc, t);
            NameValue(e, t.kind, TextOf(doc, t)) == if r.Named? then Some(r.name) else None
  {
    hide DecodeBody, JsonNumber.TokenValue, NumberName;
    if t.kind == StringToken {
      BodyOf(doc, t);
    }
  }

  predicate IsLeafKind(kind: TokenType) {
    kind in {NullToken, TrueToken, FalseToken, NaNToken, PosInfToken, NegInfToken, NumberToken, StringToken}
  }

  lemma LeafKinds(e: Env, kind: TokenType, text: bytes)
    requires LeafValue(e, kind, text).Some?
    ensures IsLeafKind(kind)
  {
  }

  /** What reading a complete construct gives: its value, or an exception if it is too deep. */
  function Outcome(fits: bool, fin: nat, v: Value): Read {
    if fits then Read(true, fin, v, []) else Thrown
  }

  // ----- admissible documents are read -----

  lemma FirstTokenKind(e: Env, n: Node)
    requires WellFormed(e, n)
    ensures NodeTokens(n) != []
    ensures !n.Missing? ==> NodeTokens(n)[0].gap == AtValue && NodeTokens(n)[0].kind != ArrayEnd
  {
    hide AllWell, EntriesWell, NodesTokens, EntriesTokens, LeafValue;
    if n.Leaf? {
      LeafKinds(e, n.kind, n.text);
    }
  }

  lemma LeafRead(e: Env, doc: bytes, pos: nat, depth: nat, cur: Value, n: Node, fin: nat)
    requires n.Leaf? && WellFormed(e, n) && depth <= e.f.stackLimit
    requires Reads(e.f, doc, pos, NodeTokens(n), fin)
    ensures ReadValue(e, doc, pos, depth, cur) == Read(true, fin, Meaning(e, n), [])
  {
    assert pos <= |doc|;
    hide LexValueStart, ReadScalar, LeafValue, Reads;
    LeafKinds(e, n.kind, n.text);
    ReadsOne(e.f, doc, pos, Tok(AtValue, n.kind, n.text), fin);
    ScalarExact(e, doc, LexValueStart(e.f, doc, pos));
  }

  lemma MissingRead(e: Env, doc: bytes, pos: nat, depth: nat, cur: Value, n: Node, fin: nat)
    requires n.Missing? && WellFormed(e, n) && depth <= e.f.stackLimit
    requires Reads(e.f, doc, pos, NodeTokens(n), fin)
    ensures ReadValue(e, doc, pos, depth, cur) == Read(true, fin, Null, [])
  {
    assert pos <= |doc|;
    hide LexValueStart, ReadScalar, Reads;
    ReadsOne(e.f, doc, pos, NodeTokens(n)[0], fin);
  }

  /** Reading a value that begins with a bracket or a brace. */
  lemma ContainerRead(e: Env, doc: bytes, pos: nat, depth: nat, cur: Value)
    requires pos <= |doc| && depth <= e.f.stackLimit
    ensures var t := LexValueStart(e.f, doc, pos);
            && (t.kind == ArrayBegin ==> ReadValue(e, doc, pos, depth, cur) == ReadItems(e, doc, t.end, depth, []))
            && (t.kind == ObjectBegin ==> ReadValue(e, doc, pos, depth, cur) == ReadMembers(e, doc, t.end, depth, [], []))
  {
    hide ReadItems, ReadMembers, LexValueStart, ReadScalar;
  }

  /** A document that lexes to the tokens of an admissible tree reads as what the tree
      means, or throws if the tree is nested deeper than the stack limit. */
  lemma {:induction false} NodeRead(
    e: Env, doc: bytes, pos: nat, depth: nat, cur: Value, n: Node, fin: nat)
    requires WellFormed(e, n) && Reads(e.f, doc, pos, NodeTokens(n), fin)
    ensures ReadValue(e, doc, pos, depth, cur) ==
            Outcome(depth + NodeDepth(n) - 1 <= e.f.stackLimit, fin, Meaning(e, n))
    decreases n, 1
  {
    assert pos <= |doc|;
    if depth > e.f.stackLimit {
    } else if n.Leaf? {
      LeafRead(e, doc, pos, depth, cur, n, fin);
    } else if n.Missing? {
      MissingRead(e, doc, pos, depth, cur, n, fin);
    } else {
      ContainerParts(e, n);
      ContainerRead(e, doc, pos, depth, cur);
      hide *;
      if n.List? {
        ReadsStep(e.f, doc, pos, OPEN_BRACKET, NodesTokens(n.nodes, n.trailing), fin);
        NextKind(e.f, doc, pos, OPEN_BRACKET);
        NodesRead(e, doc, LexValueStart(e.f, doc, pos).end, depth, [], n.nodes, n.trailing, fin);
      } else {
        ReadsStep(e.f, doc, pos, OPEN_BRACE, EntriesTokens(n.entries, n.trailing), fin);
        NextKind(e.f, doc, pos, OPEN_BRACE);
        EntriesRead(e, doc, LexValueStart(e.f, doc, pos).end, depth, [], [], n.entries, n.trailing, fin);
      }
    }
  }

  /** The parts of a tree that is not a leaf. */
  lemma ContainerParts(e: Env, n: Node)
    requires (n.List? || n.Dict?) && WellFormed(e, n)
    ensures n.List? ==>
              && NodeTokens(n) == [OPEN_BRACKET] + NodesTokens(n.nodes, n.trailing)
              && AllWell(e, n.nodes) && (n.nodes != [] ==> n.nodes[0] != BARE_END)
              && (n.trailing && n.nodes != [] ==> TrailingItem(e.f))
              && Meaning(e, n) == Array([] + MeaningAll(e, n.nodes))
              && NodeDepth(n) == 1 + NodesDepth(n.nodes) && MayClose(e.f, [])
    ensures n.Dict? ==>
              && NodeTokens(n) == [OPEN_BRACE] + EntriesTokens(n.entries, n.trailing)
              && EntriesWell(e, n.entries) && MembersMayCome(e, n.entries, n.trailing, [])
              && (e.f.rejectDupKeys ==> Unseen(e, n.entries, []))
              && Meaning(e, n) == Object(Stored(e, n.entries, []))
              && NodeDepth(n) == 1 + EntriesDepth(n.entries)
  {
    hide AllWell, EntriesWell, NodesTokens, EntriesTokens, NameOf, MeaningAll, Stored;
    if n.List? {
      assert [] + MeaningAll(e, n.nodes) == MeaningAll(e, n.nodes);
    }
  }

  lemma NextKind(f: Features, doc: bytes, pos: nat, t: Tok)
    requires pos <= |doc| && Next(f, doc, pos, t)
    ensures LexFor(f, t.gap, doc, pos).kind == t.kind && TextOf(doc, LexFor(f, t.gap, doc, pos)) == t.text
    ensures t.gap == AtValue ==> LexFor(f, t.gap, doc, pos) == LexValueStart(f, doc, pos)
    ensures t.gap == Tight ==> LexFor(f, t.gap, doc, pos) == Lex(f, doc, pos)
    ensures t.gap == Loose ==> LexFor(f, t.gap, doc, pos) == LexPastComments(f, doc, pos)
    ensures t.gap == Commented ==> LexFor(f, t.gap, doc, pos) == LexPastComments(f, doc, pos)
    ensures NeedsComment(t.gap) ==> Lex(f, doc, pos).kind == CommentToken
  {
  }

  /** Whether reading an array may stop here. */
  predicate MayClose(f: Features, done: seq<Value>) {
    done == [] || TrailingItem(f)
  }

  /** One turn of the array loop. */
  lemma ReadItemsStep(e: Env, doc: bytes, pos: nat, depth: nat, done: seq<Value>)
    requires pos <= |doc|
    ensures Lex(e.f, doc, pos).kind == ArrayEnd && MayClose(e.f, done) ==>
              ReadItems(e, doc, pos, depth, done) == Read(true, Lex(e.f, doc, pos).end, Array(done), [])
    ensures !(Lex(e.f, doc, pos).kind == ArrayEnd && MayClose(e.f, done)) ==>
              var item := ReadValue(e, doc, SkipSpaces(doc, pos), depth + 1, Null);
              && (item == Thrown ==> ReadItems(e, doc, pos, depth, done) == Thrown)
              && (item.Read? && item.ok ==>
                    ReadItems(e, doc, pos, depth, done) == ReadItemEnd(e, doc, item.pos, depth, done + [item.value]))
              && (item.Read? && !item.ok ==>
                    ReadItems(e, doc, pos, depth, done).Read? && !ReadItems(e, doc, pos, depth, done).ok)
  {
    ClosingBracket(e.f, doc, pos);
    hide Lex, ReadValue, SkipSpaces, ReadItemEnd;
  }

  lemma {:induction false} NodesRead(
    e: Env, doc: bytes, pos: nat, depth: nat, done: seq<Value>, nodes: seq<Node>, trailing: bool, fin: nat)
    requires depth <= e.f.stackLimit && AllWell(e, nodes)
    requires if nodes == [] then MayClose(e.f, done) else trailing ==> TrailingItem(e.f)
    requires done == [] && nodes != [] ==> nodes[0] != BARE_END
    requires Reads(e.f, doc, pos, NodesTokens(nodes, trailing), fin)
    ensures ReadItems(e, doc, pos, depth, done) ==
            Outcome(depth + NodesDepth(nodes) <= e.f.stackLimit, fin, Array(done + MeaningAll(e, nodes)))
    decreases nodes, 0
  {
    ReadsBound(e.f, doc, pos, NodesTokens(nodes, trailing), fin);
    ReadItemsStep(e, doc, pos, depth, done);
    if nodes == [] {
      ReadsOne(e.f, doc, pos, EMPTY_BRACKET, fin);
      NextKind(e.f, doc, pos, EMPTY_BRACKET);
      assert done + MeaningAll(e, nodes) == done;
    } else {
      NodesParts(e, nodes, trailing, done);
      hide *;
      var first, rest := NodeTokens(nodes[0]), MoreNodes(nodes[1..], trailing);
      ReadsSplit(e.f, doc, pos, first, rest, fin);
      var mid := After(e.f, doc, pos, first);
      FirstTokenKind(e, nodes[0]);
      NotClosing(e, doc, pos, done, nodes[0], mid);
      ReadsPastSpaces(e.f, doc, pos, first, mid);
      NodeRead(e, doc, SkipSpaces(doc, pos), depth + 1, Null, nodes[0], mid);
      OutcomeIs(depth + NodeDepth(nodes[0]) <= e.f.stackLimit, mid, Meaning(e, nodes[0]));
      if depth + NodeDepth(nodes[0]) <= e.f.stackLimit {
        MoreNodesRead(e, doc, mid, depth, done + [Meaning(e, nodes[0])], nodes, trailing, fin);
      }
    }
  }

  /** The parts of a list of items that is not empty. */
  lemma NodesParts(e: Env, nodes: seq<Node>, trailing: bool, done: seq<Value>)
    requires nodes != [] && AllWell(e, nodes)
    ensures NodesTokens(nodes, trailing) == NodeTokens(nodes[0]) + MoreNodes(nodes[1..], trailing)
    ensures WellFormed(e, nodes[0]) && AllWell(e, nodes[1..])
    ensures NodesDepth(nodes) == Max(NodeDepth(nodes[0]), NodesDepth(nodes[1..]))
    ensures done + MeaningAll(e, nodes) == (done + [Meaning(e, nodes[0])]) + MeaningAll(e, nodes[1..])
  {
    hide WellFormed, NodeTokens, NodeDepth, Meaning, MoreNodes, Max;
  }

  lemma OutcomeIs(fits: bool, fin: nat, v: Value)
    ensures Outcome(fits, fin, v) == if fits then Read(true, fin, v, []) else Thrown
  {
  }

  /** Where an item stands the array does not end, comments before it or not. */
  lemma NotClosing(e: Env, doc: bytes, pos: nat, done: seq<Value>, n: Node, fin: nat)
    requires WellFormed(e, n) && Reads(e.f, doc, pos, NodeTokens(n), fin) && (done == [] ==> n != BARE_END)
    ensures pos <= |doc| && !(Lex(e.f, doc, pos).kind == ArrayEnd && MayClose(e.f, done))
  {
    FirstTokenKind(e, n);
    hide Lex, LeafValue, AllWell, EntriesWell, NodesTokens, EntriesTokens;
  }

  /** What follows an item, `nodes[0]` being the item read last. */
  lemma {:induction false} MoreNodesRead(
    e: Env, doc: bytes, mid: nat, depth: nat, done: seq<Value>, nodes: seq<Node>, trailing: bool, fin: nat)
    requires depth <= e.f.stackLimit && nodes != [] && AllWell(e, nodes[1..]) && mid <= |doc|
    requires done != [] && (trailing ==> TrailingItem(e.f))
    requires Reads(e.f, doc, mid, MoreNodes(nodes[1..], trailing), fin)
    ensures ReadItemEnd(e, doc, mid, depth, done) ==
            Outcome(depth + NodesDepth(nodes[1..]) <= e.f.stackLimit, fin, Array(done + MeaningAll(e, nodes[1..])))
    decreases nodes[1..], 1
  {
    hide Lex, LexPastComments, ReadItems, Reads, Next, WellFormed, NodeTokens, NodesTokens;
    var t := LexPastComments(e.f, doc, mid);
    if nodes[1..] == [] && !trailing {
      ReadsOne(e.f, doc, mid, CLOSE_BRACKET, fin);
      NextKind(e.f, doc, mid, CLOSE_BRACKET);
      assert done + MeaningAll(e, nodes[1..]) == done;
    } else {
      ReadsStep(e.f, doc, mid, COMMA_TOK, NodesTokens(nodes[1..], trailing), fin);
      NextKind(e.f, doc, mid, COMMA_TOK);
      NodesRead(e, doc, t.end, depth, done, nodes[1..], trailing, fin);
    }
  }

  /** Names that are neither stored nor repeated. */
  predicate Unseen(e: Env, entries: seq<Entry>, ms: seq<Member>) {
    && Distinct(e, entries)
    && forall i | 0 <= i < |entries| :: Find(ms, NameOf(e, entries[i])) == None
  }

  lemma UnseenStep(e: Env, entries: seq<Entry>, ms: seq<Member>, v: Value)
    requires entries != []
    ensures Unseen(e, entries, ms) <==>
              Find(ms, NameOf(e, entries[0])) == None && Unseen(e, entries[1..], Put(ms, NameOf(e, entries[0]), v))
  {
    hide NameOf, Find, Put;
    var ms' := Put(ms, NameOf(e, entries[0]), v);
    forall i | 0 <= i < |entries|
      ensures Find(ms', NameOf(e, entries[i])) ==
              if NameOf(e, entries[i]) == NameOf(e, entries[0]) then Some(v) else Find(ms, NameOf(e, entries[i]))
    {
      PutFinds(ms, NameOf(e, entries[0]), v, NameOf(e, entries[i]));
    }
    assert forall i | 0 <= i < |entries| - 1 :: entries[1..][i] == entries[i + 1];
    if Find(ms, NameOf(e, entries[0])) == None && Unseen(e, entries[1..], ms') {
      forall i, j | 0 <= i < j < |entries|
        ensures NameOf(e, entries[i]) != NameOf(e, entries[j])
      {
        assert entries[j] == entries[1..][j - 1];
        if i > 0 {
          assert entries[i] == entries[1..][i - 1];
        }
      }
    }
  }

  /** Whether the entries still to come may be read behind the name `last`. */
  predicate MembersMayCome(e: Env, entries: seq<Entry>, trailing: bool, last: bytes) {
    if entries == [] then TrailingMember(e.f, last)
    else trailing ==> TrailingMember(e.f, NameOf(e, entries[|entries| - 1]))
  }

  /** One turn of the object loop: a closing brace, or a name. */
  lemma ReadMembersStep(e: Env, doc: bytes, pos: nat, depth: nat, ms: seq<Member>, last: bytes)
    requires pos <= |doc|
    ensures var t := LexPastComments(e.f, doc, pos);
            var name := NameValue(e, t.kind, TextOf(doc, t));
            var r := ReadMembers(e, doc, pos, depth, ms, last);
            if t.kind == ObjectEnd && TrailingMember(e.f, last) then r == Read(true, t.end, Object(ms), [])
            else if name.Some? && |name.value| < MAX_KEY_LENGTH && !(e.f.rejectDupKeys && Find(ms, name.value).Some?)
            then r == ReadMember(e, doc, t.end, depth, ms, name.value)
            else r.Read? ==> !r.ok
  {
    var t := LexPastComments(e.f, doc, pos);
    NameExact(e, doc, t);
    hide LexPastComments, ReadMember, ReadName, Find, NameValue, RecoverEnd;
  }

  lemma {:induction false} EntriesRead(
    e: Env, doc: bytes, pos: nat, depth: nat, ms: seq<Member>, last: bytes,
    entries: seq<Entry>, trailing: bool, fin: nat)
    requires depth <= e.f.stackLimit && EntriesWell(e, entries) && MembersMayCome(e, entries, trailing, last)
    requires e.f.rejectDupKeys ==> Unseen(e, entries, ms)
    requires Reads(e.f, doc, pos, EntriesTokens(entries, trailing), fin)
    ensures ReadMembers(e, doc, pos, depth, ms, last) ==
            Outcome(depth + EntriesDepth(entries) <= e.f.stackLimit, fin, Object(Stored(e, entries, ms)))
    decreases entries, 0
  {
    ReadsBound(e.f, doc, pos, EntriesTokens(entries, trailing), fin);
    hide LexPastComments, Reads, ReadMembers, Next, Meaning, Put, Find, WellFormed, NodeTokens, NodeDepth, ReadMember;
    ReadMembersStep(e, doc, pos, depth, ms, last);
    var t := LexPastComments(e.f, doc, pos);
    if entries == [] {
      ReadsOne(e.f, doc, pos, CLOSE_BRACE, fin);
      NextKind(e.f, doc, pos, CLOSE_BRACE);
    } else {
      var x := entries[0];
      var name := Tok(Loose, x.kind, x.text);
      var tail := [COLON_TOK] + (NodeTokens(x.node) + MoreEntries(x.comma, entries[1..], trailing));
      ReadsStep(e.f, doc, pos, name, tail, fin);
      NextKind(e.f, doc, pos, name);
      UnseenStep(e, entries, ms, Meaning(e, x.node));
      NotBrace(e, x);
      EntryRead(e, doc, t.end, depth, ms, entries, trailing, fin);
    }
  }

  lemma NotBrace(e: Env, x: Entry)
    requires WellNamed(e, x)
    ensures x.kind != ObjectEnd && NameValue(e, x.kind, x.text) == Some(NameOf(e, x))
  {
  }

  /** What the reader makes of a colon, a value and what follows it. */
  lemma ReadMemberStep(e: Env, doc: bytes, pos: nat, depth: nat, ms: seq<Member>, name: bytes)
    requires pos <= |doc|
    ensures var colon := Lex(e.f, doc, pos);
            var cur := if Find(ms, name).Some? then Find(ms, name).value else Null;
            var r := ReadMember(e, doc, pos, depth, ms, name);
            if colon.kind != MemberSeparator then r.Read? && !r.ok
            else
              var child := ReadValue(e, doc, colon.end, depth + 1, cur);
              && (child == Thrown ==> r == Thrown)
              && (child.Read? && child.ok ==>
                    r == ReadMemberEnd(e, doc, child.pos, depth, Put(ms, name, child.value), name))
              && (child.Read? && !child.ok ==> r.Read? && !r.ok)
  {
    hide Lex, ReadValue, ReadMemberEnd, Find, Put, RecoverEnd;
  }

  lemma {:induction false} EntryRead(
    e: Env, doc: bytes, pos: nat, depth: nat, ms: seq<Member>, entries: seq<Entry>, trailing: bool, fin: nat)
    requires depth <= e.f.stackLimit && entries != [] && EntriesWell(e, entries) && pos <= |doc|
    requires trailing ==> TrailingMember(e.f, NameOf(e, entries[|entries| - 1]))
    requires var x := entries[0];
             && (e.f.rejectDupKeys ==> Unseen(e, entries[1..], Put(ms, NameOf(e, x), Meaning(e, x.node))))
             && Reads(e.f, doc, pos,
                      [COLON_TOK] + (NodeTokens(x.node) + MoreEntries(x.comma, entries[1..], trailing)), fin)
    ensures ReadMember(e, doc, pos, depth, ms, NameOf(e, entries[0])) ==
            Outcome(depth + EntriesDepth(entries) <= e.f.stackLimit, fin, Object(Stored(e, entries, ms)))
    decreases entries, 0, 0
  {
    hide Lex, Reads, ReadMember, Next, Meaning, Put, Find, WellFormed, NodeTokens, NodeDepth, ReadValue, ReadMemberEnd;
    hide Unseen, MoreEntries, NameOf, WellNamed, TrailingMember;
    var x := entries[0];
    var first, rest := NodeTokens(x.node), MoreEntries(x.comma, entries[1..], trailing);
    ReadMemberStep(e, doc, pos, depth, ms, NameOf(e, x));
    ReadsStep(e.f, doc, pos, COLON_TOK, first + rest, fin);
    NextKind(e.f, doc, pos, COLON_TOK);
    var colon := Lex(e.f, doc, pos);
    ReadsSplit(e.f, doc, colon.end, first, rest, fin);
    var mid := After(e.f, doc, colon.end, first);
    var cur := if Find(ms, NameOf(e, x)).Some? then Find(ms, NameOf(e, x)).value else Null;
    NodeRead(e, doc, colon.end, depth + 1, cur, x.node, mid);
    if depth + NodeDepth(x.node) <= e.f.stackLimit {
      MoreEntriesRead(e, doc, mid, depth, Put(ms, NameOf(e, x), Meaning(e, x.node)), entries, trailing, fin);
    }
  }

  /** What follows a member: a brace or a comma behind comments, or any token behind at
      least one comment. */
  lemma ReadMemberEndStep(e: Env, doc: bytes, pos: nat, depth: nat, ms: seq<Member>, name: bytes)
    requires pos <= |doc|
    ensures var t := LexPastComments(e.f, doc, pos);
            var r := ReadMemberEnd(e, doc, pos, depth, ms, name);
            if t.kind == ObjectEnd then r == Read(true, t.end, Object(ms), [])
            else if t.kind == ArraySeparator || Lex(e.f, doc, pos).kind == CommentToken
            then r == ReadMembers(e, doc, t.end, depth, ms, name)
            else r.Read? && !r.ok
  {
    hide Lex, ReadMembers, RecoverEnd;
  }

  lemma {:induction false} MoreEntriesRead(
    e: Env, doc: bytes, mid: nat, depth: nat, ms: seq<Member>, entries: seq<Entry>, trailing: bool, fin: nat)
    requires depth <= e.f.stackLimit && entries != [] && EntriesWell(e, entries) && mid <= |doc|
    requires trailing ==> TrailingMember(e.f, NameOf(e, entries[|entries| - 1]))
    requires e.f.rejectDupKeys ==> Unseen(e, entries[1..], ms)
    requires Reads(e.f, doc, mid, MoreEntries(entries[0].comma, entries[1..], trailing), fin)
    ensures ReadMemberEnd(e, doc, mid, depth, ms, NameOf(e, entries[0])) ==
            Outcome(depth + EntriesDepth(entries[1..]) <= e.f.stackLimit, fin, Object(Stored(e, entries[1..], ms)))
    decreases entries[1..], 1
  {
    hide Lex, LexPastComments, Reads, Next, Meaning, Put, Find, WellFormed, ReadMembers, ReadMemberEnd, Unseen;
    hide EntriesTokens;
    ReadMemberEndStep(e, doc, mid, depth, ms, NameOf(e, entries[0]));
    if entries[1..] == [] && !trailing {
      ReadsOne(e.f, doc, mid, CLOSE_BRACE, fin);
      NextKind(e.f, doc, mid, CLOSE_BRACE);
    } else {
      var comma := entries[0].comma;
      ReadsStep(e.f, doc, mid, comma, EntriesTokens(entries[1..], trailing), fin);
      NextKind(e.f, doc, mid, comma);
      EntriesRead(e, doc, LexPastComments(e.f, doc, mid).end, depth, ms, NameOf(e, entries[0]), entries[1..], trailing, fin);
    }
  }
}
