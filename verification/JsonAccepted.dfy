/**
 The converse of reading a tree: whatever the reader accepts stands in the document as
 the tokens of an admissible tree, so that the reader accepts exactly the documents of
 the syntax, under every setting.
 */
module JsonAccepted {
  import opened Bytes
  import opened JsonLexer
  import opened JsonValue
  import opened JsonReader
  import opened JsonSyntax
  import opened JsonGrammar

  // ----- punctuation -----

  lemma {:induction false} GapPunctuation(f: Features, doc: bytes, pos: nat)
    requires pos <= |doc|
    ensures PunctuationText(doc, LexPastComments(f, doc, pos)) && PunctuationText(doc, LexValueStart(f, doc, pos))
    ensures Lex(f, doc, pos).kind == CommentToken || LexPastComments(f, doc, pos).kind != EndOfStream ==>
              LexPastComments(f, doc, pos).end > pos
    decreases |doc| - pos
  {
    hide Lex;
    LexedPunctuation(f, doc, pos);
    var t := Lex(f, doc, pos);
    if t.kind == CommentToken {
      GapPunctuation(f, doc, t.end);
    }
  }

  /** A punctuation token is the next one if its kind is. */
  lemma NextPunctuation(f: Features, doc: bytes, pos: nat, t: Tok)
    requires pos <= |doc|
    requires t in {OPEN_BRACKET, CLOSE_BRACKET, EMPTY_BRACKET, OPEN_BRACE, CLOSE_BRACE, COMMA_TOK, COLON_TOK}
    requires LexFor(f, t.gap, doc, pos).kind == t.kind
    ensures Next(f, doc, pos, t)
  {
    LexedPunctuation(f, doc, pos);
    GapPunctuation(f, doc, pos);
    hide Lex, LexPastComments, LexValueStart;
  }

  // ----- trees in the document -----

  predicate Good(r: Read) {
    r.Read? && r.ok
  }

  /** A tree stands in the document from `pos` to `r.pos` and means the value of `r`. */
  predicate Stands(e: Env, doc: bytes, pos: nat, depth: nat, n: Node, r: Read) {
    && r.Read? && WellFormed(e, n) && Reads(e.f, doc, pos, NodeTokens(n), r.pos)
    && r.value == Meaning(e, n) && depth + NodeDepth(n) - 1 <= e.f.stackLimit
  }

  /** The items of a list, or those behind the items in `done`. */
  predicate NodesStand(
    e: Env, doc: bytes, pos: nat, depth: nat, done: seq<Value>, nodes: seq<Node>, trailing: bool, r: Read)
  {
    && r.Read? && AllWell(e, nodes) && Reads(e.f, doc, pos, NodesTokens(nodes, trailing), r.pos)
    && r.value == Array(done + MeaningAll(e, nodes)) && depth + NodesDepth(nodes) <= e.f.stackLimit
    && (if nodes == [] then MayClose(e.f, done) else trailing ==> TrailingItem(e.f))
    && (done == [] && nodes != [] ==> nodes[0] != BARE_END)
  }

  predicate MoreNodesStand(
    e: Env, doc: bytes, pos: nat, depth: nat, done: seq<Value>, nodes: seq<Node>, trailing: bool, r: Read)
  {
    && r.Read? && AllWell(e, nodes) && Reads(e.f, doc, pos, MoreNodes(nodes, trailing), r.pos)
    && r.value == Array(done + MeaningAll(e, nodes)) && depth + NodesDepth(nodes) <= e.f.stackLimit
    && (trailing ==> TrailingItem(e.f))
  }

  predicate EntriesStand(
    e: Env, doc: bytes, pos: nat, depth: nat, ms: seq<Member>, last: bytes, entries: seq<Entry>, trailing: bool, r: Read)
  {
    && r.Read? && EntriesWell(e, entries) && Reads(e.f, doc, pos, EntriesTokens(entries, trailing), r.pos)
    && r.value == Object(Stored(e, entries, ms)) && depth + EntriesDepth(entries) <= e.f.stackLimit
    && MembersMayCome(e, entries, trailing, last) && (e.f.rejectDupKeys ==> Unseen(e, entries, ms))
  }

  predicate MoreEntriesStand(
    e: Env, doc: bytes, pos: nat, depth: nat, ms: seq<Member>, last: bytes,
    comma: Tok, entries: seq<Entry>, trailing: bool, r: Read)
  {
    && r.Read? && EntriesWell(e, entries) && Reads(e.f, doc, pos, MoreEntries(comma, entries, trailing), r.pos)
    && r.value == Object(Stored(e, entries, ms)) && depth + EntriesDepth(entries) <= e.f.stackLimit
    && IsComma(comma) && (e.f.rejectDupKeys ==> Unseen(e, entries, ms))
    && (trailing ==> TrailingMember(e.f, if entries == [] then last else NameOf(e, entries[|entries| - 1])))
  }

  lemma FindMissing(e: Env, doc: bytes, pos: nat, depth: nat, cur: Value) returns (n: Node)
    requires pos <= |doc| && depth <= e.f.stackLimit && e.f.allowDroppedNullPlaceholders
    requires IsPlaceholder(LexValueStart(e.f, doc, pos).kind)
    ensures Stands(e, doc, pos, depth, n, ReadValue(e, doc, pos, depth, cur))
    ensures n == BARE_END ==> Lex(e.f, doc, pos).kind == ArrayEnd
  {
    var t := LexValueStart(e.f, doc, pos);
    n := Missing(t.kind, Lex(e.f, doc, pos).kind == CommentToken);
    StartOrComment(e.f, doc, pos);
    MissingValue(e, doc, pos, depth, cur);
    NextAhead(e.f, doc, pos, NodeTokens(n)[0]);
    hide Lex, LexValueStart, LexAhead, Reads, ReadValue, Next;
    ReadsOne(e.f, doc, pos, NodeTokens(n)[0], LexAhead(e.f, doc, pos).end);
  }

  lemma MissingValue(e: Env, doc: bytes, pos: nat, depth: nat, cur: Value)
    requires pos <= |doc| && depth <= e.f.stackLimit && e.f.allowDroppedNullPlaceholders
    requires IsPlaceholder(LexValueStart(e.f, doc, pos).kind)
    ensures ReadValue(e, doc, pos, depth, cur) == Read(true, LexAhead(e.f, doc, pos).end, Null, [])
  {
    hide LexValueStart, ReadScalar;
  }

  lemma NextAhead(f: Features, doc: bytes, pos: nat, t: Tok)
    requires pos <= |doc| && IsPlaceholder(LexValueStart(f, doc, pos).kind)
    requires t.kind == LexValueStart(f, doc, pos).kind && t.text == []
    requires t.gap == if Lex(f, doc, pos).kind == CommentToken then CommentedAhead else Ahead
    ensures Next(f, doc, pos, t)
  {
    GapPunctuation(f, doc, pos);
    hide Lex, LexValueStart;
    assert |TextOf(doc, LexValueStart(f, doc, pos))| == 1;
  }

  lemma FindLeaf(e: Env, doc: bytes, pos: nat, depth: nat, cur: Value) returns (n: Node)
    requires pos <= |doc| && Good(ReadValue(e, doc, pos, depth, cur))
    requires var t := LexValueStart(e.f, doc, pos);
             t.kind !in {ArrayBegin, ObjectBegin} && !(e.f.allowDroppedNullPlaceholders && IsPlaceholder(t.kind))
    ensures n.Leaf? && Stands(e, doc, pos, depth, n, ReadValue(e, doc, pos, depth, cur))
  {
    hide LexValueStart, ReadScalar, LeafValue, Reads;
    var t := LexValueStart(e.f, doc, pos);
    ScalarExact(e, doc, t);
    n := Leaf(t.kind, TextOf(doc, t));
    ReadsOne(e.f, doc, pos, Tok(AtValue, n.kind, n.text), t.end);
  }

  lemma StartOrComment(f: Features, doc: bytes, pos: nat)
    requires pos <= |doc|
    ensures Lex(f, doc, pos).kind == CommentToken || LexValueStart(f, doc, pos) == Lex(f, doc, pos)
  {
    hide Lex;
  }

  lemma ListStands(e: Env, doc: bytes, pos: nat, depth: nat, nodes: seq<Node>, trailing: bool, r: Read)
    requires pos <= |doc| && LexValueStart(e.f, doc, pos).kind == ArrayBegin
    requires NodesStand(e, doc, LexValueStart(e.f, doc, pos).end, depth, [], nodes, trailing, r)
    ensures Stands(e, doc, pos, depth, List(nodes, trailing), r)
  {
    hide LexValueStart, Reads, AllWell, NodesDepth, MeaningAll, NodesTokens;
    NextPunctuation(e.f, doc, pos, OPEN_BRACKET);
    ReadsStep(e.f, doc, pos, OPEN_BRACKET, NodesTokens(nodes, trailing), r.pos);
    assert [] + MeaningAll(e, nodes) == MeaningAll(e, nodes);
  }

  lemma DictStands(e: Env, doc: bytes, pos: nat, depth: nat, entries: seq<Entry>, trailing: bool, r: Read)
    requires pos <= |doc| && LexValueStart(e.f, doc, pos).kind == ObjectBegin
    requires EntriesStand(e, doc, LexValueStart(e.f, doc, pos).end, depth, [], [], entries, trailing, r)
    ensures Stands(e, doc, pos, depth, Dict(entries, trailing), r)
  {
    hide LexValueStart, Reads, EntriesWell, EntriesDepth, Stored, EntriesTokens, NameOf;
    NextPunctuation(e.f, doc, pos, OPEN_BRACE);
    ReadsStep(e.f, doc, pos, OPEN_BRACE, EntriesTokens(entries, trailing), r.pos);
  }

  lemma WithinLimit(e: Env, doc: bytes, pos: nat, depth: nat, cur: Value)
    requires pos <= |doc| && Good(ReadValue(e, doc, pos, depth, cur))
    ensures depth <= e.f.stackLimit
  {
  }

  /** Whatever is read without errors stands in the document as an admissible tree. */
  lemma {:induction false} FindNode(e: Env, doc: bytes, pos: nat, depth: nat, cur: Value) returns (n: Node)
    requires pos <= |doc| && Good(ReadValue(e, doc, pos, depth, cur))
    ensures Stands(e, doc, pos, depth, n, ReadValue(e, doc, pos, depth, cur))
    ensures n == BARE_END ==> Lex(e.f, doc, pos).kind == ArrayEnd
    decreases |doc| - pos, 0
  {
    WithinLimit(e, doc, pos, depth, cur);
    ContainerRead(e, doc, pos, depth, cur);
    hide *;
    var t, r := LexValueStart(e.f, doc, pos), ReadValue(e, doc, pos, depth, cur);
    if t.kind == ArrayBegin {
      var nodes, trailing := FindNodes(e, doc, t.end, depth, []);
      ListStands(e, doc, pos, depth, nodes, trailing, r);
      n := List(nodes, trailing);
    } else if t.kind == ObjectBegin {
      var entries, trailing := FindEntries(e, doc, t.end, depth, [], []);
      DictStands(e, doc, pos, depth, entries, trailing, r);
      n := Dict(entries, trailing);
    } else if e.f.allowDroppedNullPlaceholders && IsPlaceholder(t.kind) {
      n := FindMissing(e, doc, pos, depth, cur);
    } else {
      n := FindLeaf(e, doc, pos, depth, cur);
    }
  }

  lemma {:induction false} FindNodes(e: Env, doc: bytes, pos: nat, depth: nat, done: seq<Value>)
    returns (nodes: seq<Node>, trailing: bool)
    requires pos <= |doc| && depth <= e.f.stackLimit
    requires Good(ReadItems(e, doc, pos, depth, done))
    ensures NodesStand(e, doc, pos, depth, done, nodes, trailing, ReadItems(e, doc, pos, depth, done))
    decreases |doc| - pos, 2
  {
    ReadItemsStep(e, doc, pos, depth, done);
    var r := ReadItems(e, doc, pos, depth, done);
    if Lex(e.f, doc, pos).kind == ArrayEnd && MayClose(e.f, done) {
      nodes, trailing := [], false;
      hide Lex, Reads, ReadItems;
      NextPunctuation(e.f, doc, pos, EMPTY_BRACKET);
      ReadsOne(e.f, doc, pos, EMPTY_BRACKET, r.pos);
      assert done + MeaningAll(e, nodes) == done;
    } else {
      hide Lex, ReadItems, ReadValue, SkipSpaces, Stands, MoreNodesStand, NodesStand, ReadItemEnd;
      var item := ReadValue(e, doc, SkipSpaces(doc, pos), depth + 1, Null);
      var n := FindNode(e, doc, SkipSpaces(doc, pos), depth + 1, Null);
      nodes, trailing := FindMoreNodes(e, doc, item.pos, depth, done + [item.value]);
      LexSkipsSpaces(e.f, doc, pos);
      assert done == [] ==> n != BARE_END;
      NodesGrow(e, doc, pos, depth, done, n, item, nodes, trailing, r);
      nodes := [n] + nodes;
    }
  }

  /** An item in front of those that follow it. */
  lemma NodesGrow(
    e: Env, doc: bytes, pos: nat, depth: nat, done: seq<Value>, n: Node, item: Read,
    nodes: seq<Node>, trailing: bool, r: Read)
    requires pos <= |doc| && Stands(e, doc, SkipSpaces(doc, pos), depth + 1, n, item)
    requires MoreNodesStand(e, doc, item.pos, depth, done + [item.value], nodes, trailing, r)
    requires done == [] ==> n != BARE_END
    ensures NodesStand(e, doc, pos, depth, done, [n] + nodes, trailing, r)
  {
    FirstTokenKind(e, n);
    hide Reads, SkipSpaces, WellFormed, NodeTokens, NodeDepth, Meaning, MoreNodes;
    ReadsPastSpaces(e.f, doc, pos, NodeTokens(n), item.pos);
    ReadsConcat(e.f, doc, pos, NodeTokens(n), item.pos, MoreNodes(nodes, trailing), r.pos);
    assert ([n] + nodes)[1..] == nodes;
    NodesParts(e, [n] + nodes, trailing, done);
  }

  lemma {:induction false} FindMoreNodes(e: Env, doc: bytes, pos: nat, depth: nat, done: seq<Value>)
    returns (nodes: seq<Node>, trailing: bool)
    requires pos <= |doc| && depth <= e.f.stackLimit && done != []
    requires Good(ReadItemEnd(e, doc, pos, depth, done))
    ensures MoreNodesStand(e, doc, pos, depth, done, nodes, trailing, ReadItemEnd(e, doc, pos, depth, done))
    decreases |doc| - pos, 1
  {
    hide Lex, LexPastComments, Reads, ReadItems, AllWell, NodesDepth, MeaningAll, NodesTokens, RecoverEnd;
    var t, r := LexPastComments(e.f, doc, pos), ReadItemEnd(e, doc, pos, depth, done);
    if t.kind == ArrayEnd {
      nodes, trailing := [], false;
      NextPunctuation(e.f, doc, pos, CLOSE_BRACKET);
      ReadsOne(e.f, doc, pos, CLOSE_BRACKET, r.pos);
      NoNodes(e, done);
    } else {
      nodes, trailing := FindNodes(e, doc, t.end, depth, done);
      trailing := nodes == [] || trailing;
      NextPunctuation(e.f, doc, pos, COMMA_TOK);
      NodesTrailing(nodes, trailing);
      ReadsStep(e.f, doc, pos, COMMA_TOK, NodesTokens(nodes, trailing), r.pos);
    }
  }

  lemma NoNodes(e: Env, done: seq<Value>)
    ensures AllWell(e, []) && NodesDepth([]) == 0 && done + MeaningAll(e, []) == done
  {
    assert MeaningAll(e, []) == [];
  }

  lemma NodesTrailing(nodes: seq<Node>, trailing: bool)
    ensures nodes == [] ==> NodesTokens(nodes, trailing) == NodesTokens(nodes, true) == NodesTokens(nodes, false)
  {
  }

  lemma {:induction false} FindEntries(e: Env, doc: bytes, pos: nat, depth: nat, ms: seq<Member>, last: bytes)
    returns (entries: seq<Entry>, trailing: bool)
    requires pos <= |doc| && depth <= e.f.stackLimit
    requires Good(ReadMembers(e, doc, pos, depth, ms, last))
    ensures EntriesStand(e, doc, pos, depth, ms, last, entries, trailing, ReadMembers(e, doc, pos, depth, ms, last))
    decreases |doc| - pos, 1
  {
    ReadMembersStep(e, doc, pos, depth, ms, last);
    var t, r := LexPastComments(e.f, doc, pos), ReadMembers(e, doc, pos, depth, ms, last);
    if t.kind == ObjectEnd && TrailingMember(e.f, last) {
      entries, trailing := [], false;
      hide LexPastComments, Reads, ReadMembers;
      NextPunctuation(e.f, doc, pos, CLOSE_BRACE);
      ReadsOne(e.f, doc, pos, CLOSE_BRACE, r.pos);
    } else {
      hide LexPastComments, ReadMembers, NameValue, Find, EntriesStand, ReadMember;
      var name := NameValue(e, t.kind, TextOf(doc, t)).value;
      GapPunctuation(e.f, doc, pos);
      NamedNotEnd(e, t.kind, TextOf(doc, t));
      entries, trailing := FindEntry(e, doc, pos, t, depth, ms, name, last);
    }
  }

  lemma NamedNotEnd(e: Env, kind: TokenType, text: bytes)
    requires NameValue(e, kind, text).Some?
    ensures kind != EndOfStream && kind != CommentToken
  {
  }

  /** A member whose name is the token `t`. */
  lemma {:induction false} FindEntry(
    e: Env, doc: bytes, pos: nat, t: Token, depth: nat, ms: seq<Member>, name: bytes, last: bytes)
    returns (entries: seq<Entry>, trailing: bool)
    requires pos <= |doc| && depth <= e.f.stackLimit
    requires t == LexPastComments(e.f, doc, pos) && pos < t.end
    requires NameValue(e, t.kind, TextOf(doc, t)) == Some(name) && |name| < MAX_KEY_LENGTH
    requires e.f.rejectDupKeys ==> Find(ms, name) == None
    requires Good(ReadMember(e, doc, t.end, depth, ms, name))
    ensures EntriesStand(e, doc, pos, depth, ms, last, entries, trailing, ReadMember(e, doc, t.end, depth, ms, name))
    decreases |doc| - pos, 0
  {
    ReadMemberStep(e, doc, t.end, depth, ms, name);
    hide *;
    var colon, r := Lex(e.f, doc, t.end), ReadMember(e, doc, t.end, depth, ms, name);
    GoodIs(r);
    assert colon.kind == MemberSeparator;
    var cur := if Find(ms, name).Some? then Find(ms, name).value else Null;
    var child := ReadValue(e, doc, colon.end, depth + 1, cur);
    assert child.Read? && child.ok;
    GoodIs(child);
    var n := FindNode(e, doc, colon.end, depth + 1, cur);
    var comma;
    comma, entries, trailing := FindMoreEntries(e, doc, child.pos, depth, Put(ms, name, child.value), name);
    var x := Entry(t.kind, TextOf(doc, t), n, comma);
    EntriesGrow(e, doc, pos, depth, ms, name, last, x, child, entries, trailing, r);
    entries := [x] + entries;
  }

  lemma GoodIs(r: Read)
    ensures Good(r) <==> r.Read? && r.ok
  {
  }

  /** An entry in front of those that follow it. */
  lemma EntriesGrow(
    e: Env, doc: bytes, pos: nat, depth: nat, ms: seq<Member>, name: bytes, last: bytes,
    x: Entry, child: Read, entries: seq<Entry>, trailing: bool, r: Read)
    requires pos <= |doc| && child.Read?
    requires var t := LexPastComments(e.f, doc, pos);
             && x.kind == t.kind && x.text == TextOf(doc, t) && NameValue(e, x.kind, x.text) == Some(name)
             && |name| < MAX_KEY_LENGTH && (e.f.rejectDupKeys ==> Find(ms, name) == None)
             && Lex(e.f, doc, t.end).kind == MemberSeparator
             && Stands(e, doc, Lex(e.f, doc, t.end).end, depth + 1, x.node, child)
    requires MoreEntriesStand(e, doc, child.pos, depth, Put(ms, name, child.value), name, x.comma, entries, trailing, r)
    ensures EntriesStand(e, doc, pos, depth, ms, last, [x] + entries, trailing, r)
  {
    EntryReads(e, doc, pos, x, child.pos, entries, trailing, r.pos);
    EntriesParts(e, ms, x, entries, trailing);
    UnseenStep(e, [x] + entries, ms, child.value);
    assert ([x] + entries)[1..] == entries;
    assert entries != [] ==> ([x] + entries)[|entries|] == entries[|entries| - 1];
    hide Reads, WellFormed, EntriesWell, NodeDepth, EntriesDepth, Meaning, Stored, NameValue, Find, Put, Unseen;
    hide EntriesTokens;
  }

  /** The parts of a list of entries that is not empty. */
  lemma EntriesParts(e: Env, ms: seq<Member>, x: Entry, entries: seq<Entry>, trailing: bool)
    ensures EntriesTokens([x] + entries, trailing) ==
            [Tok(Loose, x.kind, x.text)]
            + ([COLON_TOK] + (NodeTokens(x.node) + MoreEntries(x.comma, entries, trailing)))
    ensures EntriesWell(e, [x] + entries) <==> WellNamed(e, x) && WellFormed(e, x.node) && EntriesWell(e, entries)
    ensures EntriesDepth([x] + entries) == Max(NodeDepth(x.node), EntriesDepth(entries))
    ensures Stored(e, [x] + entries, ms) == Stored(e, entries, Put(ms, NameOf(e, x), Meaning(e, x.node)))
  {
    hide WellNamed, WellFormed, NodeTokens, NodeDepth, Meaning, MoreEntries, Max, NameOf, Put;
    assert ([x] + entries)[1..] == entries;
  }

  lemma EntryReads(e: Env, doc: bytes, pos: nat, x: Entry, mid: nat, entries: seq<Entry>, trailing: bool, fin: nat)
    requires pos <= |doc|
    requires var t := LexPastComments(e.f, doc, pos);
             && x.kind == t.kind && x.text == TextOf(doc, t) && Lex(e.f, doc, t.end).kind == MemberSeparator
             && Reads(e.f, doc, Lex(e.f, doc, t.end).end, NodeTokens(x.node), mid)
    requires Reads(e.f, doc, mid, MoreEntries(x.comma, entries, trailing), fin)
    ensures Reads(e.f, doc, pos, EntriesTokens([x] + entries, trailing), fin)
  {
    EntriesParts(e, [], x, entries, trailing);
    var t := LexPastComments(e.f, doc, pos);
    var first, rest := NodeTokens(x.node), MoreEntries(x.comma, entries, trailing);
    var colon, name := Lex(e.f, doc, t.end), Tok(Loose, x.kind, x.text);
    assert Next(e.f, doc, pos, name);
    hide Lex, LexPastComments, Reads, NodeTokens, MoreEntries, Next, EntriesTokens;
    ReadsConcat(e.f, doc, colon.end, first, mid, rest, fin);
    NextPunctuation(e.f, doc, t.end, COLON_TOK);
    ReadsStep(e.f, doc, t.end, COLON_TOK, first + rest, fin);
    ReadsStep(e.f, doc, pos, name, [COLON_TOK] + (first + rest), fin);
  }

  lemma {:induction false} FindMoreEntries(e: Env, doc: bytes, pos: nat, depth: nat, ms: seq<Member>, name: bytes)
    returns (comma: Tok, entries: seq<Entry>, trailing: bool)
    requires pos <= |doc| && depth <= e.f.stackLimit
    requires Good(ReadMemberEnd(e, doc, pos, depth, ms, name))
    ensures MoreEntriesStand(e, doc, pos, depth, ms, name, comma, entries, trailing,
                             ReadMemberEnd(e, doc, pos, depth, ms, name))
    decreases |doc| - pos, 3
  {
    ReadMemberEndStep(e, doc, pos, depth, ms, name);
    hide *;
    var t, r := LexPastComments(e.f, doc, pos), ReadMemberEnd(e, doc, pos, depth, ms, name);
    GoodIs(r);
    if t.kind == ObjectEnd {
      comma, entries, trailing := COMMA_TOK, [], false;
      BraceStands(e, doc, pos, depth, ms, name, r);
    } else {
      GapPunctuation(e.f, doc, pos);
      entries, trailing := FindEntries(e, doc, t.end, depth, ms, name);
      comma := if t.kind == ArraySeparator then COMMA_TOK else Tok(Commented, t.kind, TextOf(doc, t));
      CommaStands(e, doc, pos, depth, ms, name, comma, entries, trailing, r);
      trailing := entries == [] || trailing;
    }
  }

  lemma BraceStands(e: Env, doc: bytes, pos: nat, depth: nat, ms: seq<Member>, name: bytes, r: Read)
    requires pos <= |doc| && depth <= e.f.stackLimit
    requires var t := LexPastComments(e.f, doc, pos); t.kind == ObjectEnd && r == Read(true, t.end, Object(ms), [])
    ensures MoreEntriesStand(e, doc, pos, depth, ms, name, COMMA_TOK, [], false, r)
  {
    hide LexPastComments, Reads;
    NextPunctuation(e.f, doc, pos, CLOSE_BRACE);
    ReadsOne(e.f, doc, pos, CLOSE_BRACE, r.pos);
    NoEntries(e, ms);
  }

  lemma CommaStands(
    e: Env, doc: bytes, pos: nat, depth: nat, ms: seq<Member>, name: bytes,
    comma: Tok, entries: seq<Entry>, trailing: bool, r: Read)
    requires pos <= |doc|
    requires var t := LexPastComments(e.f, doc, pos);
             && t.kind != ObjectEnd && (t.kind == ArraySeparator || Lex(e.f, doc, pos).kind == CommentToken)
             && comma == (if t.kind == ArraySeparator then COMMA_TOK else Tok(Commented, t.kind, TextOf(doc, t)))
             && EntriesStand(e, doc, t.end, depth, ms, name, entries, trailing, r)
    ensures MoreEntriesStand(e, doc, pos, depth, ms, name, comma, entries, entries == [] || trailing, r)
  {
    hide Lex, LexPastComments, Reads, EntriesWell, EntriesDepth, Stored, EntriesTokens, Unseen, NameOf;
    var t := LexPastComments(e.f, doc, pos);
    EntriesTrailing(entries, trailing);
    if t.kind == ArraySeparator {
      NextPunctuation(e.f, doc, pos, COMMA_TOK);
    }
    ReadsStep(e.f, doc, pos, comma, EntriesTokens(entries, entries == [] || trailing), r.pos);
  }

  lemma NoEntries(e: Env, ms: seq<Member>)
    ensures EntriesWell(e, []) && EntriesDepth([]) == 0 && Stored(e, [], ms) == ms && Unseen(e, [], ms)
  {
  }

  lemma EntriesTrailing(entries: seq<Entry>, trailing: bool)
    ensures entries == [] ==>
              EntriesTokens(entries, trailing) == EntriesTokens(entries, true) == EntriesTokens(entries, false)
  {
  }

  // ----- documents -----

  /** The document holds the tree `n` and nothing the settings object to. */
  ghost predicate Document(e: Env, doc: bytes, n: Node) {
    && WellFormed(e, n) && NodeDepth(n) <= e.f.stackLimit && (e.f.strictRoot ==> n.List? || n.Dict?)
    && exists fin :: Ends(e, doc, n, fin)
  }

  predicate Ends(e: Env, doc: bytes, n: Node, fin: nat) {
    && Reads(e.f, doc, DocumentStart(e.f, doc), NodeTokens(n), fin) && fin <= |doc|
    && (e.f.failIfExtra ==> LexValueStart(e.f, doc, fin).kind == EndOfStream)
  }

  lemma DocumentParses(e: Env, doc: bytes, n: Node, root: Value)
    requires Document(e, doc, n)
    ensures Parse(e, doc, root) == Parsed(true, Meaning(e, n), [])
  {
    var fin :| Ends(e, doc, n, fin);
    NodeRead(e, doc, DocumentStart(e.f, doc), 1, root, n, fin);
    LeafOrNot(e, n);
    hide WellFormed, Reads, ReadValue, LexValueStart, Meaning, NodeDepth;
  }

  lemma LeafOrNot(e: Env, n: Node)
    ensures n.List? == Meaning(e, n).Array? && n.Dict? == Meaning(e, n).Object?
  {
  }

  lemma ParsedIsDocument(e: Env, doc: bytes, root: Value) returns (n: Node)
    requires Parse(e, doc, root).Parsed? && Parse(e, doc, root).ok
    ensures Document(e, doc, n) && Parse(e, doc, root) == Parsed(true, Meaning(e, n), [])
  {
    var start := DocumentStart(e.f, doc);
    var r := ReadValue(e, doc, start, 1, root);
    n := FindNode(e, doc, start, 1, root);
    LeafOrNot(e, n);
    hide WellFormed, Reads, ReadValue, LexValueStart, Meaning, NodeDepth;
    assert Ends(e, doc, n, r.pos);
  }

  /** The reader accepts a document with the value `v` if and only if the document holds an
      admissible tree that means `v`. */
  lemma ParseExact(e: Env, doc: bytes, root: Value, v: Value)
    ensures Parse(e, doc, root) == Parsed(true, v, []) <==> exists n :: Document(e, doc, n) && Meaning(e, n) == v
  {
    hide *;
    forall n | Document(e, doc, n)
      ensures Parse(e, doc, root) == Parsed(true, Meaning(e, n), [])
    {
      DocumentParses(e, doc, n, root);
    }
    if Parse(e, doc, root) == Parsed(true, v, []) {
      var n := ParsedIsDocument(e, doc, root);
    }
  }
}
