/**
 The syntax of the JSON reader, apart from the reader: trees of tokens, the values they
 mean, and the tokens they are written as. A document is read against a tree token by
 token, white space before each and comments where the reader puts up with them.
 */
module JsonSyntax {
  import opened Bytes
  import opened JsonLexer
  import opened JsonString
  import opened JsonValue
  import opened JsonReader
  import JsonNumber

  /** What may precede a token besides white space: nothing, comments, comments where
      the settings allow them, or at least one comment. A token ahead is looked at and
      left where it is. */
  datatype Gap = Tight | Loose | AtValue | Commented | Ahead | CommentedAhead

  datatype Tok = Tok(gap: Gap, kind: TokenType, text: bytes)

  /** A document as the reader understands it. A missing value stands before the token
      that ends it; the comma of an entry separates it from what follows. */
  datatype Node =
    | Leaf(kind: TokenType, text: bytes)
    | Missing(before: TokenType, commented: bool)
    | List(nodes: seq<Node>, trailing: bool)
    | Dict(entries: seq<Entry>, trailing: bool)

  datatype Entry = Entry(kind: TokenType, text: bytes, node: Node, comma: Tok)

  const OPEN_BRACKET := Tok(AtValue, ArrayBegin, [LBRACKET])
  const CLOSE_BRACKET := Tok(Loose, ArrayEnd, [RBRACKET])
  const EMPTY_BRACKET := Tok(Tight, ArrayEnd, [RBRACKET])
  const OPEN_BRACE := Tok(AtValue, ObjectBegin, [LBRACE])
  const CLOSE_BRACE := Tok(Loose, ObjectEnd, [RBRACE])
  const COMMA_TOK := Tok(Loose, ArraySeparator, [COMMA])
  const COLON_TOK := Tok(Tight, MemberSeparator, [COLON])

  // ----- the tokens of a tree -----

  function NodeTokens(n: Node): seq<Tok>
    decreases n, 1
  {
    match n
    case Leaf(kind, text) => [Tok(AtValue, kind, text)]
    case Missing(before, commented) => [Tok(if commented then CommentedAhead else Ahead, before, [])]
    case List(nodes, trailing) => [OPEN_BRACKET] + NodesTokens(nodes, trailing)
    case Dict(entries, trailing) => [OPEN_BRACE] + EntriesTokens(entries, trailing)
  }

  /** Everything after the opening bracket or a comma. */
  function NodesTokens(nodes: seq<Node>, trailing: bool): seq<Tok>
    decreases nodes, 0
  {
    if nodes == [] then [EMPTY_BRACKET]
    else NodeTokens(nodes[0]) + MoreNodes(nodes[1..], trailing)
  }

  function MoreNodes(nodes: seq<Node>, trailing: bool): seq<Tok>
    decreases nodes, 1
  {
    if nodes == [] && !trailing then [CLOSE_BRACKET] else [COMMA_TOK] + NodesTokens(nodes, trailing)
  }

  function EntriesTokens(entries: seq<Entry>, trailing: bool): seq<Tok>
    decreases entries, 0
  {
    if entries == [] then [CLOSE_BRACE]
    else
      var x := entries[0];
      [Tok(Loose, x.kind, x.text)] + ([COLON_TOK] + (NodeTokens(x.node) + MoreEntries(x.comma, entries[1..], trailing)))
  }

  function MoreEntries(comma: Tok, entries: seq<Entry>, trailing: bool): seq<Tok>
    decreases entries, 1
  {
    if entries == [] && !trailing then [CLOSE_BRACE] else [comma] + EntriesTokens(entries, trailing)
  }

  // ----- the value of a tree -----

  /** A number token: the integer it denotes if a 64-bit type holds it, else a double. */
  function NumberValue(e: Env, text: bytes): Option<Value> {
    if text != [] && JsonNumber.AllDigits(JsonNumber.Magnitude(text)) &&
       JsonNumber.MIN_INT <= JsonNumber.TokenValue(text) <= JsonNumber.MAX_UINT then
      var n := JsonNumber.TokenValue(text);
      Some(if n <= JsonNumber.MAX_INT then Int(n) else UInt(n))
    else
      match e.toDouble(text)
      case Some(d) => Some(Real(d))
      case None => None
  }

  function StringValue(text: bytes): Option<bytes> {
    if |text| < 2 then None
    else
      match DecodeBody(text[1..|text| - 1])
      case Text(s) => Some(s)
      case Bad(_, _) => None
  }

  function LeafValue(e: Env, kind: TokenType, text: bytes): Option<Value> {
    match kind
    case NullToken => Some(Null)
    case TrueToken => Some(Bool(true))
    case FalseToken => Some(Bool(false))
    case NaNToken => Some(Real(NaN))
    case PosInfToken => Some(Real(PosInf))
    case NegInfToken => Some(Real(NegInf))
    case NumberToken => NumberValue(e, text)
    case StringToken =>
      (match StringValue(text)
       case Some(s) => Some(Str(s))
       case None => None)
    case _ => None
  }

  /** The name of a member: a string, or a number where the settings allow it. */
  function NameValue(e: Env, kind: TokenType, text: bytes): Option<bytes> {
    if kind == StringToken then StringValue(text)
    else if kind == NumberToken && e.f.allowNumericKeys then
      match NumberValue(e, text)
      case Some(v) => Some(NumberName(e, v))
      case None => None
    else None
  }

  function NameOf(e: Env, x: Entry): bytes {
    match NameValue(e, x.kind, x.text)
    case Some(name) => name
    case None => []
  }

  function Meaning(e: Env, n: Node): Value
    decreases n, 1
  {
    match n
    case Leaf(kind, text) =>
      (match LeafValue(e, kind, text)
       case Some(v) => v
       case None => Null)
    case Missing(_, _) => Null
    case List(nodes, _) => Array(MeaningAll(e, nodes))
    case Dict(entries, _) => Object(Stored(e, entries, []))
  }

  function MeaningAll(e: Env, nodes: seq<Node>): (r: seq<Value>)
    ensures |r| == |nodes|
    decreases nodes, 0
  {
    if nodes == [] then [] else [Meaning(e, nodes[0])] + MeaningAll(e, nodes[1..])
  }

  /** The members after the entries have been stored one after the other. */
  function Stored(e: Env, entries: seq<Entry>, ms: seq<Member>): seq<Member>
    decreases entries, 0
  {
    if entries == [] then ms
    else Stored(e, entries[1..], Put(ms, NameOf(e, entries[0]), Meaning(e, entries[0].node)))
  }

  function NodeDepth(n: Node): (d: nat)
    ensures d >= 1
    decreases n, 1
  {
    match n
    case Leaf(_, _) => 1
    case Missing(_, _) => 1
    case List(nodes, _) => 1 + NodesDepth(nodes)
    case Dict(entries, _) => 1 + EntriesDepth(entries)
  }

  function NodesDepth(nodes: seq<Node>): nat
    decreases nodes, 0
  {
    if nodes == [] then 0 else Max(NodeDepth(nodes[0]), NodesDepth(nodes[1..]))
  }

  function EntriesDepth(entries: seq<Entry>): nat
    decreases entries, 0
  {
    if entries == [] then 0 else Max(NodeDepth(entries[0].node), EntriesDepth(entries[1..]))
  }

  // ----- trees the settings admit -----

  /** Nothing at all before a closing bracket: no item when it follows the opening one. */
  const BARE_END := Missing(ArrayEnd, false)

  /** A separator between members: a comma, or after a comment any token but a closing brace. */
  predicate IsComma(t: Tok) {
    t == COMMA_TOK || (t.gap == Commented && t.kind != ObjectEnd && t.kind != CommentToken)
  }

  predicate TrailingItem(f: Features) {
    f.allowTrailingCommas && !f.allowDroppedNullPlaceholders
  }

  /** A brace may follow a comma where the settings say so, and after an empty name. */
  predicate TrailingMember(f: Features, last: bytes) {
    f.allowTrailingCommas || last == []
  }

  predicate Distinct(e: Env, entries: seq<Entry>) {
    forall i, j | 0 <= i < j < |entries| :: NameOf(e, entries[i]) != NameOf(e, entries[j])
  }

  predicate WellNamed(e: Env, x: Entry) {
    NameValue(e, x.kind, x.text).Some? && |NameOf(e, x)| < MAX_KEY_LENGTH && IsComma(x.comma)
  }

  predicate WellFormed(e: Env, n: Node)
    decreases n, 1
  {
    match n
    case Leaf(kind, text) => LeafValue(e, kind, text).Some?
    case Missing(before, _) => e.f.allowDroppedNullPlaceholders && IsPlaceholder(before)
    case List(nodes, trailing) =>
      && (trailing && nodes != [] ==> TrailingItem(e.f))
      && (nodes != [] ==> nodes[0] != BARE_END)
      && AllWell(e, nodes)
    case Dict(entries, trailing) =>
      && (trailing && entries != [] ==> TrailingMember(e.f, NameOf(e, entries[|entries| - 1])))
      && (e.f.rejectDupKeys ==> Distinct(e, entries))
      && EntriesWell(e, entries)
  }

  predicate AllWell(e: Env, nodes: seq<Node>)
    decreases nodes, 0
  {
    nodes == [] || (WellFormed(e, nodes[0]) && AllWell(e, nodes[1..]))
  }

  predicate EntriesWell(e: Env, entries: seq<Entry>)
    decreases entries, 0
  {
    entries == [] || (WellNamed(e, entries[0]) && WellFormed(e, entries[0].node) && EntriesWell(e, entries[1..]))
  }

  // ----- what an object holds -----

  /** The value of the last entry with name `k`, if there is one. */
  function LastNamed(e: Env, entries: seq<Entry>, k: bytes): Option<Value> {
    if entries == [] then None
    else
      var x := entries[|entries| - 1];
      if NameOf(e, x) == k then Some(Meaning(e, x.node)) else LastNamed(e, entries[..|entries| - 1], k)
  }

  lemma {:induction false} StoredLast(e: Env, entries: seq<Entry>, ms: seq<Member>)
    requires entries != []
    ensures var n := |entries| - 1;
            Stored(e, entries, ms) ==
            Put(Stored(e, entries[..n], ms), NameOf(e, entries[n]), Meaning(e, entries[n].node))
  {
    hide Put, NameOf, Meaning;
    var n := |entries| - 1;
    if n == 0 {
      assert entries[1..] == [] && entries[..0] == [];
    } else {
      var x := entries[0];
      StoredLast(e, entries[1..], Put(ms, NameOf(e, x), Meaning(e, x.node)));
      assert entries[1..][..n - 1] == entries[..n][1..];
    }
  }

  /** Looking up a name in the object of a document, members in any order and repeated
      names included: the value of the last entry with that name, and nothing else. */
  lemma {:induction false} LookupLast(e: Env, entries: seq<Entry>, k: bytes)
    ensures Find(Stored(e, entries, []), k) == LastNamed(e, entries, k)
    decreases |entries|
  {
    hide NameOf, Meaning, Put, Find;
    if entries == [] {
      FindNothing(k);
    } else {
      var n := |entries| - 1;
      StoredLast(e, entries, []);
      PutFinds(Stored(e, entries[..n], []), NameOf(e, entries[n]), Meaning(e, entries[n].node), k);
      LookupLast(e, entries[..n], k);
    }
  }

  lemma FindNothing(k: bytes)
    ensures Find([], k) == None
  {
  }

  lemma {:induction false} StoredSorted(e: Env, entries: seq<Entry>, ms: seq<Member>)
    requires Sorted(ms)
    ensures Sorted(Stored(e, entries, ms))
    decreases |entries|
  {
    hide NameOf, Meaning, Put, Sorted;
    if entries != [] {
      PutSorted(ms, NameOf(e, entries[0]), Meaning(e, entries[0].node));
      StoredSorted(e, entries[1..], Put(ms, NameOf(e, entries[0]), Meaning(e, entries[0].node)));
    }
  }

  /** Looking up any name in `ms` gives the value of the last entry with that name. */
  ghost predicate HoldsLast(e: Env, entries: seq<Entry>, ms: seq<Member>) {
    forall k :: Find(ms, k) == LastNamed(e, entries, k)
  }

  lemma StoredHoldsLast(e: Env, entries: seq<Entry>)
    ensures Sorted(Stored(e, entries, [])) && HoldsLast(e, entries, Stored(e, entries, []))
  {
    StoredSorted(e, entries, []);
    forall k
      ensures Find(Stored(e, entries, []), k) == LastNamed(e, entries, k)
    {
      LookupLast(e, entries, k);
    }
  }

  /** The object a document means is the one sorted list of members that holds, under
      every name, the value of the last entry with that name. */
  lemma ObjectMeaning(e: Env, entries: seq<Entry>, trailing: bool, ms: seq<Member>)
    ensures Meaning(e, Dict(entries, trailing)) == Object(ms) <==> Sorted(ms) && HoldsLast(e, entries, ms)
  {
    StoredHoldsLast(e, entries);
    if Sorted(ms) && HoldsLast(e, entries, ms) {
      assert SameLookup(Stored(e, entries, []), ms);
      LookupDetermines(Stored(e, entries, []), ms);
    }
  }

  /** An array of a document holds the values of its items in order. */
  lemma {:induction false} ArrayMeaning(e: Env, nodes: seq<Node>, k: nat)
    requires k < |nodes|
    ensures MeaningAll(e, nodes)[k] == Meaning(e, nodes[k])
  {
    if k > 0 {
      ArrayMeaning(e, nodes[1..], k - 1);
    }
  }
}
