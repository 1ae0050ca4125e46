/**
 The tokens a value is written as: those of a tree that the reader takes for the value
 again, whatever white space or comments separate them.
 */
module JsonTokens {
  import opened Bytes
  import opened JsonUtf8
  import opened JsonLexer
  import opened JsonString
  import opened JsonValue
  import opened JsonReader
  import opened JsonSyntax
  import JsonNumber

  function StringTok(s: bytes, emitUtf8: bool): Tok {
    Tok(AtValue, StringToken, Quote(s, emitUtf8))
  }

  function NameTok(key: bytes, emitUtf8: bool): Tok {
    Tok(Loose, StringToken, Quote(key, emitUtf8))
  }

  function Tokens(v: Value, emitUtf8: bool): seq<Tok>
    decreases v, 1
  {
    match v
    case Null => [Tok(AtValue, NullToken, NULL_TEXT)]
    case Bool(b) => [if b then Tok(AtValue, TrueToken, TRUE_TEXT) else Tok(AtValue, FalseToken, FALSE_TEXT)]
    case Int(i) => [Tok(AtValue, NumberToken, JsonNumber.IntText(i))]
    case UInt(u) => [Tok(AtValue, NumberToken, JsonNumber.IntText(u))]
    case Real(_) => []
    case Str(s) => [StringTok(s, emitUtf8)]
    case Array(items) => [OPEN_BRACKET] + ItemsTokens(items, emitUtf8)
    case Object(ms) => [OPEN_BRACE] + MembersTokens(ms, emitUtf8)
  }

  /** Everything after the opening bracket of an array. */
  function ItemsTokens(items: seq<Value>, emitUtf8: bool): seq<Tok>
    decreases items, 0
  {
    if items == [] then [EMPTY_BRACKET]
    else Tokens(items[0], emitUtf8) + MoreItems(items[1..], emitUtf8)
  }

  /** Everything after an item of an array, `items` being those still to come. */
  function MoreItems(items: seq<Value>, emitUtf8: bool): seq<Tok>
    decreases items, 1
  {
    if items == [] then [CLOSE_BRACKET] else [COMMA_TOK] + ItemsTokens(items, emitUtf8)
  }

  function MembersTokens(ms: seq<Member>, emitUtf8: bool): seq<Tok>
    decreases ms, 0
  {
    if ms == [] then [CLOSE_BRACE]
    else [NameTok(ms[0].key, emitUtf8), COLON_TOK] + (Tokens(ms[0].value, emitUtf8) + MoreMembers(ms[1..], emitUtf8))
  }

  function MoreMembers(ms: seq<Member>, emitUtf8: bool): seq<Tok>
    decreases ms, 1
  {
    if ms == [] then [CLOSE_BRACE] else [COMMA_TOK] + MembersTokens(ms, emitUtf8)
  }

  // ----- the tree of a value -----

  function NodeOf(v: Value, emitUtf8: bool): Node
    decreases v, 1
  {
    match v
    case Null => Leaf(NullToken, NULL_TEXT)
    case Bool(b) => if b then Leaf(TrueToken, TRUE_TEXT) else Leaf(FalseToken, FALSE_TEXT)
    case Int(i) => Leaf(NumberToken, JsonNumber.IntText(i))
    case UInt(u) => Leaf(NumberToken, JsonNumber.IntText(u))
    case Real(_) => Leaf(NumberToken, [])
    case Str(s) => Leaf(StringToken, Quote(s, emitUtf8))
    case Array(items) => List(NodesOf(items, emitUtf8), false)
    case Object(ms) => Dict(EntriesOf(ms, emitUtf8), false)
  }

  function NodesOf(items: seq<Value>, emitUtf8: bool): (r: seq<Node>)
    ensures |r| == |items|
    decreases items, 0
  {
    if items == [] then [] else [NodeOf(items[0], emitUtf8)] + NodesOf(items[1..], emitUtf8)
  }

  function EntryOf(m: Member, emitUtf8: bool): Entry
    decreases m
  {
    Entry(StringToken, Quote(m.key, emitUtf8), NodeOf(m.value, emitUtf8), COMMA_TOK)
  }

  function EntriesOf(ms: seq<Member>, emitUtf8: bool): (r: seq<Entry>)
    ensures |r| == |ms|
    ensures forall i | 0 <= i < |ms| :: r[i] == EntryOf(ms[i], emitUtf8)
    decreases ms, 0
  {
    if ms == [] then [] else [EntryOf(ms[0], emitUtf8)] + EntriesOf(ms[1..], emitUtf8)
  }

  ghost predicate ItemsPrintable(items: seq<Value>, emitUtf8: bool) {
    forall i | 0 <= i < |items| :: Printable(items[i], emitUtf8)
  }

  ghost predicate MemberPrintable(m: Member, emitUtf8: bool) {
    |m.key| < MAX_KEY_LENGTH && Preserved(m.key, emitUtf8) && Printable(m.value, emitUtf8)
  }

  ghost predicate MembersPrintable(ms: seq<Member>, emitUtf8: bool) {
    forall i | 0 <= i < |ms| :: MemberPrintable(ms[i], emitUtf8)
  }

  /** The tree of a value has its tokens, its depth and its canonical form as meaning. */
  ghost predicate Mirrors(e: Env, v: Value, emitUtf8: bool) {
    var n := NodeOf(v, emitUtf8);
    && NodeTokens(n) == Tokens(v, emitUtf8) && WellFormed(e, n)
    && Meaning(e, n) == Canonical(v) && NodeDepth(n) == Depth(v)
  }

  lemma QuoteValue(s: bytes, emitUtf8: bool)
    requires Preserved(s, emitUtf8)
    ensures StringValue(Quote(s, emitUtf8)) == Some(s)
  {
    hide QuoteBody, DecodeBody, ValidUtf8;
    var q := Quote(s, emitUtf8);
    assert q[1..|q| - 1] == QuoteBody(s, emitUtf8);
    StringRoundTrip(s, emitUtf8);
  }

  lemma NumberText(e: Env, n: int)
    requires JsonNumber.MIN_INT <= n <= JsonNumber.MAX_UINT
    ensures NumberValue(e, JsonNumber.IntText(n)) == Some(if n <= JsonNumber.MAX_INT then Int(n) else UInt(n))
  {
    JsonNumber.IntegerRoundTrip(n);
    hide JsonNumber.IntText, JsonNumber.TokenValue;
  }

  lemma ScalarMirrors(e: Env, v: Value, emitUtf8: bool)
    requires Printable(v, emitUtf8) && !v.Array? && !v.Object?
    ensures Mirrors(e, v, emitUtf8)
  {
    hide Quote, JsonNumber.IntText, NumberValue, StringValue;
    match v {
      case Int(i) => NumberText(e, i);
      case UInt(u) => NumberText(e, u);
      case Str(s) => QuoteValue(s, emitUtf8);
      case _ =>
    }
  }

  lemma {:induction false} NodeMirrors(e: Env, v: Value, emitUtf8: bool)
    requires Printable(v, emitUtf8)
    ensures Mirrors(e, v, emitUtf8)
    decreases v, 1
  {
    if v.Array? {
      hide Printable;
      assert ItemsPrintable(v.items, emitUtf8) by { PrintableParts(v, emitUtf8); }
      NodesMirror(e, v.items, emitUtf8);
      ArrayMirrors(e, v, emitUtf8);
    } else if v.Object? {
      hide Printable;
      PrintableParts(v, emitUtf8);
      EntriesMirror(e, v.members, emitUtf8);
      ObjectMirrors(e, v, emitUtf8);
    } else {
      ScalarMirrors(e, v, emitUtf8);
    }
  }

  lemma PrintableParts(v: Value, emitUtf8: bool)
    requires Printable(v, emitUtf8)
    ensures v.Array? ==> ItemsPrintable(v.items, emitUtf8)
    ensures v.Object? ==> Sorted(v.members) && MembersPrintable(v.members, emitUtf8)
  {
  }

  lemma ArrayMirrors(e: Env, v: Value, emitUtf8: bool)
    requires v.Array? && NodesMatch(e, v.items, emitUtf8)
    ensures Mirrors(e, v, emitUtf8)
  {
    hide NodesOf, NodesTokens, ItemsTokens, AllWell, MeaningAll, CanonicalItems, NodesDepth, ItemsDepth;
  }

  ghost predicate NodesMatch(e: Env, items: seq<Value>, emitUtf8: bool) {
    var ns := NodesOf(items, emitUtf8);
    && NodesTokens(ns, false) == ItemsTokens(items, emitUtf8) && AllWell(e, ns) && (ns != [] ==> ns[0] != BARE_END)
    && MeaningAll(e, ns) == CanonicalItems(items) && NodesDepth(ns) == ItemsDepth(items)
  }

  lemma {:induction false} NodesMirror(e: Env, items: seq<Value>, emitUtf8: bool)
    requires ItemsPrintable(items, emitUtf8)
    ensures NodesMatch(e, items, emitUtf8)
    decreases items, 0
  {
    if items != [] {
      NodeMirrors(e, items[0], emitUtf8);
      NodesMirror(e, items[1..], emitUtf8);
      NodeOfPresent(items[0], emitUtf8);
      NodesJoin(e, items, emitUtf8);
    }
  }

  lemma NodesJoin(e: Env, items: seq<Value>, emitUtf8: bool)
    requires items != [] && Mirrors(e, items[0], emitUtf8) && NodesMatch(e, items[1..], emitUtf8)
    requires !NodeOf(items[0], emitUtf8).Missing?
    ensures NodesMatch(e, items, emitUtf8)
  {
    hide Tokens, NodeTokens, NodeOf, WellFormed, Meaning, Canonical, Depth, NodeDepth;
    var ns, more := NodesOf(items, emitUtf8), NodesOf(items[1..], emitUtf8);
    assert ns[0] == NodeOf(items[0], emitUtf8) && ns[1..] == more;
    assert MoreNodes(more, false) == MoreItems(items[1..], emitUtf8);
    assert NodesTokens(ns, false) == NodeTokens(ns[0]) + MoreNodes(more, false);
  }

  lemma NodeOfPresent(v: Value, emitUtf8: bool)
    ensures !NodeOf(v, emitUtf8).Missing?
  {
  }

  ghost predicate EntriesMatch(e: Env, ms: seq<Member>, emitUtf8: bool) {
    var xs := EntriesOf(ms, emitUtf8);
    && EntriesTokens(xs, false) == MembersTokens(ms, emitUtf8) && EntriesWell(e, xs)
    && EntriesDepth(xs) == MembersDepth(ms)
    && forall i | 0 <= i < |ms| :: NameOf(e, xs[i]) == ms[i].key && Meaning(e, xs[i].node) == Canonical(ms[i].value)
  }

  lemma EntryMirrors(e: Env, m: Member, emitUtf8: bool)
    requires MemberPrintable(m, emitUtf8)
    ensures var x := EntryOf(m, emitUtf8);
            WellNamed(e, x) && NameOf(e, x) == m.key && Tok(Loose, x.kind, x.text) == NameTok(m.key, emitUtf8)
  {
    hide Printable, Quote, StringValue;
    QuoteValue(m.key, emitUtf8);
  }

  lemma {:induction false} EntriesMirror(e: Env, ms: seq<Member>, emitUtf8: bool)
    requires MembersPrintable(ms, emitUtf8)
    ensures EntriesMatch(e, ms, emitUtf8)
    decreases ms, 0
  {
    if ms != [] {
      assert MemberPrintable(ms[0], emitUtf8);
      EntryMirrors(e, ms[0], emitUtf8);
      NodeMirrors(e, ms[0].value, emitUtf8);
      EntriesMirror(e, ms[1..], emitUtf8);
      EntriesJoin(e, ms, emitUtf8);
    }
  }

  lemma EntriesJoin(e: Env, ms: seq<Member>, emitUtf8: bool)
    requires ms != [] && Mirrors(e, ms[0].value, emitUtf8) && EntriesMatch(e, ms[1..], emitUtf8)
    requires var x := EntryOf(ms[0], emitUtf8);
             WellNamed(e, x) && NameOf(e, x) == ms[0].key && Tok(Loose, x.kind, x.text) == NameTok(ms[0].key, emitUtf8)
    ensures EntriesMatch(e, ms, emitUtf8)
  {
    hide Tokens, NodeTokens, NodeOf, WellFormed, Meaning, Canonical, Depth, NodeDepth, Quote, WellNamed, NameOf;
    var xs := EntriesOf(ms, emitUtf8);
    assert xs[1..] == EntriesOf(ms[1..], emitUtf8);
    var name, rest := NameTok(ms[0].key, emitUtf8), Tokens(ms[0].value, emitUtf8) + MoreMembers(ms[1..], emitUtf8);
    assert [name] + ([COLON_TOK] + rest) == [name, COLON_TOK] + rest;
    assert MoreEntries(COMMA_TOK, xs[1..], false) == MoreMembers(ms[1..], emitUtf8);
    assert xs[0] == EntryOf(ms[0], emitUtf8);
    assert EntriesTokens(xs, false) == [name] + ([COLON_TOK] + rest);
    forall i | 0 <= i < |ms|
      ensures NameOf(e, xs[i]) == ms[i].key && Meaning(e, xs[i].node) == Canonical(ms[i].value)
    {
      if i > 0 {
        assert xs[i] == xs[1..][i - 1] && ms[i] == ms[1..][i - 1];
      }
    }
  }

  lemma {:induction false} CanonicalSnoc(ms: seq<Member>, k: nat)
    requires k < |ms|
    ensures CanonicalMembers(ms[..k + 1])
         == CanonicalMembers(ms[..k]) + [Member(ms[k].key, Canonical(ms[k].value))]
  {
    if k > 0 {
      assert ms[..k + 1][1..] == ms[1..][..k] && ms[..k][1..] == ms[1..][..k - 1];
      CanonicalSnoc(ms[1..], k - 1);
    }
  }

  /** Storing the members in their order appends one after the other. */
  lemma {:induction false} StoredInOrder(e: Env, ms: seq<Member>, k: nat, emitUtf8: bool)
    requires Sorted(ms) && EntriesMatch(e, ms, emitUtf8) && k <= |ms|
    ensures Stored(e, EntriesOf(ms, emitUtf8)[k..], CanonicalMembers(ms[..k])) == CanonicalMembers(ms)
    decreases |ms| - k
  {
    hide KeyLess, Put, Meaning, NameOf, Canonical, CanonicalMembers, EntriesTokens, EntriesWell, EntriesDepth;
    hide EntryOf, EntriesOf;
    var xs, done := EntriesOf(ms, emitUtf8), CanonicalMembers(ms[..k]);
    if k == |ms| {
      assert xs[k..] == [] && ms[..k] == ms;
    } else {
      forall i | 0 <= i < |done|
        ensures KeyLess(done[i].key, ms[k].key)
      {
        assert done[i].key == ms[..k][i].key == ms[i].key;
      }
      PutLast(done, ms[k].key, Canonical(ms[k].value));
      CanonicalSnoc(ms, k);
      assert xs[k..][0] == xs[k] && xs[k..][1..] == xs[k + 1..];
      StoredInOrder(e, ms, k + 1, emitUtf8);
    }
  }

  lemma ObjectMirrors(e: Env, v: Value, emitUtf8: bool)
    requires v.Object? && Sorted(v.members) && EntriesMatch(e, v.members, emitUtf8)
    ensures Mirrors(e, v, emitUtf8)
  {
    var ms, xs := v.members, EntriesOf(v.members, emitUtf8);
    StoredInOrder(e, ms, 0, emitUtf8);
    assert xs[0..] == xs && CanonicalMembers(ms[..0]) == [];
    NamesDistinct(e, ms, emitUtf8);
    hide EntriesOf, EntriesTokens, MembersTokens, EntriesWell, Stored, CanonicalMembers, EntriesDepth, MembersDepth;
    hide Sorted, NameOf;
  }

  lemma NamesDistinct(e: Env, ms: seq<Member>, emitUtf8: bool)
    requires Sorted(ms) && EntriesMatch(e, ms, emitUtf8)
    ensures Distinct(e, EntriesOf(ms, emitUtf8))
  {
    hide NameOf, EntriesOf, EntriesTokens, EntriesWell, EntriesDepth, Meaning, Canonical, KeyLess;
    forall i, j | 0 <= i < j < |ms|
      ensures ms[i].key != ms[j].key
    {
      KeyLessAsymmetric(ms[i].key, ms[j].key);
    }
  }
}
