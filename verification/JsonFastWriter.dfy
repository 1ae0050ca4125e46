/**
 `FastWriter`: one line of text per value. `FastText` is the text it appends; the
 class is the appending code, and `FastTextSpells` says what the text means.
 */
module JsonFastWriter {
  import opened Bytes
  import opened JsonString
  import opened JsonValue
  import opened JsonSyntax
  import opened JsonTokens
  import opened JsonSpelling
  import opened JsonDocument
  import JsonNumber

  datatype Options = Options(yamlCompatible: bool, dropNulls: bool, fromDouble: Double -> bytes) {
    function ColonText(): bytes {
      if yamlCompatible then [COLON, SPACE] else [COLON]
    }
  }

  function FastText(o: Options, v: Value): bytes
    decreases v, 1
  {
    match v
    case Null => if o.dropNulls then [] else NULL_TEXT
    case Bool(b) => if b then TRUE_TEXT else FALSE_TEXT
    case Int(i) => JsonNumber.IntText(i)
    case UInt(u) => JsonNumber.IntText(u)
    case Real(d) => o.fromDouble(d)
    case Str(s) => Quote(s, false)
    case Array(items) => [LBRACKET] + ItemsText(o, items)
    case Object(ms) => [LBRACE] + MembersText(o, ms)
  }

  function ItemsText(o: Options, items: seq<Value>): bytes
    decreases items, 0
  {
    if items == [] then [RBRACKET] else FastText(o, items[0]) + MoreItemsText(o, items[1..])
  }

  function MoreItemsText(o: Options, items: seq<Value>): bytes
    decreases items, 1
  {
    if items == [] then [RBRACKET] else [COMMA] + ItemsText(o, items)
  }

  function MembersText(o: Options, ms: seq<Member>): bytes
    decreases ms, 0
  {
    if ms == [] then [RBRACE]
    else Quote(ms[0].key, false) + o.ColonText() + (FastText(o, ms[0].value) + MoreMembersText(o, ms[1..]))
  }

  function MoreMembersText(o: Options, ms: seq<Member>): bytes
    decreases ms, 1
  {
    if ms == [] then [RBRACE] else [COMMA] + MembersText(o, ms)
  }

  /** Integers are of the width their constructors say. */
  ghost predicate InRange(v: Value) {
    match v
    case Int(i) => JsonNumber.MIN_INT <= i <= JsonNumber.MAX_INT
    case UInt(u) => 0 <= u <= JsonNumber.MAX_UINT
    case Array(items) => forall i | 0 <= i < |items| :: InRange(items[i])
    case Object(ms) => forall i | 0 <= i < |ms| :: InRange(ms[i].value)
    case _ => true
  }

  class FastWriter {
    const options: Options
    const omitEndingLineFeed: bool
    var document: bytes

    constructor (options: Options, omitEndingLineFeed: bool)
      ensures this.options == options && this.omitEndingLineFeed == omitEndingLineFeed
      ensures document == []
    {
      this.options := options;
      this.omitEndingLineFeed := omitEndingLineFeed;
      document := [];
    }

    method Write(root: Value)
      requires InRange(root)
      modifies this
      ensures document == FastText(options, root) + if omitEndingLineFeed then [] else [LF]
    {
      document := [];
      WriteValue(root);
      if !omitEndingLineFeed {
        document := document + [LF];
      }
    }

    method WriteValue(v: Value)
      requires InRange(v)
      modifies this
      ensures document == old(document) + FastText(options, v)
      decreases v, 1
    {
      match v
      case Null =>
        if !options.dropNulls {
          document := document + NULL_TEXT;
        }
      case Bool(b) =>
        document := document + if b then TRUE_TEXT else FALSE_TEXT;
      case Int(i) =>
        var text := JsonNumber.ValueToStringSigned(i as JsonNumber.int64);
        document := document + text;
      case UInt(u) =>
        var text := JsonNumber.ValueToStringUnsigned(u as JsonNumber.uint64);
        document := document + text;
      case Real(d) =>
        document := document + options.fromDouble(d);
      case Str(s) =>
        var text := ValueToQuotedString(s, false);
        document := document + text;
      case Array(items) =>
        WriteArray(v);
      case Object(ms) =>
        WriteObject(v);
    }

    method WriteArray(v: Value)
      requires v.Array? && InRange(v)
      modifies this
      ensures document == old(document) + FastText(options, v)
      decreases v, 0
    {
      hide ItemsText, MoreItemsText;
      ghost var goal := document + [LBRACKET] + ItemsText(options, v.items);
      document := document + [LBRACKET];
      var index := 0;
      assert v.items[0..] == v.items;
      while index < |v.items|
        invariant index <= |v.items|
        invariant document + (if index == 0 then ItemsText(options, v.items) else MoreItemsText(options, v.items[index..]))
               == goal
      {
        if index > 0 {
          MoreItemsStep(options, v.items[index..], document);
          document := document + [COMMA];
        }
        ItemsStep(options, v.items[index..], document);
        WriteItem(v, index);
        assert v.items[index..][1..] == v.items[index + 1..];
        index := index + 1;
      }
      NoMoreItems(options, v.items[index..]);
      document := document + [RBRACKET];
    }

    method WriteObject(v: Value)
      requires v.Object? && InRange(v)
      modifies this
      ensures document == old(document) + FastText(options, v)
      decreases v, 0
    {
      hide MembersText, MoreMembersText, Quote;
      ghost var goal := document + [LBRACE] + MembersText(options, v.members);
      document := document + [LBRACE];
      var it := 0;
      assert v.members[0..] == v.members;
      while it < |v.members|
        invariant it <= |v.members|
        invariant document + (if it == 0 then MembersText(options, v.members) else MoreMembersText(options, v.members[it..]))
               == goal
      {
        if it > 0 {
          MoreMembersStep(options, v.members[it..], document);
          document := document + [COMMA];
        }
        MembersStep(options, v.members[it..], document);
        WriteMember(v, it);
        assert v.members[it..][1..] == v.members[it + 1..];
        it := it + 1;
      }
      NoMoreMembers(options, v.members[it..]);
      document := document + [RBRACE];
    }

    method WriteItem(v: Value, index: nat)
      requires v.Array? && InRange(v) && index < |v.items|
      modifies this
      ensures document == old(document) + FastText(options, v.items[index])
      decreases v, 0, 0
    {
      WriteValue(v.items[index]);
    }

    method WriteMember(v: Value, it: nat)
      requires v.Object? && InRange(v) && it < |v.members|
      modifies this
      ensures document == old(document) + MemberText(options, v.members[it])
      decreases v, 0, 0
    {
      hide FastText, Quote;
      var m := v.members[it];
      var name := ValueToQuotedString(m.key, false);
      document := document + name;
      document := document + options.ColonText();
      WriteValue(m.value);
    }
  }

  function MemberText(o: Options, m: Member): bytes {
    Quote(m.key, false) + o.ColonText() + FastText(o, m.value)
  }

  lemma MoreItemsStep(o: Options, items: seq<Value>, doc: bytes)
    requires items != []
    ensures doc + MoreItemsText(o, items) == (doc + [COMMA]) + ItemsText(o, items)
  {
    hide ItemsText;
  }

  lemma ItemsStep(o: Options, items: seq<Value>, doc: bytes)
    requires items != []
    ensures doc + ItemsText(o, items) == (doc + FastText(o, items[0])) + MoreItemsText(o, items[1..])
  {
    hide FastText, MoreItemsText;
  }

  lemma NoMoreItems(o: Options, items: seq<Value>)
    requires items == []
    ensures ItemsText(o, items) == MoreItemsText(o, items) == [RBRACKET]
  {
  }

  lemma MoreMembersStep(o: Options, ms: seq<Member>, doc: bytes)
    requires ms != []
    ensures doc + MoreMembersText(o, ms) == (doc + [COMMA]) + MembersText(o, ms)
  {
    hide MembersText;
  }

  lemma MembersStep(o: Options, ms: seq<Member>, doc: bytes)
    requires ms != []
    ensures doc + MembersText(o, ms) == (doc + MemberText(o, ms[0])) + MoreMembersText(o, ms[1..])
  {
    hide FastText, MoreMembersText, Quote;
    var head, body, tail := Quote(ms[0].key, false) + o.ColonText(), FastText(o, ms[0].value), MoreMembersText(o, ms[1..]);
    assert doc + (head + (body + tail)) == (doc + (head + body)) + tail;
  }

  lemma NoMoreMembers(o: Options, ms: seq<Member>)
    requires ms == []
    ensures MembersText(o, ms) == MoreMembersText(o, ms) == [RBRACE]
  {
  }

  // ----- meaning -----

  /** The texts of tokens one behind the other, each colon as the options spell it. */
  function Dense(o: Options, ts: seq<Tok>): bytes {
    if ts == [] then []
    else (if ts[0] == COLON_TOK then o.ColonText() else ts[0].text) + Dense(o, ts[1..])
  }

  lemma {:induction false} DenseConcat(o: Options, a: seq<Tok>, b: seq<Tok>)
    ensures Dense(o, a + b) == Dense(o, a) + Dense(o, b)
    decreases |a|
  {
    if a == [] {
      assert a + b == b;
    } else {
      DenseConcat(o, a[1..], b);
      assert (a + b)[1..] == a[1..] + b;
    }
  }

  lemma DenseOne(o: Options, t: Tok)
    requires t != COLON_TOK
    ensures Dense(o, [t]) == t.text
  {
    assert [t][1..] == [];
  }

  lemma DenseCons(o: Options, t: Tok, ts: seq<Tok>)
    requires t != COLON_TOK
    ensures Dense(o, [t] + ts) == t.text + Dense(o, ts)
  {
    assert ([t] + ts)[1..] == ts;
  }

  /** `FastWriter` prints the tokens of a value and nothing between them, but for the
      space behind a colon that the option asks for. */
  lemma {:induction false} FastTextDense(o: Options, v: Value)
    requires Printable(v, false) && !o.dropNulls
    ensures FastText(o, v) == Dense(o, Tokens(v, false))
    decreases v, 1
  {
    PrintableParts(v, false);
    hide Dense, Printable;
    if v.Array? {
      ItemsTextDense(o, v.items);
      DenseCons(o, OPEN_BRACKET, ItemsTokens(v.items, false));
    } else if v.Object? {
      MembersTextDense(o, v.members);
      DenseCons(o, OPEN_BRACE, MembersTokens(v.members, false));
    } else {
      ScalarDense(o, v);
    }
  }

  lemma ScalarDense(o: Options, v: Value)
    requires Printable(v, false) && !o.dropNulls && !v.Array? && !v.Object?
    ensures FastText(o, v) == Dense(o, Tokens(v, false))
  {
    hide Dense, Quote, JsonNumber.IntText;
    DenseOne(o, Tokens(v, false)[0]);
  }

  lemma {:induction false} ItemsTextDense(o: Options, items: seq<Value>)
    requires ItemsPrintable(items, false) && !o.dropNulls
    ensures ItemsText(o, items) == Dense(o, ItemsTokens(items, false))
    decreases items, 0
  {
    hide Tokens, FastText, Dense, Printable;
    if items == [] {
      DenseOne(o, EMPTY_BRACKET);
    } else {
      FastTextDense(o, items[0]);
      ItemsTextDense(o, items[1..]);
      DenseOne(o, CLOSE_BRACKET);
      DenseCons(o, COMMA_TOK, ItemsTokens(items[1..], false));
      DenseConcat(o, Tokens(items[0], false), MoreItems(items[1..], false));
    }
  }

  lemma {:induction false} MembersTextDense(o: Options, ms: seq<Member>)
    requires MembersPrintable(ms, false) && !o.dropNulls
    ensures MembersText(o, ms) == Dense(o, MembersTokens(ms, false))
    decreases ms, 0
  {
    hide Tokens, FastText, Dense, Printable, Quote;
    if ms == [] {
      DenseOne(o, CLOSE_BRACE);
    } else {
      assert MemberPrintable(ms[0], false);
      FastTextDense(o, ms[0].value);
      MembersTextDense(o, ms[1..]);
      DenseOne(o, CLOSE_BRACE);
      DenseCons(o, COMMA_TOK, MembersTokens(ms[1..], false));
      DenseConcat(o, Tokens(ms[0].value, false), MoreMembers(ms[1..], false));
      NameDense(o, ms[0].key, Tokens(ms[0].value, false) + MoreMembers(ms[1..], false));
    }
  }

  lemma NameDense(o: Options, key: bytes, ts: seq<Tok>)
    ensures Dense(o, [NameTok(key, false), COLON_TOK] + ts) == Quote(key, false) + o.ColonText() + Dense(o, ts)
  {
    hide Quote;
    var name := NameTok(key, false);
    assert [name, COLON_TOK] + ts == [name] + ([COLON_TOK] + ts);
    DenseCons(o, name, [COLON_TOK] + ts);
    assert ([COLON_TOK] + ts)[1..] == ts;
  }

  /** Texts for a token and for the tokens after it spell them together. */
  lemma SpellsCons(t: Tok, rest: bytes, ts: seq<Tok>)
    requires Visible(t) && Spells(rest, ts)
    ensures Spells(t.text + rest, [t] + ts)
  {
    hide Spells;
    SpellsOne(t);
    SpellsConcat(t.text, [t], rest, ts);
  }

  lemma {:induction false} DenseSpells(o: Options, ts: seq<Tok>)
    requires AllVisible(ts)
    ensures Spells(Dense(o, ts), ts)
    decreases |ts|
  {
    hide Spells;
    if ts == [] {
      SpellsSpaces([]);
    } else {
      DenseSpells(o, ts[1..]);
      assert ts == [ts[0]] + ts[1..];
      if ts[0] == COLON_TOK {
        ColonSpells();
        SpellsConcat(o.ColonText(), [COLON_TOK], Dense(o, ts[1..]), ts[1..]);
      } else {
        SpellsCons(ts[0], Dense(o, ts[1..]), ts[1..]);
      }
    }
  }

  lemma ColonSpells()
    ensures Spells([COLON], [COLON_TOK]) && Spells([COLON, SPACE], [COLON_TOK])
  {
    SpellsOne(COLON_TOK);
    SpellsSpaces([SPACE]);
    SpellsConcat([COLON], [COLON_TOK], [SPACE], []);
    assert [COLON] + [SPACE] == [COLON, SPACE];
    assert [COLON_TOK] + [] == [COLON_TOK];
  }

  /** What `FastWriter` prints spells the tokens of the value. */
  lemma FastTextSpells(o: Options, v: Value)
    requires Printable(v, false) && !o.dropNulls
    ensures Spells(FastText(o, v), Tokens(v, false))
  {
    hide Spells, FastText, Tokens, Printable;
    FastTextDense(o, v);
    TokensVisible(v, false);
    DenseSpells(o, Tokens(v, false));
  }

  lemma FastDocumentSpells(o: Options, omitEndingLineFeed: bool, v: Value)
    requires Printable(v, false) && !o.dropNulls
    ensures Spells(FastText(o, v) + if omitEndingLineFeed then [] else [LF], Tokens(v, false))
  {
    hide Spells;
    FastTextSpells(o, v);
    TokensVisible(v, false);
    var ending := if omitEndingLineFeed then [] else [LF];
    SpellsSpaces(ending);
    SpellsConcat(FastText(o, v), Tokens(v, false), ending, []);
    assert Tokens(v, false) + [] == Tokens(v, false);
  }
}
