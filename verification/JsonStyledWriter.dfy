/**
 `BuiltStyledStreamWriter` on values without comments: indentation, single-line and
 multi-line arrays, and the pre-rendered children the layout decision leaves behind.
 `Styled` is the layout as a function of the value, the class is the writing code, and
 `StyledSpells` says what the text means.
 */
module JsonStyledWriter {
  import opened Bytes
  import opened JsonString
  import opened JsonValue
  import opened JsonReader
  import opened JsonSyntax
  import opened JsonGrammar
  import opened JsonTokens
  import opened JsonSpelling
  import opened JsonDocument
  import JsonFastWriter
  import JsonNumber

  const RIGHT_MARGIN := 74
  const TWO_32 := 0x1_0000_0000

  datatype CommentStyle = NoComments | AllComments

  datatype Style = Style(
    indentation: bytes,
    comments: CommentStyle,
    colonSymbol: bytes,
    nullSymbol: bytes,
    endingLineFeedSymbol: bytes,
    emitUtf8: bool,
    fromDouble: Double -> bytes)
  {
    /** White space only around the tokens, and nulls not dropped. */
    predicate Plain() {
      && AllSpaces(indentation) && AllSpaces(endingLineFeedSymbol)
      && nullSymbol == NULL_TEXT && Spells(colonSymbol, [COLON_TOK])
    }

    /** What separates the items of an array on one line from the brackets and commas. */
    function Gap(): bytes {
      if indentation == [] then [] else [SPACE]
    }
  }

  // ----- the layout -----

  /** What precedes a text that is to begin a line. */
  function Lead(s: Style, indent: bytes, indented: bool): bytes {
    if indented || s.indentation == [] then [] else [LF] + indent
  }

  function ScalarText(s: Style, v: Value): bytes
    requires !v.Array? && !v.Object?
  {
    match v
    case Null => s.nullSymbol
    case Bool(b) => if b then TRUE_TEXT else FALSE_TEXT
    case Int(i) => JsonNumber.IntText(i)
    case UInt(u) => JsonNumber.IntText(u)
    case Real(d) => s.fromDouble(d)
    case Str(str) => Quote(str, s.emitUtf8)
  }

  /** A scalar or an empty container: what a single-line array may hold. */
  predicate IsFlat(v: Value) {
    match v
    case Array(items) => items == []
    case Object(ms) => ms == []
    case _ => true
  }

  predicate AllFlat(items: seq<Value>) {
    forall i | 0 <= i < |items| :: IsFlat(items[i])
  }

  function FlatText(s: Style, v: Value): bytes
    requires IsFlat(v)
  {
    if v.Array? then [LBRACKET, RBRACKET] else if v.Object? then [LBRACE, RBRACE] else ScalarText(s, v)
  }

  function FlatTexts(s: Style, items: seq<Value>): (r: seq<bytes>)
    requires AllFlat(items)
    ensures |r| == |items|
  {
    if items == [] then [] else [FlatText(s, items[0])] + FlatTexts(s, items[1..])
  }

  lemma {:induction false} FlatAt(s: Style, items: seq<Value>, k: nat)
    requires AllFlat(items) && k < |items|
    ensures FlatTexts(s, items)[k] == FlatText(s, items[k])
    ensures FlatTexts(s, items)[..k + 1] == FlatTexts(s, items)[..k] + [FlatText(s, items[k])]
  {
    hide FlatText;
    if k > 0 {
      FlatAt(s, items[1..], k - 1);
    }
  }

  /** The length of all texts together. */
  function TotalLength(texts: seq<bytes>): nat {
    if texts == [] then 0 else TotalLength(texts[..|texts| - 1]) + |texts[|texts| - 1]|
  }

  /** The line that an array of `n` items makes with the first of them, in 32-bit arithmetic. */
  function LineSoFar(n: nat, texts: seq<bytes>): (l: nat)
    requires n > 0
  {
    (4 + (n - 1) * 2 + TotalLength(texts)) % TWO_32
  }

  /** Arrays that are put on several lines whatever their items look like. */
  predicate ManyLines(items: seq<Value>) {
    |items| * 3 % TWO_32 >= RIGHT_MARGIN || !AllFlat(items)
  }

  predicate MultiLine(s: Style, items: seq<Value>)
    requires items != []
  {
    s.comments == AllComments || ManyLines(items) || LineSoFar(|items|, FlatTexts(s, items)) >= RIGHT_MARGIN
  }

  function Joined(texts: seq<bytes>, separator: bytes): bytes {
    if texts == [] then []
    else texts[0] + if |texts| == 1 then [] else separator + Joined(texts[1..], separator)
  }

  function OneLine(s: Style, texts: seq<bytes>): bytes {
    [LBRACKET] + s.Gap() + (Joined(texts, [COMMA] + s.Gap()) + (s.Gap() + [RBRACKET]))
  }

  /** The text of a value at an indentation, `indented` if its line has begun. */
  function Styled(s: Style, v: Value, indent: bytes, indented: bool): bytes
    decreases v, 2
  {
    if IsFlat(v) then FlatText(s, v)
    else
      match v
      case Object(ms) =>
        Lead(s, indent, indented) + [LBRACE] +
        (StyledMembers(s, ms, indent + s.indentation) + (Lead(s, indent, false) + [RBRACE]))
      case Array(items) =>
        if MultiLine(s, items) then
          Lead(s, indent, indented) + [LBRACKET] +
          (StyledItems(s, items, indent + s.indentation) + (Lead(s, indent, false) + [RBRACKET]))
        else OneLine(s, FlatTexts(s, items))
  }

  /** Members on lines of their own, the value behind name and colon. */
  function StyledMembers(s: Style, ms: seq<Member>, indent: bytes): bytes
    decreases ms, 0
  {
    if ms == [] then []
    else StyledMember(s, ms[0], indent) + if |ms| == 1 then [] else [COMMA] + StyledMembers(s, ms[1..], indent)
  }

  function StyledMember(s: Style, m: Member, indent: bytes): bytes
    decreases m, 0
  {
    Lead(s, indent, false) + Quote(m.key, s.emitUtf8) + s.colonSymbol + Styled(s, m.value, indent, false)
  }

  /** Items on lines of their own. */
  function StyledItems(s: Style, items: seq<Value>, indent: bytes): bytes
    decreases items, 0
  {
    if items == [] then []
    else StyledItem(s, items[0], indent) + if |items| == 1 then [] else [COMMA] + StyledItems(s, items[1..], indent)
  }

  function StyledItem(s: Style, v: Value, indent: bytes): bytes
    decreases v, 3
  {
    Lead(s, indent, false) + Styled(s, v, indent, true)
  }

  // ----- steps of the layout -----

  lemma MembersStep(s: Style, ms: seq<Member>, indent: bytes, doc: bytes)
    requires ms != []
    ensures doc + StyledMembers(s, ms, indent) ==
            (doc + StyledMember(s, ms[0], indent)) + if |ms| == 1 then [] else [COMMA] + StyledMembers(s, ms[1..], indent)
  {
    hide StyledMember;
  }

  lemma ItemsStep(s: Style, items: seq<Value>, indent: bytes, doc: bytes)
    requires items != []
    ensures doc + StyledItems(s, items, indent) ==
            (doc + StyledItem(s, items[0], indent)) +
            if |items| == 1 then [] else [COMMA] + StyledItems(s, items[1..], indent)
  {
    hide StyledItem;
  }

  /** What is still to come of the joined texts when `index` of them are written. */
  function Remaining(texts: seq<bytes>, index: nat, separator: bytes): bytes
    requires index <= |texts|
  {
    if index == 0 then Joined(texts, separator)
    else if index < |texts| then separator + Joined(texts[index..], separator)
    else []
  }

  lemma RemainingStep(texts: seq<bytes>, index: nat, separator: bytes, doc: bytes)
    requires index < |texts|
    ensures doc + Remaining(texts, index, separator) ==
            ((if index > 0 then doc + separator else doc) + texts[index]) + Remaining(texts, index + 1, separator)
  {
    assert texts[index..][1..] == texts[index + 1..] && texts[0..] == texts;
    var more := if index + 1 < |texts| then separator + Joined(texts[index + 1..], separator) else [];
    assert Joined(texts[index..], separator) == texts[index] + more;
    assert Remaining(texts, index + 1, separator) == more;
  }

  lemma RemainingEnds(texts: seq<bytes>, separator: bytes)
    ensures Remaining(texts, 0, separator) == Joined(texts, separator)
    ensures texts != [] ==> Remaining(texts, |texts|, separator) == []
  {
  }

  /** The brackets and separators of a line with `n` items. */
  function LineStart(n: nat): nat
    requires n > 0
  {
    (4 + (n - 1) * 2) % TWO_32
  }

  lemma NoTexts(n: nat)
    requires n > 0
    ensures LineSoFar(n, []) == LineStart(n)
  {
  }

  function Lengthened(line: nat, text: bytes): nat {
    (line + |text|) % TWO_32
  }

  lemma LongerBy(n: nat, texts: seq<bytes>, text: bytes)
    requires n > 0
    ensures Lengthened(LineSoFar(n, texts), text) == LineSoFar(n, texts + [text])
  {
    assert (texts + [text])[..|texts|] == texts;
    assert TotalLength(texts + [text]) == TotalLength(texts) + |text|;
    Wrapped(4 + (n - 1) * 2 + TotalLength(texts), |text|);
  }

  lemma Wrapped(x: nat, y: nat)
    ensures (x % TWO_32 + y) % TWO_32 == (x + y) % TWO_32
  {
    var q, r := x / TWO_32, (x % TWO_32 + y) % TWO_32;
    var p := (x % TWO_32 + y) / TWO_32;
    assert x + y == (q + p) * TWO_32 + r;
  }

  lemma Regroup(a: bytes, b: bytes, c: bytes, d: bytes)
    ensures ((a + b) + c) + d == a + (b + (c + d))
  {
  }

  class StyledWriter {
    const s: Style
    var sout: bytes
    var childValues: seq<bytes>
    var indentString: bytes
    var addChildValues: bool
    var indented: bool

    constructor (s: Style)
      ensures this.s == s && sout == [] && Valid()
    {
      this.s := s;
      sout := [];
      childValues := [];
      indentString := [];
      addChildValues := false;
      indented := false;
    }

    ghost predicate Valid()
      reads this
    {
      s.comments == AllComments ==> childValues == [] && !addChildValues
    }

    method PushValue(value: bytes)
      modifies this`sout, this`childValues
      ensures if addChildValues then sout == old(sout) && childValues == old(childValues) + [value]
              else sout == old(sout) + value && childValues == old(childValues)
    {
      if addChildValues {
        childValues := childValues + [value];
      } else {
        sout := sout + value;
      }
    }

    method WriteIndent()
      modifies this`sout
      ensures sout == old(sout) + Lead(s, indentString, false)
    {
      if |s.indentation| != 0 {
        sout := sout + ([LF] + indentString);
      }
    }

    method WriteWithIndent(value: bytes)
      modifies this`sout, this`indented
      ensures sout == old(sout) + (Lead(s, indentString, old(indented)) + value) && !indented
    {
      if !indented {
        WriteIndent();
      }
      sout := sout + value;
      indented := false;
    }

    method Indent()
      modifies this`indentString
      ensures indentString == old(indentString) + s.indentation
    {
      indentString := indentString + s.indentation;
    }

    method Unindent()
      requires |indentString| >= |s.indentation|
      modifies this`indentString
      ensures indentString == old(indentString)[..|old(indentString)| - |s.indentation|]
    {
      indentString := indentString[..|indentString| - |s.indentation|];
    }

    /** Appends `text` to the output outside the rendering of children, keeps the
        indentation and begins no line. */
    twostate predicate Wrote(text: bytes)
      reads this
    {
      && Valid() && !old(addChildValues) && !addChildValues
      && indentString == old(indentString) && (indented ==> old(indented))
      && sout == old(sout) + text
    }

    /** `writeValue`: prints the value, or while children are rendered pushes its text. */
    method WriteValue(v: Value)
      requires Valid() && JsonFastWriter.InRange(v)
      requires addChildValues ==> IsFlat(v)
      modifies this
      ensures !old(addChildValues) ==> Wrote(Styled(s, v, old(indentString), old(indented)))
      ensures old(addChildValues) ==>
                && Valid() && addChildValues && indentString == old(indentString) && indented == old(indented)
                && sout == old(sout) && childValues == old(childValues) + [FlatText(s, v)]
      decreases v, 3
    {
      hide JsonFastWriter.InRange, ScalarText;
      if v.Array? {
        WriteArrayValue(v);
      } else if v.Object? {
        if |v.members| == 0 {
          PushValue([LBRACE, RBRACE]);
        } else {
          WriteObject(v);
        }
      } else {
        var text := Render(v);
        PushValue(text);
      }
    }

    /** The text of a scalar. */
    method Render(v: Value) returns (text: bytes)
      requires !v.Array? && !v.Object? && JsonFastWriter.InRange(v)
      ensures text == ScalarText(s, v)
    {
      match v {
      case Null => text := s.nullSymbol;
      case Bool(b) => text := if b then TRUE_TEXT else FALSE_TEXT;
      case Int(i) => text := JsonNumber.ValueToStringSigned(i as JsonNumber.int64);
      case UInt(u) => text := JsonNumber.ValueToStringUnsigned(u as JsonNumber.uint64);
      case Real(d) => text := s.fromDouble(d);
      case Str(str) => text := ValueToQuotedString(str, s.emitUtf8);
      }
    }

    method WriteObject(v: Value)
      requires Valid() && !addChildValues && v.Object? && v.members != [] && JsonFastWriter.InRange(v)
      modifies this
      ensures Wrote(Styled(s, v, old(indentString), old(indented)))
      decreases v, 1
    {
      hide StyledMembers, StyledMember, JsonFastWriter.InRange, Lead;
      ghost var lead, inner := Lead(s, indentString, indented) + [LBRACE], indentString + s.indentation;
      ghost var open := sout + lead;
      WriteWithIndent([LBRACE]);
      Indent();
      var it := 0;
      assert v.members[0..] == v.members;
      while true
        invariant it < |v.members|
        invariant Valid() && !addChildValues && !indented && indentString == inner
        invariant sout + StyledMembers(s, v.members[it..], inner) == open + StyledMembers(s, v.members, inner)
        decreases |v.members| - it
      {
        MembersStep(s, v.members[it..], inner, sout);
        WriteMember(v, it);
        assert v.members[it..][1..] == v.members[it + 1..];
        it := it + 1;
        if it == |v.members| {
          break;
        }
        sout := sout + [COMMA];
      }
      assert sout == open + StyledMembers(s, v.members, inner);
      Unindent();
      assert indentString == old(indentString);
      WriteWithIndent([RBRACE]);
      Regroup(old(sout), lead, StyledMembers(s, v.members, inner), Lead(s, indentString, false) + [RBRACE]);
    }

    /** A name, the colon symbol and the value. */
    method WriteMember(v: Value, it: nat)
      requires Valid() && !addChildValues && !indented && v.Object? && it < |v.members| && JsonFastWriter.InRange(v)
      modifies this
      ensures Wrote(StyledMember(s, v.members[it], old(indentString)))
      decreases v, 0
    {
      hide Quote, Lead;
      var m := v.members[it];
      var name := ValueToQuotedString(m.key, s.emitUtf8);
      WriteWithIndent(name);
      sout := sout + s.colonSymbol;
      WriteValue(m.value);
    }

    // ----- arrays -----

    method WriteArrayValue(v: Value)
      requires Valid() && v.Array? && JsonFastWriter.InRange(v)
      requires addChildValues ==> v.items == []
      modifies this
      ensures !old(addChildValues) ==> Wrote(Styled(s, v, old(indentString), old(indented)))
      ensures old(addChildValues) ==>
                && Valid() && addChildValues && indentString == old(indentString) && indented == old(indented)
                && sout == old(sout) && childValues == old(childValues) + [FlatText(s, v)]
      decreases v, 2
    {
      hide JsonFastWriter.InRange, LineSoFar, ManyLines;
      if |v.items| == 0 {
        PushValue([LBRACKET, RBRACKET]);
        return;
      }
      var isMultiLine := true;
      if s.comments == NoComments {
        isMultiLine := IsMultilineArray(v);
      }
      if isMultiLine {
        WriteMultiline(v);
      } else {
        WriteSingleLine(v);
      }
    }

    /** The children are rendered, one text each. */
    ghost predicate Rendered(items: seq<Value>)
      reads this`childValues
    {
      AllFlat(items) && childValues == FlatTexts(s, items)
    }

    /** `isMultilineArray`: arrays with many items, with items that are not empty containers,
        or whose items make too long a line. In the last case, and when it answers no, the
        children are all rendered, so the assertion on their number holds. */
    method IsMultilineArray(v: Value) returns (isMultiLine: bool)
      requires Valid() && !addChildValues && s.comments == NoComments
      requires v.Array? && v.items != [] && JsonFastWriter.InRange(v)
      modifies this
      ensures Wrote([]) && indented == old(indented)
      ensures isMultiLine == MultiLine(s, v.items)
      ensures if ManyLines(v.items) then childValues == [] else Rendered(v.items)
      decreases v, 1
    {
      hide JsonFastWriter.InRange, LineSoFar, FlatText;
      isMultiLine := |v.items| * 3 % TWO_32 >= RIGHT_MARGIN;
      childValues := [];
      var index := 0;
      while index < |v.items| && !isMultiLine
        invariant index <= |v.items| && (isMultiLine ==> ManyLines(v.items))
        invariant !isMultiLine ==> |v.items| * 3 % TWO_32 < RIGHT_MARGIN
        invariant !isMultiLine ==> forall i | 0 <= i < index :: IsFlat(v.items[i])
      {
        isMultiLine := !IsFlat(v.items[index]);
        index := index + 1;
      }
      if !isMultiLine {
        var lineLength := RenderChildren(v);
        isMultiLine := lineLength >= RIGHT_MARGIN;
      }
    }

    method RenderChildren(v: Value) returns (lineLength: nat)
      requires Valid() && !addChildValues && s.comments == NoComments && childValues == []
      requires v.Array? && v.items != [] && JsonFastWriter.InRange(v) && AllFlat(v.items)
      modifies this
      ensures Wrote([]) && indented == old(indented) && Rendered(v.items)
      ensures lineLength == LineSoFar(|v.items|, FlatTexts(s, v.items))
      decreases v, 0
    {
      NoTexts(|v.items|);
      hide LineSoFar, LineStart, FlatText, FlatTexts, TotalLength, Lengthened;
      addChildValues := true;
      lineLength := LineStart(|v.items|);
      var index := 0;
      while index < |v.items|
        invariant index == |childValues| <= |v.items|
        invariant Valid() && addChildValues && indentString == old(indentString) && indented == old(indented)
        invariant sout == old(sout)
        invariant lineLength == LineSoFar(|v.items|, childValues)
        invariant childValues == FlatTexts(s, v.items)[..index]
      {
        ghost var collected := childValues;
        FlatAt(s, v.items, index);
        WriteValue(v.items[index]);
        LongerBy(|v.items|, collected, childValues[index]);
        lineLength := Lengthened(lineLength, childValues[index]);
        index := index + 1;
      }
      addChildValues := false;
    }

    method WriteSingleLine(v: Value)
      requires Valid() && !addChildValues && v.Array? && v.items != [] && Rendered(v.items)
      modifies this`sout
      ensures Wrote(OneLine(s, FlatTexts(s, v.items)))
    {
      hide Joined, FlatTexts, Remaining;
      RemainingEnds(childValues, [COMMA] + s.Gap());
      var gap := s.Gap();
      ghost var goal := sout + ([LBRACKET] + gap) + Joined(childValues, [COMMA] + gap);
      sout := sout + ([LBRACKET] + gap);
      var index := 0;
      while index < |v.items|
        invariant index <= |v.items| == |childValues|
        invariant sout + Remaining(childValues, index, [COMMA] + gap) == goal
      {
        RemainingStep(childValues, index, [COMMA] + gap, sout);
        if index > 0 {
          sout := sout + ([COMMA] + gap);
        }
        sout := sout + childValues[index];
        index := index + 1;
      }
      assert sout == goal;
      sout := sout + (gap + [RBRACKET]);
      Regroup(old(sout), [LBRACKET] + gap, Joined(childValues, [COMMA] + gap), gap + [RBRACKET]);
    }

    method WriteMultiline(v: Value)
      requires Valid() && !addChildValues && v.Array? && v.items != [] && JsonFastWriter.InRange(v)
      requires MultiLine(s, v.items) && (childValues == [] || Rendered(v.items))
      modifies this
      ensures Wrote(Styled(s, v, old(indentString), old(indented)))
      decreases v, 1
    {
      hide StyledItems, StyledItem, JsonFastWriter.InRange, Lead, MultiLine, Rendered;
      ghost var lead, inner := Lead(s, indentString, indented) + [LBRACKET], indentString + s.indentation;
      ghost var open := sout + lead;
      WriteWithIndent([LBRACKET]);
      Indent();
      var hasChildValue := |childValues| != 0;
      var index := 0;
      assert v.items[0..] == v.items;
      while true
        invariant index < |v.items|
        invariant Valid() && !addChildValues && !indented && indentString == inner
        invariant hasChildValue ==> Rendered(v.items)
        invariant sout + StyledItems(s, v.items[index..], inner) == open + StyledItems(s, v.items, inner)
        decreases |v.items| - index
      {
        ItemsStep(s, v.items[index..], inner, sout);
        WriteItem(v, index, hasChildValue);
        assert v.items[index..][1..] == v.items[index + 1..];
        index := index + 1;
        if index == |v.items| {
          break;
        }
        sout := sout + [COMMA];
      }
      assert sout == open + StyledItems(s, v.items, inner);
      Unindent();
      assert indentString == old(indentString);
      WriteWithIndent([RBRACKET]);
      Regroup(old(sout), lead, StyledItems(s, v.items, inner), Lead(s, indentString, false) + [RBRACKET]);
    }

    /** One item of a multi-line array: its rendered text if there is one. */
    method WriteItem(v: Value, index: nat, hasChildValue: bool)
      requires Valid() && !addChildValues && !indented && v.Array? && index < |v.items| && JsonFastWriter.InRange(v)
      requires hasChildValue ==> Rendered(v.items)
      modifies this
      ensures Wrote(StyledItem(s, v.items[index], old(indentString)))
      ensures hasChildValue ==> Rendered(v.items)
      decreases v, 0
    {
      hide FlatText, FlatTexts, Lead;
      if hasChildValue {
        FlatAt(s, v.items, index);
        WriteWithIndent(childValues[index]);
      } else {
        if !indented {
          WriteIndent();
        }
        indented := true;
        WriteValue(v.items[index]);
        indented := false;
      }
    }

    // ----- documents -----

    /** `write` on a value without comments: the text of the value at no indentation, then
        the ending. */
    method Write(root: Value)
      requires Valid() && JsonFastWriter.InRange(root)
      modifies this
      ensures Valid() && sout == Styled(s, root, [], true) + s.endingLineFeedSymbol
    {
      sout := [];
      addChildValues := false;
      indented := true;
      indentString := [];
      WriteValue(root);
      sout := sout + s.endingLineFeedSymbol;
    }
  }

  // ----- meaning -----

  /** White space in front. */
  lemma SpellsBehind(spaces: bytes, text: bytes, ts: seq<Tok>)
    requires AllSpaces(spaces) && Spells(text, ts)
    ensures Spells(spaces + text, ts)
  {
    hide Spells;
    SpellsSpaces(spaces);
    SpellsConcat(spaces, [], text, ts);
    assert [] + ts == ts;
  }

  /** A closing bracket or brace on a line of its own or behind white space. */
  lemma CloserSpells(spaces: bytes, t: Tok)
    requires AllSpaces(spaces) && Visible(t)
    ensures Spells(spaces + t.text, [t])
  {
    SpellsOne(t);
    SpellsBehind(spaces, t.text, [t]);
  }

  lemma ValueConcat(v: Value, emitUtf8: bool, text: bytes, rest: bytes, ts: seq<Tok>)
    requires Printable(v, emitUtf8) && Spells(text, Tokens(v, emitUtf8)) && Spells(rest, ts)
    ensures Spells(text + rest, Tokens(v, emitUtf8) + ts)
  {
    hide Spells, Tokens, Printable;
    TokensVisible(v, emitUtf8);
    SpellsConcat(text, Tokens(v, emitUtf8), rest, ts);
  }

  lemma FlatSpells(s: Style, v: Value)
    requires s.Plain() && Printable(v, s.emitUtf8) && IsFlat(v)
    ensures Spells(FlatText(s, v), Tokens(v, s.emitUtf8))
  {
    hide Spells, Printable, Quote, JsonNumber.IntText;
    if v.Array? {
      PairSpells(OPEN_BRACKET, EMPTY_BRACKET);
      assert Tokens(v, s.emitUtf8) == [OPEN_BRACKET, EMPTY_BRACKET];
    } else if v.Object? {
      PairSpells(OPEN_BRACE, CLOSE_BRACE);
      assert Tokens(v, s.emitUtf8) == [OPEN_BRACE, CLOSE_BRACE];
    } else {
      TokensVisible(v, s.emitUtf8);
      ScalarSpells(s, v);
    }
  }

  lemma PairSpells(a: Tok, b: Tok)
    requires |a.text| == 1 && |b.text| == 1 && Visible(a) && Visible(b)
    ensures Spells([a.text[0], b.text[0]], [a, b])
  {
    hide Spells;
    SpellsOne(b);
    JsonFastWriter.SpellsCons(a, b.text, [b]);
    assert [a] + [b] == [a, b] && a.text + b.text == [a.text[0], b.text[0]];
  }

  lemma ScalarSpells(s: Style, v: Value)
    requires s.nullSymbol == NULL_TEXT && !v.Array? && !v.Object? && Printable(v, s.emitUtf8)
    requires AllVisible(Tokens(v, s.emitUtf8))
    ensures Spells(ScalarText(s, v), Tokens(v, s.emitUtf8))
  {
    hide Spells, Quote, JsonNumber.IntText;
    var t := Tokens(v, s.emitUtf8)[0];
    assert Visible(t);
    SpellsOne(t);
  }

  /** Whatever the layout, the text of a printable value spells its tokens. */
  lemma {:induction false} StyledSpells(s: Style, v: Value, indent: bytes, indented: bool)
    requires s.Plain() && Printable(v, s.emitUtf8) && AllSpaces(indent)
    ensures Spells(Styled(s, v, indent, indented), Tokens(v, s.emitUtf8))
    decreases v, 2
  {
    PrintableParts(v, s.emitUtf8);
    hide Spells, Printable, Style.Plain, MultiLine, StyledMembers, StyledItems, ItemsTokens, MembersTokens;
    hide FlatText, FlatTexts;
    var lead, inner, back := Lead(s, indent, indented), indent + s.indentation, Lead(s, indent, false);
    if IsFlat(v) {
      FlatSpells(s, v);
    } else if v.Object? {
      IndentSpaces(s, indent, indented);
      CloserSpells(back, CLOSE_BRACE);
      MembersSpell(s, v.members, inner, back + [RBRACE]);
      var rest := StyledMembers(s, v.members, inner) + (back + [RBRACE]);
      OpenSpells(lead, OPEN_BRACE, rest, MembersTokens(v.members, s.emitUtf8));
    } else if MultiLine(s, v.items) {
      IndentSpaces(s, indent, indented);
      CloserSpells(back, CLOSE_BRACKET);
      ItemsSpell(s, v.items, inner, back + [RBRACKET]);
      var rest := StyledItems(s, v.items, inner) + (back + [RBRACKET]);
      OpenSpells(lead, OPEN_BRACKET, rest, ItemsTokens(v.items, s.emitUtf8));
    } else {
      OneLineSpells(s, v.items);
    }
  }

  lemma IndentSpaces(s: Style, indent: bytes, indented: bool)
    requires s.Plain() && AllSpaces(indent)
    ensures AllSpaces(indent + s.indentation) && AllSpaces(Lead(s, indent, indented)) && AllSpaces(Lead(s, indent, false))
  {
    hide Spells;
  }

  lemma OpenSpells(lead: bytes, t: Tok, rest: bytes, ts: seq<Tok>)
    requires AllSpaces(lead) && Visible(t) && Spells(rest, ts)
    ensures Spells(lead + t.text + rest, [t] + ts)
  {
    hide Spells;
    JsonFastWriter.SpellsCons(t, rest, ts);
    SpellsBehind(lead, t.text + rest, [t] + ts);
    assert lead + (t.text + rest) == lead + t.text + rest;
  }

  lemma {:induction false} MembersSpell(s: Style, ms: seq<Member>, indent: bytes, tail: bytes)
    requires s.Plain() && ms != [] && MembersPrintable(ms, s.emitUtf8) && AllSpaces(indent) && Spells(tail, [CLOSE_BRACE])
    ensures Spells(StyledMembers(s, ms, indent) + tail, MembersTokens(ms, s.emitUtf8))
    decreases ms, 0
  {
    hide Spells, Printable, Style.Plain, Tokens, Styled, Quote, Lead;
    var m, body := ms[0], Styled(s, ms[0].value, indent, false);
    assert MemberPrintable(m, s.emitUtf8);
    StyledSpells(s, m.value, indent, false);
    var rest := tail;
    if |ms| > 1 {
      MembersSpell(s, ms[1..], indent, tail);
      rest := [COMMA] + (StyledMembers(s, ms[1..], indent) + tail);
      JsonFastWriter.SpellsCons(COMMA_TOK, StyledMembers(s, ms[1..], indent) + tail, MembersTokens(ms[1..], s.emitUtf8));
    }
    ValueConcat(m.value, s.emitUtf8, body, rest, MoreMembers(ms[1..], s.emitUtf8));
    MemberSpells(s, m.key, indent, body + rest, Tokens(m.value, s.emitUtf8) + MoreMembers(ms[1..], s.emitUtf8));
    var head := Lead(s, indent, false) + Quote(m.key, s.emitUtf8) + s.colonSymbol;
    assert StyledMembers(s, ms, indent) + tail == head + (body + rest);
  }

  /** A name on its line, the colon symbol, and what follows. */
  lemma MemberSpells(s: Style, key: bytes, indent: bytes, rest: bytes, ts: seq<Tok>)
    requires s.Plain() && AllSpaces(indent) && Spells(rest, ts)
    ensures Spells(Lead(s, indent, false) + Quote(key, s.emitUtf8) + s.colonSymbol + rest,
                   [NameTok(key, s.emitUtf8), COLON_TOK] + ts)
  {
    IndentSpaces(s, indent, false);
    var lead, q, name := Lead(s, indent, false), Quote(key, s.emitUtf8), NameTok(key, s.emitUtf8);
    assert Visible(name) && Visible(COLON_TOK);
    hide Spells, Quote, Lead;
    SpellsConcat(s.colonSymbol, [COLON_TOK], rest, ts);
    OpenSpells(lead, name, s.colonSymbol + rest, [COLON_TOK] + ts);
    assert lead + q + s.colonSymbol + rest == lead + q + (s.colonSymbol + rest);
    assert [name] + ([COLON_TOK] + ts) == [name, COLON_TOK] + ts;
  }

  lemma {:induction false} ItemsSpell(s: Style, items: seq<Value>, indent: bytes, tail: bytes)
    requires s.Plain() && items != [] && ItemsPrintable(items, s.emitUtf8) && AllSpaces(indent)
    requires Spells(tail, [CLOSE_BRACKET])
    ensures Spells(StyledItems(s, items, indent) + tail, ItemsTokens(items, s.emitUtf8))
    decreases items, 0
  {
    hide Spells, Printable, Style.Plain, Tokens, Styled, Lead;
    var lead, body := Lead(s, indent, false), Styled(s, items[0], indent, true);
    StyledSpells(s, items[0], indent, true);
    IndentSpaces(s, indent, false);
    var rest := tail;
    if |items| > 1 {
      ItemsSpell(s, items[1..], indent, tail);
      rest := [COMMA] + (StyledItems(s, items[1..], indent) + tail);
      JsonFastWriter.SpellsCons(COMMA_TOK, StyledItems(s, items[1..], indent) + tail, ItemsTokens(items[1..], s.emitUtf8));
    }
    ValueConcat(items[0], s.emitUtf8, body, rest, MoreItems(items[1..], s.emitUtf8));
    SpellsBehind(lead, body + rest, ItemsTokens(items, s.emitUtf8));
    assert StyledItems(s, items, indent) + tail == lead + (body + rest);
  }

  lemma OneLineSpells(s: Style, items: seq<Value>)
    requires s.Plain() && items != [] && AllFlat(items) && ItemsPrintable(items, s.emitUtf8)
    ensures Spells(OneLine(s, FlatTexts(s, items)), [OPEN_BRACKET] + ItemsTokens(items, s.emitUtf8))
  {
    hide Spells, Printable, Style.Plain, FlatTexts, ItemsTokens, Joined;
    var gap := s.Gap();
    CloserSpells(gap, CLOSE_BRACKET);
    JoinedSpells(s, items, gap + [RBRACKET]);
    var rest := Joined(FlatTexts(s, items), [COMMA] + gap) + (gap + [RBRACKET]);
    SpellsBehind(gap, rest, ItemsTokens(items, s.emitUtf8));
    JsonFastWriter.SpellsCons(OPEN_BRACKET, gap + rest, ItemsTokens(items, s.emitUtf8));
    assert [LBRACKET] + (gap + rest) == [LBRACKET] + gap + rest;
  }

  lemma {:induction false} JoinedSpells(s: Style, items: seq<Value>, tail: bytes)
    requires s.Plain() && items != [] && AllFlat(items) && ItemsPrintable(items, s.emitUtf8) && Spells(tail, [CLOSE_BRACKET])
    ensures Spells(Joined(FlatTexts(s, items), [COMMA] + s.Gap()) + tail, ItemsTokens(items, s.emitUtf8))
    decreases |items|
  {
    hide Spells, Printable, Style.Plain, Tokens, FlatText;
    var gap, body, texts := s.Gap(), FlatText(s, items[0]), FlatTexts(s, items);
    assert texts[1..] == FlatTexts(s, items[1..]);
    FlatSpells(s, items[0]);
    var rest := tail;
    if |items| > 1 {
      JoinedSpells(s, items[1..], tail);
      var more := Joined(texts[1..], [COMMA] + gap) + tail;
      SpellsBehind(gap, more, ItemsTokens(items[1..], s.emitUtf8));
      JsonFastWriter.SpellsCons(COMMA_TOK, gap + more, ItemsTokens(items[1..], s.emitUtf8));
      rest := [COMMA] + (gap + more);
      assert body + (([COMMA] + gap) + Joined(texts[1..], [COMMA] + gap)) + tail == body + rest;
    }
    assert Joined(texts, [COMMA] + gap) + tail == body + rest;
    ValueConcat(items[0], s.emitUtf8, body, rest, MoreItems(items[1..], s.emitUtf8));
  }

  lemma DocumentSpells(s: Style, v: Value)
    requires s.Plain() && Printable(v, s.emitUtf8)
    ensures Spells(Styled(s, v, [], true) + s.endingLineFeedSymbol, Tokens(v, s.emitUtf8))
  {
    hide Spells, Printable, Styled, Tokens;
    StyledSpells(s, v, [], true);
    SpellsSpaces(s.endingLineFeedSymbol);
    ValueConcat(v, s.emitUtf8, Styled(s, v, [], true), s.endingLineFeedSymbol, []);
    assert Tokens(v, s.emitUtf8) + [] == Tokens(v, s.emitUtf8);
  }

  // ----- lines -----

  lemma {:induction false} JoinedLength(texts: seq<bytes>, separator: bytes)
    requires texts != [] && |separator| == 2
    ensures |Joined(texts, separator)| == TotalLength(texts) + (|texts| - 1) * 2
  {
    TotalFirst(texts);
    hide TotalLength;
    if |texts| > 1 {
      JoinedLength(texts[1..], separator);
    }
  }

  lemma {:induction false} TotalFirst(texts: seq<bytes>)
    requires texts != []
    ensures TotalLength(texts) == |texts[0]| + TotalLength(texts[1..])
    decreases |texts|
  {
    var n := |texts| - 1;
    if n > 0 {
      TotalFirst(texts[..n]);
      assert texts[1..][..n - 1] == texts[..n][1..];
    }
  }

  /** The length that decides the layout is that of the line: an array on one line is
      shorter than the right margin, unless 32 bits do not hold its length. */
  lemma OneLineFits(s: Style, items: seq<Value>)
    requires items != [] && !MultiLine(s, items) && s.indentation != []
    ensures |OneLine(s, FlatTexts(s, items))| % TWO_32 < RIGHT_MARGIN
  {
    hide OneLine, TotalLength, FlatTexts, LineSoFar;
    OneLineLength(s, FlatTexts(s, items));
  }

  lemma OneLineLength(s: Style, texts: seq<bytes>)
    requires texts != [] && s.indentation != []
    ensures |OneLine(s, texts)| % TWO_32 == LineSoFar(|texts|, texts)
  {
    JoinedLength(texts, [COMMA] + s.Gap());
    hide Joined, TotalLength;
    assert |OneLine(s, texts)| == 4 + (|texts| - 1) * 2 + TotalLength(texts);
  }

  predicate NoLineFeed(b: bytes) {
    forall i | 0 <= i < |b| :: b[i] != LF
  }

  lemma FlatOnOneLine(s: Style, v: Value)
    requires s.Plain() && Printable(v, s.emitUtf8) && IsFlat(v)
    ensures NoLineFeed(FlatText(s, v))
  {
    hide Spells, QuoteBody, JsonNumber.Decimal;
    match v {
      case Str(str) => QuotedPlain(str, s.emitUtf8);
      case Int(i) => JsonNumber.DecimalDenotes(if i < 0 then -i else i);
      case UInt(u) => JsonNumber.DecimalDenotes(u);
      case _ =>
    }
  }

  lemma {:induction false} JoinedOnOneLine(s: Style, items: seq<Value>)
    requires s.Plain() && AllFlat(items) && ItemsPrintable(items, s.emitUtf8)
    ensures NoLineFeed(Joined(FlatTexts(s, items), [COMMA] + s.Gap()))
    decreases |items|
  {
    hide Spells, Printable, Style.Plain, FlatText;
    if items != [] {
      var texts := FlatTexts(s, items);
      assert texts[1..] == FlatTexts(s, items[1..]);
      FlatOnOneLine(s, items[0]);
      JoinedOnOneLine(s, items[1..]);
    }
  }

  /** An array that is not laid out on several lines is on one. */
  lemma SingleLine(s: Style, items: seq<Value>, indent: bytes, indented: bool)
    requires s.Plain() && items != [] && !MultiLine(s, items) && ItemsPrintable(items, s.emitUtf8)
    ensures NoLineFeed(Styled(s, Array(items), indent, indented))
  {
    hide Spells, Printable, Style.Plain, FlatTexts, Joined;
    JoinedOnOneLine(s, items);
  }

  /** Every item of an array on several lines begins a line behind the indentation. */
  lemma {:induction false} ItemLine(s: Style, items: seq<Value>, indent: bytes, k: nat)
    returns (before: bytes, after: bytes)
    requires k < |items| && s.indentation != []
    ensures StyledItems(s, items, indent) == before + ([LF] + indent) + Styled(s, items[k], indent, true) + after
  {
    hide Styled;
    var body := Styled(s, items[0], indent, true);
    if k == 0 {
      before, after := [], if |items| == 1 then [] else [COMMA] + StyledItems(s, items[1..], indent);
      assert ([LF] + indent + body) + after == [] + ([LF] + indent) + body + after;
    } else {
      before, after := ItemLine(s, items[1..], indent, k - 1);
      before := StyledItem(s, items[0], indent) + [COMMA] + before;
    }
  }

  /** Every member begins a line with its name behind the indentation. */
  lemma {:induction false} MemberLine(s: Style, ms: seq<Member>, indent: bytes, k: nat)
    returns (before: bytes, after: bytes)
    requires k < |ms| && s.indentation != []
    ensures StyledMembers(s, ms, indent) == before + ([LF] + indent) + Quote(ms[k].key, s.emitUtf8) + after
  {
    hide Styled, Quote;
    var q, value := Quote(ms[0].key, s.emitUtf8), s.colonSymbol + Styled(s, ms[0].value, indent, false);
    var more := if |ms| == 1 then [] else [COMMA] + StyledMembers(s, ms[1..], indent);
    assert StyledMember(s, ms[0], indent) == [LF] + indent + q + value;
    hide StyledMember;
    if k == 0 {
      before, after := [], value + more;
      assert ([LF] + indent + q + value) + more == [] + ([LF] + indent) + q + (value + more);
    } else {
      before, after := MemberLine(s, ms[1..], indent, k - 1);
      before := StyledMember(s, ms[0], indent) + [COMMA] + before;
    }
  }

  /** Styled and fast output have the same tokens in the same order. */
  lemma StyledLikeFast(e: Env, s: Style, o: JsonFastWriter.Options, v: Value)
    returns (styledEnd: nat, fastEnd: nat)
    requires s.Plain() && !s.emitUtf8 && Printable(v, false) && !o.dropNulls
    ensures var styled, fast := Styled(s, v, [], true), JsonFastWriter.FastText(o, v);
            && Reads(e.f, styled, 0, Tokens(v, false), styledEnd) && OnlySpacesAfter(styled, styledEnd)
            && Reads(e.f, fast, 0, Tokens(v, false), fastEnd) && OnlySpacesAfter(fast, fastEnd)
  {
    hide Spells, Printable, Styled, Tokens, JsonFastWriter.FastText, Reads;
    JsonFastWriter.FastTextSpells(o, v);
    StyledSpells(s, v, [], true);
    styledEnd, fastEnd := SameTokens(e, Styled(s, v, [], true), JsonFastWriter.FastText(o, v), v, false);
  }
}
