/**
 The round trip from the text side: what parses without errors is a value that can be
 printed, as long as it holds no double, and that the reader's settings admit.
 */
module JsonText {
  import opened Bytes
  import opened JsonLexer
  import opened JsonValue
  import opened JsonReader
  import JsonDocument
  import JsonFastWriter
  import JsonNumber

  // ----- values that reading can give -----

  /** A value as reading gives it, nested no deeper than `room`. */
  ghost predicate Tame(v: Value, room: int)
    decreases v
  {
    room > 0 &&
    match v
    case Int(i) => JsonNumber.MIN_INT <= i <= JsonNumber.MAX_INT
    case UInt(u) => JsonNumber.MAX_INT < u <= JsonNumber.MAX_UINT
    case Array(items) => forall i | 0 <= i < |items| :: Tame(items[i], room - 1)
    case Object(ms) =>
      && Sorted(ms)
      && forall i | 0 <= i < |ms| :: |ms[i].key| < MAX_KEY_LENGTH && Tame(ms[i].value, room - 1)
    case _ => true
  }

  ghost predicate TameItems(items: seq<Value>, room: int) {
    forall i | 0 <= i < |items| :: Tame(items[i], room)
  }

  ghost predicate TameMember(m: Member, room: int) {
    |m.key| < MAX_KEY_LENGTH && Tame(m.value, room)
  }

  ghost predicate TameMembers(ms: seq<Member>, room: int) {
    Sorted(ms) && forall i | 0 <= i < |ms| :: TameMember(ms[i], room)
  }

  lemma TameArray(items: seq<Value>, room: int)
    requires room > 0 && TameItems(items, room - 1)
    ensures Tame(Array(items), room)
  {
  }

  lemma TameObject(ms: seq<Member>, room: int)
    requires room > 0 && TameMembers(ms, room - 1)
    ensures Tame(Object(ms), room)
  {
  }

  /** Storing a tame value keeps the members tame. */
  lemma PutTame(ms: seq<Member>, key: bytes, value: Value, room: int)
    requires TameMembers(ms, room) && |key| < MAX_KEY_LENGTH && Tame(value, room)
    ensures TameMembers(Put(ms, key, value), room)
  {
    hide Tame, Put, Sorted;
    PutSorted(ms, key, value);
    assert TameMember(Member(key, value), room);
  }

  // ----- reading -----

  lemma ScalarTame(e: Env, doc: bytes, t: Token, room: int)
    requires t.start <= t.end <= |doc| && room > 0
    requires t.kind == NumberToken ==> t.start < t.end
    requires t.kind == StringToken ==> t.start + 2 <= t.end
    ensures var r := ReadScalar(e, doc, t);
            r.Got? ==> Tame(r.value, room)
  {
  }

  ghost predicate GivesTame(r: Read, room: int) {
    r.Read? && r.ok ==> Tame(r.value, room)
  }

  /** Whatever the document, a value read without errors is tame. */
  lemma {:induction false} ReadTame(e: Env, doc: bytes, pos: nat, depth: nat, cur: Value)
    requires pos <= |doc|
    ensures GivesTame(ReadValue(e, doc, pos, depth, cur), e.f.stackLimit + 1 - depth)
    decreases |doc| - pos, 0
  {
    if depth <= e.f.stackLimit {
      var room := e.f.stackLimit + 1 - depth;
      var t := LexValueStart(e.f, doc, pos);
      if t.kind == ObjectBegin {
        MembersTame(e, doc, t.end, depth, [], []);
      } else if t.kind == ArrayBegin {
        ItemsTame(e, doc, t.end, depth, []);
      } else {
        ScalarTame(e, doc, t, room);
        hide ReadScalar, Lex, LexPastComments, LexValueStart, ReadItems, ReadMembers;
        assert Tame(Null, room);
      }
    }
  }

  lemma {:induction false} ItemsTame(e: Env, doc: bytes, pos: nat, depth: nat, items: seq<Value>)
    requires pos <= |doc| && depth <= e.f.stackLimit && TameItems(items, e.f.stackLimit - depth)
    ensures GivesTame(ReadItems(e, doc, pos, depth, items), e.f.stackLimit + 1 - depth)
    decreases |doc| - pos, 1
  {
    hide LexPastComments, RecoverEnd, ReadValue, Tame, SkipSpaces;
    var room := e.f.stackLimit - depth;
    TameArray(items, room + 1);
    var p := SkipSpaces(doc, pos);
    ReadTame(e, doc, p, depth + 1, Null);
    var item := ReadValue(e, doc, p, depth + 1, Null);
    if item.Read? && item.ok {
      var more := items + [item.value];
      assert TameItems(more, room);
      TameArray(more, room + 1);
      var t := LexPastComments(e.f, doc, item.pos);
      if t.kind == ArraySeparator {
        ItemsTame(e, doc, t.end, depth, more);
      }
    }
  }

  lemma {:induction false} MembersTame(
    e: Env, doc: bytes, pos: nat, depth: nat, ms: seq<Member>, last: bytes)
    requires pos <= |doc| && depth <= e.f.stackLimit && TameMembers(ms, e.f.stackLimit - depth)
    ensures GivesTame(ReadMembers(e, doc, pos, depth, ms, last), e.f.stackLimit + 1 - depth)
    decreases |doc| - pos, 1
  {
    hide LexPastComments, RecoverEnd, ReadMember, Tame, ReadText, ReadNumber, Find, TameMembers;
    TameObject(ms, e.f.stackLimit + 1 - depth);
    var t := LexPastComments(e.f, doc, pos);
    var name := ReadName(e, doc, t);
    if name.Named? && |name.name| < MAX_KEY_LENGTH {
      MemberTame(e, doc, t.end, depth, ms, name.name);
    }
  }

  lemma {:induction false} MemberTame(
    e: Env, doc: bytes, pos: nat, depth: nat, ms: seq<Member>, name: bytes)
    requires pos <= |doc| && depth <= e.f.stackLimit && TameMembers(ms, e.f.stackLimit - depth)
    requires |name| < MAX_KEY_LENGTH
    ensures GivesTame(ReadMember(e, doc, pos, depth, ms, name), e.f.stackLimit + 1 - depth)
    decreases |doc| - pos, 4
  {
    hide Lex, RecoverEnd, ReadValue, ReadMemberEnd, Tame, Put, Find, TameMembers;
    var colon := Lex(e.f, doc, pos);
    if colon.kind == MemberSeparator {
      var existing := Find(ms, name);
      var cur := if existing.Some? then existing.value else Null;
      ReadTame(e, doc, colon.end, depth + 1, cur);
      var child := ReadValue(e, doc, colon.end, depth + 1, cur);
      if child.Read? && child.ok {
        PutTame(ms, name, child.value, e.f.stackLimit - depth);
        MemberEndTame(e, doc, child.pos, depth, Put(ms, name, child.value), name);
      }
    }
  }

  lemma {:induction false} MemberEndTame(
    e: Env, doc: bytes, pos: nat, depth: nat, ms: seq<Member>, name: bytes)
    requires pos <= |doc| && depth <= e.f.stackLimit && TameMembers(ms, e.f.stackLimit - depth)
    ensures GivesTame(ReadMemberEnd(e, doc, pos, depth, ms, name), e.f.stackLimit + 1 - depth)
    decreases |doc| - pos, 3
  {
    hide Lex, LexPastComments, RecoverEnd, ReadMembers, Tame, TameMembers;
    TameObject(ms, e.f.stackLimit + 1 - depth);
    var comma := Lex(e.f, doc, pos);
    if comma.kind in {ObjectEnd, ArraySeparator, CommentToken} {
      var t := if comma.kind == CommentToken then LexPastComments(e.f, doc, comma.end) else comma;
      MembersTame(e, doc, t.end, depth, ms, name);
    }
  }

  // ----- what a tame value is -----

  /** No double anywhere in the value. */
  predicate NoDoubles(v: Value) {
    match v
    case Real(_) => false
    case Array(items) => forall i | 0 <= i < |items| :: NoDoubles(items[i])
    case Object(ms) => forall i | 0 <= i < |ms| :: NoDoubles(ms[i].value)
    case _ => true
  }

  lemma {:induction false} TamePrintable(v: Value, room: int)
    requires Tame(v, room) && NoDoubles(v)
    ensures Printable(v, true) && JsonFastWriter.InRange(v)
    decreases v
  {
    match v {
      case Array(items) =>
        forall i | 0 <= i < |items|
          ensures Printable(items[i], true) && JsonFastWriter.InRange(items[i])
        {
          TamePrintable(items[i], room - 1);
        }
      case Object(ms) =>
        forall i | 0 <= i < |ms|
          ensures Printable(ms[i].value, true) && JsonFastWriter.InRange(ms[i].value)
        {
          TamePrintable(ms[i].value, room - 1);
        }
      case _ =>
    }
  }

  lemma {:induction false} TameDepth(v: Value, room: int)
    requires Tame(v, room)
    ensures Depth(v) <= room
    decreases v, 1
  {
    match v {
      case Array(items) => ItemsWithin(items, room - 1);
      case Object(ms) => MembersWithin(ms, room - 1);
      case _ =>
    }
  }

  lemma {:induction false} ItemsWithin(items: seq<Value>, room: int)
    requires room >= 0 && TameItems(items, room)
    ensures ItemsDepth(items) <= room
    decreases items, 0
  {
    if items != [] {
      TameDepth(items[0], room);
      ItemsWithin(items[1..], room);
    }
  }

  lemma {:induction false} MembersWithin(ms: seq<Member>, room: int)
    requires room >= 0 && forall i | 0 <= i < |ms| :: Tame(ms[i].value, room)
    ensures MembersDepth(ms) <= room
    decreases ms, 0
  {
    if ms != [] {
      TameDepth(ms[0].value, room);
      MembersWithin(ms[1..], room);
    }
  }

  lemma {:induction false} TameCanonical(v: Value, room: int)
    requires Tame(v, room)
    ensures Canonical(v) == v
    decreases v, 1
  {
    match v {
      case Array(items) => ItemsCanonical(items, room - 1);
      case Object(ms) => MembersCanonical(ms, room - 1);
      case _ =>
    }
  }

  lemma {:induction false} ItemsCanonical(items: seq<Value>, room: int)
    requires TameItems(items, room)
    ensures CanonicalItems(items) == items
    decreases items, 0
  {
    if items != [] {
      TameCanonical(items[0], room);
      ItemsCanonical(items[1..], room);
      assert items == [items[0]] + items[1..];
    }
  }

  lemma {:induction false} MembersCanonical(ms: seq<Member>, room: int)
    requires forall i | 0 <= i < |ms| :: Tame(ms[i].value, room)
    ensures CanonicalMembers(ms) == ms
    decreases ms, 0
  {
    if ms != [] {
      TameCanonical(ms[0].value, room);
      MembersCanonical(ms[1..], room);
      assert ms == [ms[0]] + ms[1..];
    }
  }

  /**
   What any document that parses without errors gives: a value in canonical form that the
   settings admit, printable raw if it has no double.
   */
  lemma ParsedTame(e: Env, doc: bytes, root: Value)
    requires Parse(e, doc, root).Parsed? && Parse(e, doc, root).ok
    ensures var v := Parse(e, doc, root).root;
            && JsonDocument.Admits(e.f, v) && Canonical(v) == v
            && (NoDoubles(v) ==> Printable(v, true) && JsonFastWriter.InRange(v))
  {
    hide ReadValue, LexValueStart, Tame, Printable, NoDoubles, Canonical, Depth;
    var start := DocumentStart(e.f, doc);
    ReadTame(e, doc, start, 1, root);
    var v := Parse(e, doc, root).root;
    TameDepth(v, e.f.stackLimit);
    TameCanonical(v, e.f.stackLimit);
    if NoDoubles(v) {
      TamePrintable(v, e.f.stackLimit);
    }
  }
}
