/**
 `OurReader` itself: cursor, node stack and error list, updated by loops and
 mutual recursion. Every method is proved to do what the lexer and reader functions
 say. The stack holds the values under construction; popping a node stores it in its
 parent, where the C++ code works through a pointer into it.
 */
module JsonOurReader {
  import opened Bytes
  import opened JsonLexer
  import opened JsonString
  import opened JsonValue
  import opened JsonReader
  import JsonNumber

  /** How a reading method ended; `Threw` is a runtime error. */
  datatype Status = Accepted | Rejected | Threw

  class OurReader {
    const e: Env
    const doc: bytes
    var current: nat
    var nodes: seq<Value>
    var errors: seq<ErrorInfo>

    constructor (e: Env, doc: bytes)
      ensures this.e == e && this.doc == doc && current == 0
    {
      this.e := e;
      this.doc := doc;
      current := 0;
      nodes := [];
      errors := [];
    }

    // ----- the cursor -----

    ghost predicate InDocument()
      reads this
    {
      current <= |doc|
    }

    method GetNextChar() returns (c: byte)
      requires InDocument()
      modifies this`current
      ensures InDocument()
      ensures old(current) < |doc| ==> c == doc[old(current)] && current == old(current) + 1
      ensures old(current) == |doc| ==> c == NUL && current == old(current)
    {
      if current == |doc| {
        c := NUL;
      } else {
        c := doc[current];
        current := current + 1;
      }
    }

    method SkipSpaces()
      requires InDocument()
      modifies this`current
      ensures InDocument() && current == JsonLexer.SkipSpaces(doc, old(current))
    {
      while current != |doc|
        invariant InDocument()
        invariant JsonLexer.SkipSpaces(doc, current) == JsonLexer.SkipSpaces(doc, old(current))
        decreases |doc| - current
      {
        var c := doc[current];
        if c == SPACE || c == TAB || c == CR || c == LF {
          current := current + 1;
        } else {
          break;
        }
      }
    }

    /** `match`: compares from the last byte of the pattern to the first. */
    method MatchWord(pattern: bytes) returns (ok: bool)
      requires InDocument()
      modifies this`current
      ensures InDocument() && Scan(ok, current) == ScanWord(doc, old(current), pattern)
    {
      if |doc| - current < |pattern| {
        return false;
      }
      var index := |pattern|;
      while index != 0
        invariant 0 <= index <= |pattern|
        invariant forall k | index <= k < |pattern| :: doc[current + k] == pattern[k]
      {
        index := index - 1;
        if doc[current + index] != pattern[index] {
          assert doc[current..current + |pattern|][index] != pattern[index];
          return false;
        }
      }
      assert doc[current..current + |pattern|] == pattern;
      current := current + |pattern|;
      ok := true;
    }

    /** `readString` and `readStringSingleQuote`. */
    method ReadString(quote: byte) returns (ok: bool)
      requires InDocument() && quote != BACKSLASH && quote != NUL
      modifies this`current
      ensures InDocument() && Scan(ok, current) == ScanString(doc, old(current), quote)
    {
      var c := NUL;
      while current != |doc|
        invariant InDocument()
        invariant c != quote
        invariant ScanString(doc, current, quote) == ScanString(doc, old(current), quote)
        decreases |doc| - current
      {
        c := GetNextChar();
        if c == BACKSLASH {
          var skipped := GetNextChar();
        } else if c == quote {
          break;
        }
      }
      ok := c == quote;
    }

    method ReadCStyleComment() returns (ok: bool)
      requires InDocument()
      modifies this`current
      ensures InDocument() && Scan(ok, current) == ScanCStyle(doc, old(current))
    {
      while current + 1 < |doc|
        invariant InDocument()
        invariant ScanCStyle(doc, current) == ScanCStyle(doc, old(current))
        decreases |doc| - current
      {
        var c := GetNextChar();
        if c == STAR && doc[current] == SLASH {
          break;
        }
      }
      var last := GetNextChar();
      ok := last == SLASH;
    }

    method ReadCppStyleComment()
      requires InDocument()
      modifies this`current
      ensures InDocument() && current == CppStyleEnd(doc, old(current))
    {
      while current != |doc|
        invariant InDocument()
        invariant CppStyleEnd(doc, current) == CppStyleEnd(doc, old(current))
        decreases |doc| - current
      {
        var c := GetNextChar();
        if c == LF {
          return;
        }
        if c == CR {
          if current != |doc| && doc[current] == LF {
            var lineFeed := GetNextChar();
          }
          return;
        }
      }
    }

    method ReadComment() returns (ok: bool)
      requires InDocument()
      modifies this`current
      ensures InDocument() && Scan(ok, current) == ScanComment(doc, old(current))
    {
      var c := GetNextChar();
      if c == STAR {
        ok := ReadCStyleComment();
      } else if c == SLASH {
        ReadCppStyleComment();
        ok := true;
      } else {
        ok := false;
      }
    }

    /** `c = (current_ = p) < end_ ? *p++ : '\0'`. */
    method Advance(p: nat) returns (c: byte, p': nat)
      requires p <= |doc|
      modifies this`current
      ensures current == p <= p' <= |doc|
      ensures if p < |doc| then c == doc[p] && p' == p + 1 else c == NUL && p' == p
    {
      current := p;
      if p < |doc| {
        c, p' := doc[p], p + 1;
      } else {
        c, p' := NUL, p;
      }
    }

    /** A run of digits: afterwards `c` is the byte at `current`, the first non-digit. */
    method ReadDigits(c0: byte, p0: nat) returns (c: byte, p: nat)
      requires At(c0, p0)
      modifies this`current
      ensures At(c, p)
      ensures current == SkipDigits(doc, old(current))
    {
      c, p := c0, p0;
      while c >= ZERO && c <= NINE
        invariant At(c, p)
        invariant SkipDigits(doc, current) == SkipDigits(doc, old(current))
        decreases |doc| - current
      {
        c, p := Advance(p);
      }
    }

    /** `c` is the byte at the cursor, NUL at the end, and `p` the position after it. */
    ghost predicate At(c: byte, p: nat)
      reads this
    {
      && current <= p <= |doc|
      && if current < |doc| then c == doc[current] && p == current + 1 else c == NUL && p == current
    }

    /** `readNumber`; returns false after a sign followed by `I`. */
    method ReadNumber(checkInf: bool) returns (ok: bool)
      requires InDocument()
      modifies this`current
      ensures InDocument()
      ensures ok <==> !(checkInf && old(current) < |doc| && doc[old(current)] == 73)
      ensures current == if ok then NumberEnd(doc, old(current)) else old(current) + 1
    {
      hide SkipDigits, FractionEnd, ExponentEnd;
      var p := current;
      if checkInf && p != |doc| && doc[p] == 73 {
        current := p + 1;
        return false;
      }
      var c;
      c, p := Advance(p);
      c, p := ReadDigits(c, p);
      c, p := ReadFraction(c, p);
      ReadExponent(c, p);
      ok := true;
    }

    method ReadFraction(c0: byte, p0: nat) returns (c: byte, p: nat)
      requires At(c0, p0)
      modifies this`current
      ensures At(c, p) && current == FractionEnd(doc, old(current))
    {
      hide SkipDigits;
      c, p := c0, p0;
      if c == DOT {
        c, p := Advance(p);
        c, p := ReadDigits(c, p);
      }
    }

    method ReadExponent(c0: byte, p0: nat)
      requires At(c0, p0)
      modifies this`current
      ensures InDocument() && current == ExponentEnd(doc, old(current))
    {
      hide SkipDigits;
      var c, p := c0, p0;
      if c == 101 || c == 69 {
        c, p := Advance(p);
        if c == PLUS || c == MINUS {
          c, p := Advance(p);
        }
        c, p := ReadDigits(c, p);
      }
    }

    /** `readToken`. */
    method ReadToken() returns (t: Token)
      requires InDocument()
      modifies this`current
      ensures InDocument()
      ensures t == Lex(e.f, doc, old(current)) && current == t.end
    {
      hide LexAt, JsonLexer.SkipSpaces;
      SkipSpaces();
      if current == |doc| {
        t := Token(EndOfStream, current, current);
      } else {
        t := ReadTokenAt();
      }
    }

    method ReadTokenAt() returns (t: Token)
      requires current < |doc|
      modifies this`current
      ensures InDocument()
      ensures t == LexAt(e.f, doc, old(current)) && current == t.end
    {
      hide ScanString, ScanComment, NumberEnd, ScanWord, LexWord, LexSigned;
      var start := current;
      var c := doc[start];
      var kind := PunctuationKind(c);
      if kind.Some? {
        current := current + 1;
        t := Token(kind.value, start, current);
      } else if c == QUOTE || (c == APOSTROPHE && e.f.allowSingleQuotes) {
        current := current + 1;
        var ok := ReadString(c);
        t := Token(if ok then StringToken else ErrorToken, start, current);
      } else if c == SLASH {
        current := current + 1;
        var ok := ReadComment();
        t := Token(if ok then CommentToken else ErrorToken, start, current);
      } else if c >= ZERO && c <= NINE {
        current := current + 1;
        var ok := ReadNumber(false);
        t := Token(NumberToken, start, current);
      } else if c == MINUS {
        t := ReadSigned(NegInfToken);
      } else if c == PLUS {
        t := ReadSigned(PosInfToken);
      } else {
        t := ReadWord();
      }
    }

    method ReadSigned(infinity: TokenType) returns (t: Token)
      requires current < |doc|
      modifies this`current
      ensures InDocument()
      ensures t == LexSigned(e.f, doc, old(current), infinity) && current == t.end
    {
      hide ScanWord, NumberEnd;
      var start := current;
      current := current + 1;
      var number := ReadNumber(true);
      if number {
        t := Token(NumberToken, start, current);
      } else {
        var ok := false;
        if e.f.allowSpecialFloats {
          ok := MatchWord(INFINITY_REST);
        }
        t := Token(if ok then infinity else ErrorToken, start, current);
      }
    }

    method ReadWord() returns (t: Token)
      requires current < |doc|
      modifies this`current
      ensures InDocument()
      ensures t == LexWord(e.f, doc, old(current)) && current == t.end
    {
      hide ScanWord;
      var start := current;
      var c := doc[current];
      current := current + 1;
      var ok := false;
      var kind := ErrorToken;
      if c == 116 {
        kind := TrueToken;
        ok := MatchWord(TRUE_TEXT[1..]);
      } else if c == 102 {
        kind := FalseToken;
        ok := MatchWord(FALSE_TEXT[1..]);
      } else if c == 110 {
        kind := NullToken;
        ok := MatchWord(NULL_TEXT[1..]);
      } else if c == 78 && e.f.allowSpecialFloats {
        kind := NaNToken;
        ok := MatchWord(NAN_REST);
      } else if c == 73 && e.f.allowSpecialFloats {
        kind := PosInfToken;
        ok := MatchWord(INFINITY_REST);
      }
      t := Token(if ok then kind else ErrorToken, start, current);
    }

    method SkipComments() returns (t: Token)
      requires InDocument()
      modifies this`current
      ensures InDocument()
      ensures t == LexPastComments(e.f, doc, old(current)) && current == t.end
    {
      hide Lex;
      t := ReadToken();
      while t.kind == CommentToken
        invariant InDocument() && t.start <= t.end == current
        invariant t.kind == CommentToken ==> LexPastComments(e.f, doc, current) == LexPastComments(e.f, doc, old(current))
        invariant t.kind != CommentToken ==> t == LexPastComments(e.f, doc, old(current))
        decreases t.kind == CommentToken, |doc| - current
      {
        t := ReadToken();
      }
    }

    /** `skipCommentTokens`. */
    method SkipCommentTokens() returns (t: Token)
      requires InDocument()
      modifies this`current
      ensures InDocument()
      ensures t == LexValueStart(e.f, doc, old(current)) && current == t.end
    {
      hide Lex, LexPastComments;
      if e.f.allowComments {
        t := SkipComments();
      } else {
        t := ReadToken();
      }
    }

    /** The token loop of `recoverFromError`. */
    method SkipUntil(until: TokenType)
      requires InDocument()
      modifies this`current
      ensures InDocument() && current == RecoverEnd(e.f, doc, old(current), until)
    {
      hide Lex;
      while true
        invariant InDocument()
        invariant RecoverEnd(e.f, doc, current, until) == RecoverEnd(e.f, doc, old(current), until)
        decreases |doc| - current
      {
        var skip := ReadToken();
        if skip.kind == until || skip.kind == EndOfStream {
          return;
        }
      }
    }

    // ----- errors and the node stack -----

    ghost predicate Valid()
      reads this
    {
      current <= |doc| && nodes != []
    }

    method AddError(problem: Problem, token: Token, extra: Option<nat>)
      modifies this`errors
      ensures errors == old(errors) + [ErrorInfo(problem, token, extra)]
    {
      errors := errors + [ErrorInfo(problem, token, extra)];
    }

    /** `recoverFromError`: skips tokens and drops any error added while doing so. */
    method RecoverFromError(until: TokenType)
      requires InDocument()
      modifies this`current, this`errors
      ensures InDocument() && current == RecoverEnd(e.f, doc, old(current), until)
      ensures errors == old(errors)
    {
      var errorCount := |errors|;
      SkipUntil(until);
      errors := errors[..errorCount];
    }

    method AddErrorAndRecover(problem: Problem, token: Token, until: TokenType)
      requires InDocument()
      modifies this`current, this`errors
      ensures InDocument() && current == RecoverEnd(e.f, doc, old(current), until)
      ensures errors == old(errors) + [ErrorInfo(problem, token, None)]
    {
      AddError(problem, token, None);
      RecoverFromError(until);
    }

    function Top(): Value
      requires nodes != []
      reads this
    {
      nodes[|nodes| - 1]
    }

    /** The nodes below the current one. */
    function Below(): seq<Value>
      requires nodes != []
      reads this
    {
      nodes[..|nodes| - 1]
    }

    method SetTop(v: Value)
      requires nodes != []
      modifies this`nodes
      ensures |nodes| == |old(nodes)| && Top() == v && Below() == old(Below())
    {
      nodes := nodes[|nodes| - 1 := v];
    }

    /** The state after a reading method is the one that `r` describes: the stack is as
        deep as before and only its top has changed. */
    twostate predicate Ended(r: Read, status: Status)
      requires old(nodes) != []
      reads this
    {
      && Valid()
      && match r
         case Thrown => status == Threw
         case Read(ok, pos, value, appended) =>
           && status == (if ok then Accepted else Rejected)
           && current == pos
           && nodes == old(nodes)[..|old(nodes)| - 1] + [value]
           && errors == old(errors) + appended
    }

    // ----- scalars -----

    /** `decodeNumber`, or the error its double path reports. */
    method DecodeNumber(t: Token) returns (r: Scalar)
      requires t.start < t.end <= |doc|
      ensures r == ReadNumberText(t)
    {
      var text := doc[t.start..t.end];
      var number := JsonNumber.DecodeNumberLoop(text);
      match number
      case Signed(i) => r := Got(Int(i));
      case Unsigned(u) => r := Got(UInt(u));
      case AsDouble =>
        var d := e.toDouble(text);
        r := if d.Some? then Got(Real(d.value)) else Scalar.Failed(ErrorInfo(NotANumber, t, None));
    }

    ghost function ReadNumberText(t: Token): Scalar
      requires t.start < t.end <= |doc|
    {
      JsonReader.ReadNumber(e, doc, t)
    }

    method DecodeText(t: Token) returns (r: Name)
      requires t.start + 2 <= t.end <= |doc|
      ensures r == ReadText(doc, t)
    {
      hide DecodeBody;
      var d := DecodeString(doc[t.start + 1..t.end - 1]);
      match d
      case Text(text) => r := Named(text);
      case Bad(problem, left) => r := Misnamed(ErrorInfo(problem, t, Some(t.end - 1 - left)));
    }

    /** The cases of `readValue` for tokens that are whole values. */
    method ReadScalarToken(t: Token) returns (status: Status)
      requires Valid() && t.start <= t.end == current
      requires t.kind == NumberToken ==> t.start < t.end
      requires t.kind == StringToken ==> t.start + 2 <= t.end
      modifies this`nodes, this`errors
      ensures Ended(ScalarOutcome(t, old(Top())), status)
    {
      hide JsonReader.ReadNumber, ReadText;
      var r: Scalar;
      match t.kind {
      case NumberToken => r := DecodeNumber(t);
      case StringToken =>
        var text := DecodeText(t);
        r := if text.Named? then Got(Str(text.name)) else Scalar.Failed(text.error);
      case TrueToken => r := Got(Bool(true));
      case FalseToken => r := Got(Bool(false));
      case NullToken => r := Got(Null);
      case NaNToken => r := Got(Real(NaN));
      case PosInfToken => r := Got(Real(PosInf));
      case NegInfToken => r := Got(Real(NegInf));
      case _ => r := Scalar.Failed(ErrorInfo(ValueExpected, t, None));
      }
      assert r == ReadScalar(e, doc, t);
      status := Finish(r, t);
    }

    method Finish(r: Scalar, t: Token) returns (status: Status)
      requires Valid() && t.start <= t.end == current
      requires t.kind == NumberToken ==> t.start < t.end
      requires t.kind == StringToken ==> t.start + 2 <= t.end
      requires r == ReadScalar(e, doc, t)
      modifies this`nodes, this`errors
      ensures Ended(ScalarOutcome(t, old(Top())), status)
    {
      hide ReadScalar;
      match r
      case Got(v) =>
        SetTop(v);
        status := Accepted;
      case Failed(error) =>
        errors := errors + [error];
        status := Rejected;
    }

    ghost function ScalarOutcome(t: Token, cur: Value): Read
      requires t.start <= t.end <= |doc|
      requires t.kind == NumberToken ==> t.start < t.end
      requires t.kind == StringToken ==> t.start + 2 <= t.end
    {
      match ReadScalar(e, doc, t)
      case Got(v) => Read(true, t.end, v, [])
      case Failed(error) => Read(false, t.end, cur, [error])
    }

    // ----- values -----

    /** `readValue`. */
    method ReadValue() returns (status: Status)
      requires Valid()
      modifies this`current, this`nodes, this`errors
      ensures Ended(JsonReader.ReadValue(e, doc, old(current), |old(nodes)|, old(Top())), status)
      decreases |doc| - current, 0
    {
      hide ReadScalar, ReadItems, JsonReader.ReadMembers, LexValueStart;
      if |nodes| > e.f.stackLimit {
        return Threw;
      }
      var t := SkipCommentTokens();
      if t.kind == ObjectBegin {
        status := ReadObject();
      } else if t.kind == ArrayBegin {
        status := ReadArray();
      } else if IsPlaceholder(t.kind) && e.f.allowDroppedNullPlaceholders {
        current := current - 1;
        SetTop(Null);
        status := Accepted;
      } else {
        status := ReadScalarToken(t);
      }
    }

    /** Pushes a child node, reads it and pops it again. */
    method ReadChild(initial: Value) returns (status: Status, child: Value)
      requires Valid()
      modifies this`current, this`nodes, this`errors
      ensures Valid()
      ensures match JsonReader.ReadValue(e, doc, old(current), |old(nodes)| + 1, initial)
              case Thrown => status == Threw
              case Read(ok, pos, value, appended) =>
                && status == (if ok then Accepted else Rejected)
                && current == pos && child == value
                && nodes == old(nodes) && errors == old(errors) + appended
      decreases |doc| - current, 1
    {
      hide JsonReader.ReadValue;
      nodes := nodes + [initial];
      status := ReadValue();
      child := Top();
      if status != Threw {
        nodes := nodes[..|nodes| - 1];
      }
    }

    method ReadArray() returns (status: Status)
      requires Valid()
      modifies this`current, this`nodes, this`errors
      ensures Ended(ReadItems(e, doc, old(current), |old(nodes)|, []), status)
      decreases |doc| - current, 3
    {
      hide ReadItems;
      ghost var goal := ReadItems(e, doc, current, |nodes|, []);
      SetTop(Array([]));
      while true
        invariant Valid() && |nodes| == |old(nodes)| && Below() == old(Below())
        invariant errors == old(errors)
        invariant Top().Array? && goal == ReadItems(e, doc, current, |nodes|, Top().items)
        invariant current >= old(current)
        decreases |doc| - current
      {
        var more;
        status, more := ReadItem();
        if !more {
          return;
        }
      }
    }

    /** One turn of the loop in `readArray`. */
    method ReadItem() returns (status: Status, more: bool)
      requires Valid() && Top().Array?
      modifies this`current, this`nodes, this`errors
      ensures !more ==> Ended(ReadItems(e, doc, old(current), |old(nodes)|, old(Top()).items), status)
      ensures more ==> Valid() && |nodes| == |old(nodes)| && Below() == old(Below()) && errors == old(errors)
      ensures more ==> current > old(current) && Top().Array?
      ensures more ==>
                ReadItems(e, doc, old(current), |old(nodes)|, old(Top()).items) ==
                ReadItems(e, doc, current, |nodes|, Top().items)
      decreases |doc| - current, 2
    {
      hide JsonReader.ReadValue, ReadItemEnd, RecoverEnd, JsonLexer.SkipSpaces;
      var items := Top().items;
      SkipSpaces();
      if current != |doc| && doc[current] == RBRACKET &&
         (|items| == 0 || (e.f.allowTrailingCommas && !e.f.allowDroppedNullPlaceholders)) {
        current := current + 1;
        return Accepted, false;
      }
      var item;
      status, item := ReadChild(Null);
      if status == Threw {
        return status, false;
      }
      SetTop(Array(items + [item]));
      if status == Rejected {
        RecoverFromError(ArrayEnd);
        return Rejected, false;
      }
      status, more := EndItem();
    }

    /** The separator behind an item that has been stored. */
    method EndItem() returns (status: Status, more: bool)
      requires Valid() && Top().Array?
      modifies this`current, this`errors
      ensures !more ==> Ended(ReadItemEnd(e, doc, old(current), |old(nodes)|, old(Top()).items), status)
      ensures more ==> Valid() && errors == old(errors) && current > old(current)
      ensures more ==>
                ReadItemEnd(e, doc, old(current), |old(nodes)|, old(Top()).items) ==
                ReadItems(e, doc, current, |nodes|, Top().items)
    {
      hide LexPastComments, ReadItems, RecoverEnd;
      assert nodes == Below() + [Array(Top().items)];
      status, more := Accepted, false;
      var t := SkipComments();
      if t.kind == ArrayEnd {
        return;
      }
      if t.kind != ArraySeparator {
        AddErrorAndRecover(MissingCommaOrBracket, t, ArrayEnd);
        return Rejected, false;
      }
      more := true;
    }

    method ReadObject() returns (status: Status)
      requires Valid()
      modifies this`current, this`nodes, this`errors
      ensures Ended(JsonReader.ReadMembers(e, doc, old(current), |old(nodes)|, [], []), status)
      decreases |doc| - current, 5
    {
      hide JsonReader.ReadMembers;
      ghost var goal := JsonReader.ReadMembers(e, doc, current, |nodes|, [], []);
      SetTop(Object([]));
      var name: bytes := [];
      while true
        invariant Valid() && |nodes| == |old(nodes)| && Below() == old(Below())
        invariant errors == old(errors)
        invariant Top().Object? && goal == JsonReader.ReadMembers(e, doc, current, |nodes|, Top().members, name)
        invariant current >= old(current)
        decreases |doc| - current
      {
        var more;
        status, more, name := ReadNamed(name);
        if !more {
          return;
        }
      }
    }

    /** One turn of the loop in `readObject`. */
    method ReadNamed(last: bytes) returns (status: Status, more: bool, name: bytes)
      requires Valid() && Top().Object?
      modifies this`current, this`nodes, this`errors
      ensures !more ==> Ended(JsonReader.ReadMembers(e, doc, old(current), |old(nodes)|, old(Top()).members, last), status)
      ensures more ==> Valid() && |nodes| == |old(nodes)| && Below() == old(Below()) && errors == old(errors)
      ensures more ==> current > old(current) && Top().Object?
      ensures more ==>
                JsonReader.ReadMembers(e, doc, old(current), |old(nodes)|, old(Top()).members, last) ==
                JsonReader.ReadMembers(e, doc, current, |nodes|, Top().members, name)
      decreases |doc| - current, 3
    {
      hide LexPastComments, ReadMember, ReadName, RecoverEnd;
      name := [];
      var members := Top().members;
      var t := SkipComments();
      if t.kind == ObjectEnd && (last == [] || e.f.allowTrailingCommas) {
        return Accepted, false, name;
      }
      var read := DecodeName(t);
      if read.Misnamed? {
        errors := errors + [read.error];
        RecoverFromError(ObjectEnd);
        return Rejected, false, name;
      }
      name := read.name;
      if |name| >= MAX_KEY_LENGTH {
        return Threw, false, name;
      }
      if e.f.rejectDupKeys && Find(members, name).Some? {
        AddErrorAndRecover(DuplicateKey(name), t, ObjectEnd);
        return Rejected, false, name;
      }
      status, more := ReadMemberValue(name);
    }

    /** The name in a token, as a string or, where allowed, a number. */
    method DecodeName(t: Token) returns (r: Name)
      requires t.start <= t.end <= |doc|
      requires t.kind == NumberToken ==> t.start < t.end
      requires t.kind == StringToken ==> t.start + 2 <= t.end
      ensures r == ReadName(e, doc, t)
    {
      hide ReadText, JsonReader.ReadNumber;
      if t.kind == StringToken {
        r := DecodeText(t);
      } else if t.kind == NumberToken && e.f.allowNumericKeys {
        var number := DecodeNumber(t);
        r := match number case Got(v) => Named(NumberName(e, v)) case Failed(error) => Misnamed(error);
      } else {
        r := Misnamed(ErrorInfo(MissingBraceOrName, t, None));
      }
    }

    /** The rest of a member: colon, value and separator. */
    method ReadMemberValue(name: bytes) returns (status: Status, more: bool)
      requires Valid() && Top().Object?
      modifies this`current, this`nodes, this`errors
      ensures !more ==> Ended(ReadMember(e, doc, old(current), |old(nodes)|, old(Top()).members, name), status)
      ensures more ==> Valid() && |nodes| == |old(nodes)| && Below() == old(Below()) && errors == old(errors)
      ensures more ==> current > old(current) && Top().Object?
      ensures more ==>
                ReadMember(e, doc, old(current), |old(nodes)|, old(Top()).members, name) ==
                JsonReader.ReadMembers(e, doc, current, |nodes|, Top().members, name)
      decreases |doc| - current, 2
    {
      hide Lex, JsonReader.ReadValue, ReadMemberEnd, RecoverEnd, Put, Find;
      var members := Top().members;
      var colon := ReadToken();
      if colon.kind != MemberSeparator {
        AddErrorAndRecover(MissingColon, colon, ObjectEnd);
        return Rejected, false;
      }
      var existing := Find(members, name);
      var child;
      status, child := ReadChild(if existing.Some? then existing.value else Null);
      if status == Threw {
        return status, false;
      }
      SetTop(Object(Put(members, name, child)));
      if status == Rejected {
        RecoverFromError(ObjectEnd);
        return Rejected, false;
      }
      status, more := EndMember(name);
    }

    /** The separator behind a member that has been stored. */
    method EndMember(name: bytes) returns (status: Status, more: bool)
      requires Valid() && Top().Object?
      modifies this`current, this`errors
      ensures !more ==> Ended(ReadMemberEnd(e, doc, old(current), |old(nodes)|, old(Top()).members, name), status)
      ensures more ==> Valid() && errors == old(errors) && current > old(current)
      ensures more ==>
                ReadMemberEnd(e, doc, old(current), |old(nodes)|, old(Top()).members, name) ==
                JsonReader.ReadMembers(e, doc, current, |nodes|, Top().members, name)
    {
      hide Lex, LexPastComments, JsonReader.ReadMembers, RecoverEnd;
      assert nodes == Below() + [Object(Top().members)];
      status, more := ReadSeparator();
    }

    /** What follows a member, comments skipped. After a comment any token passes as
        the separator. */
    method ReadSeparator() returns (status: Status, more: bool)
      requires Valid()
      modifies this`current, this`errors
      ensures Valid() && current >= old(current)
      ensures var comma := Lex(e.f, doc, old(current));
              if comma.kind !in {ObjectEnd, ArraySeparator, CommentToken} then
                && status == Rejected && !more && current == RecoverEnd(e.f, doc, comma.end, ObjectEnd)
                && errors == old(errors) + [ErrorInfo(MissingCommaOrBrace, comma, None)]
              else
                var t := if comma.kind == CommentToken then LexPastComments(e.f, doc, comma.end) else comma;
                && status == Accepted && errors == old(errors) && current == t.end > old(current)
                && more == (t.kind != ObjectEnd)
    {
      hide Lex, LexPastComments, RecoverEnd;
      status := Accepted;
      more := false;
      var comma := ReadToken();
      if comma.kind != ObjectEnd && comma.kind != ArraySeparator && comma.kind != CommentToken {
        AddErrorAndRecover(MissingCommaOrBrace, comma, ObjectEnd);
        return Rejected, false;
      }
      if comma.kind == CommentToken {
        comma := SkipComments();
      }
      more := comma.kind != ObjectEnd;
    }

    // ----- documents -----

    /** `parse`: the returned value is what the caller's root then holds. Unless it
        throws, it accepts exactly when it leaves no error, and the stack is empty. */
    method Parse(root: Value) returns (status: Status, result: Value)
      modifies this
      ensures InDocument()
      ensures match JsonReader.Parse(e, doc, root)
              case ParseThrew => status == Threw
              case Parsed(ok, value, found) =>
                status == (if ok then Accepted else Rejected) && result == value && errors == found && nodes == []
      ensures status != Threw ==> (status == Accepted <==> errors == [])
    {
      hide JsonReader.ReadValue, LexValueStart;
      current := 0;
      errors := [];
      nodes := [root];
      if e.f.skipBom && OccursAt(doc, 0, BOM) {
        current := 3;
      }
      status := ReadValue();
      result := Top();
      if status == Threw {
        return;
      }
      nodes := [];
      status := FinishDocument(status, result);
    }

    /** What `parse` checks after the root value. */
    method FinishDocument(read: Status, value: Value) returns (status: Status)
      requires InDocument()
      modifies this`current, this`errors
      ensures InDocument()
      ensures var t := LexValueStart(e.f, doc, old(current));
              if e.f.failIfExtra && t.kind != EndOfStream then
                status == Rejected && errors == old(errors) + [ErrorInfo(ExtraAfterValue, t, None)]
              else if e.f.strictRoot && !value.Array? && !value.Object? then
                && status == Rejected
                && errors == old(errors) + [ErrorInfo(RootNotContainer, Token(ErrorToken, 0, |doc|), None)]
              else
                status == read && errors == old(errors)
    {
      hide LexValueStart;
      status := read;
      var t := SkipCommentTokens();
      if e.f.failIfExtra && t.kind != EndOfStream {
        AddError(ExtraAfterValue, t, None);
        status := Rejected;
      } else if e.f.strictRoot && !value.Array? && !value.Object? {
        AddError(RootNotContainer, Token(ErrorToken, 0, |doc|), None);
        status := Rejected;
      }
    }
  }
}
