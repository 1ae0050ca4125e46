/**
 The grammar of the JSON reader as total functions over the document: what
 `readValue`, `readObject` and `readArray` leave in the current value, where the
 cursor stops and which errors they append.
 */
module JsonReader {
  import opened Bytes
  import opened JsonLexer
  import opened JsonString
  import opened JsonValue
  import JsonNumber

  datatype ErrorInfo = ErrorInfo(problem: Problem, token: Token, extra: Option<nat>)

  /** The reader's settings, with the conversions between text and double that the
      C++ library supplies. */
  datatype Env = Env(
    f: Features,
    toDouble: bytes -> Option<Double>,
    fromDouble: Double -> bytes)

  /** The outcome of a reading function. `Thrown` is a runtime error: too deep or too
      long a key. */
  datatype Read =
    | Read(ok: bool, pos: nat, value: Value, errors: seq<ErrorInfo>)
    | Thrown

  datatype Scalar = Got(value: Value) | Failed(error: ErrorInfo)

  datatype Name = Named(name: bytes) | Misnamed(error: ErrorInfo)

  function TextOf(doc: bytes, t: Token): bytes
    requires t.start <= t.end <= |doc|
  {
    doc[t.start..t.end]
  }

  function ReadNumber(e: Env, doc: bytes, t: Token): Scalar
    requires t.start < t.end <= |doc|
  {
    match JsonNumber.DecodeNumber(TextOf(doc, t))
    case Signed(i) => Got(Int(i))
    case Unsigned(u) => Got(UInt(u))
    case AsDouble =>
      match e.toDouble(TextOf(doc, t))
      case Some(d) => Got(Real(d))
      case None => Failed(ErrorInfo(NotANumber, t, None))
  }

  function ReadText(doc: bytes, t: Token): (r: Name)
    requires t.start + 2 <= t.end <= |doc|
  {
    match DecodeBody(doc[t.start + 1..t.end - 1])
    case Text(text) => Named(text)
    case Bad(problem, left) => Misnamed(ErrorInfo(problem, t, Some(t.end - 1 - left)))
  }

  /** `asString` of a decoded number. */
  function NumberName(e: Env, v: Value): bytes {
    match v
    case Int(i) => JsonNumber.IntText(i)
    case UInt(u) => JsonNumber.IntText(u)
    case Real(d) => e.fromDouble(d)
    case _ => []
  }

  /** The value of a token that stands for a whole value. */
  function ReadScalar(e: Env, doc: bytes, t: Token): Scalar
    requires t.start <= t.end <= |doc|
    requires t.kind == NumberToken ==> t.start < t.end
    requires t.kind == StringToken ==> t.start + 2 <= t.end
  {
    match t.kind
    case NumberToken => ReadNumber(e, doc, t)
    case StringToken =>
      (match ReadText(doc, t)
       case Named(text) => Got(Str(text))
       case Misnamed(error) => Failed(error))
    case TrueToken => Got(Bool(true))
    case FalseToken => Got(Bool(false))
    case NullToken => Got(Null)
    case NaNToken => Got(Real(NaN))
    case PosInfToken => Got(Real(PosInf))
    case NegInfToken => Got(Real(NegInf))
    case _ => Failed(ErrorInfo(ValueExpected, t, None))
  }

  predicate IsPlaceholder(kind: TokenType) {
    kind == ArraySeparator || kind == ObjectEnd || kind == ArrayEnd
  }

  /** The place of an error is in the document. */
  predicate Located(error: ErrorInfo, doc: bytes, pos: nat) {
    pos <= error.token.start <= error.token.end <= |doc|
  }

  /** An outcome that keeps the cursor in the document and not before `pos`, and that
      reports success, or one error found on the way: recovery drops what it comes across. */
  ghost predicate Sound(r: Read, doc: bytes, pos: nat) {
    r.Read? ==>
      && pos <= r.pos <= |doc|
      && if r.ok then r.errors == [] else |r.errors| == 1 && Located(r.errors[0], doc, pos)
  }

  function FailAt(e: Env, doc: bytes, pos: nat, until: TokenType, value: Value, errors: seq<ErrorInfo>): (r: Read)
    requires pos <= |doc|
    ensures r.Read? && !r.ok && r.errors == errors && pos <= r.pos <= |doc|
  {
    Read(false, RecoverEnd(e.f, doc, pos, until), value, errors)
  }

  /** `readValue` with `depth` nodes on the stack and `cur` on top of it. */
  function ReadValue(e: Env, doc: bytes, pos: nat, depth: nat, cur: Value): (r: Read)
    requires pos <= |doc|
    ensures Sound(r, doc, pos)
    decreases |doc| - pos, 0
  {
    if depth > e.f.stackLimit then Thrown
    else
      var t := LexValueStart(e.f, doc, pos);
      if t.kind == ObjectBegin then ReadMembers(e, doc, t.end, depth, [], [])
      else if t.kind == ArrayBegin then ReadItems(e, doc, t.end, depth, [])
      else if IsPlaceholder(t.kind) && e.f.allowDroppedNullPlaceholders then Read(true, t.end - 1, Null, [])
      else
        match ReadScalar(e, doc, t)
        case Got(v) => Read(true, t.end, v, [])
        case Failed(error) => Read(false, t.end, cur, [error])
  }

  /** The loop of `readArray`, the items so far in the current value. */
  function ReadItems(e: Env, doc: bytes, pos: nat, depth: nat, items: seq<Value>): (r: Read)
    requires pos <= |doc|
    ensures Sound(r, doc, pos)
    decreases |doc| - pos, 2
  {
    var p := SkipSpaces(doc, pos);
    if p < |doc| && doc[p] == RBRACKET &&
       (items == [] || (e.f.allowTrailingCommas && !e.f.allowDroppedNullPlaceholders)) then
      Read(true, p + 1, Array(items), [])
    else
      var item := ReadValue(e, doc, p, depth + 1, Null);
      if item.Thrown? then Thrown
      else
        var items' := items + [item.value];
        if !item.ok then FailAt(e, doc, item.pos, ArrayEnd, Array(items'), item.errors)
        else ReadItemEnd(e, doc, item.pos, depth, items')
  }

  /** What follows an item. */
  function ReadItemEnd(e: Env, doc: bytes, pos: nat, depth: nat, items: seq<Value>): (r: Read)
    requires pos <= |doc|
    ensures Sound(r, doc, pos)
    decreases |doc| - pos, 1
  {
    var t := LexPastComments(e.f, doc, pos);
    if t.kind == ArrayEnd then Read(true, t.end, Array(items), [])
    else if t.kind == ArraySeparator then ReadItems(e, doc, t.end, depth, items)
    else FailAt(e, doc, t.end, ArrayEnd, Array(items), [ErrorInfo(MissingCommaOrBracket, t, None)])
  }

  /** The member name in token `t`. */
  function ReadName(e: Env, doc: bytes, t: Token): Name
    requires t.start <= t.end <= |doc|
    requires t.kind == NumberToken ==> t.start < t.end
    requires t.kind == StringToken ==> t.start + 2 <= t.end
  {
    if t.kind == StringToken then ReadText(doc, t)
    else if t.kind == NumberToken && e.f.allowNumericKeys then
      match ReadNumber(e, doc, t)
      case Got(v) => Named(NumberName(e, v))
      case Failed(error) => Misnamed(error)
    else Misnamed(ErrorInfo(MissingBraceOrName, t, None))
  }

  /** The loop of `readObject`, `last` being the name read before. */
  function ReadMembers(e: Env, doc: bytes, pos: nat, depth: nat, ms: seq<Member>, last: bytes): (r: Read)
    requires pos <= |doc|
    ensures Sound(r, doc, pos)
    decreases |doc| - pos, 1
  {
    var t := LexPastComments(e.f, doc, pos);
    if t.kind == ObjectEnd && (last == [] || e.f.allowTrailingCommas) then Read(true, t.end, Object(ms), [])
    else
      match ReadName(e, doc, t)
      case Misnamed(error) => FailAt(e, doc, t.end, ObjectEnd, Object(ms), [error])
      case Named(name) =>
        if |name| >= MAX_KEY_LENGTH then Thrown
        else if e.f.rejectDupKeys && Find(ms, name).Some? then
          FailAt(e, doc, t.end, ObjectEnd, Object(ms), [ErrorInfo(DuplicateKey(name), t, None)])
        else ReadMember(e, doc, t.end, depth, ms, name)
  }

  /** The rest of a member after its name: colon, value and separator. */
  function ReadMember(e: Env, doc: bytes, pos: nat, depth: nat, ms: seq<Member>, name: bytes): (r: Read)
    requires pos <= |doc|
    ensures Sound(r, doc, pos)
    decreases |doc| - pos, 4
  {
    var colon := Lex(e.f, doc, pos);
    if colon.kind != MemberSeparator then
      FailAt(e, doc, colon.end, ObjectEnd, Object(ms), [ErrorInfo(MissingColon, colon, None)])
    else
      var existing := Find(ms, name);
      var child := ReadValue(e, doc, colon.end, depth + 1, if existing.Some? then existing.value else Null);
      if child.Thrown? then Thrown
      else
        var ms' := Put(ms, name, child.value);
        if !child.ok then FailAt(e, doc, child.pos, ObjectEnd, Object(ms'), child.errors)
        else ReadMemberEnd(e, doc, child.pos, depth, ms', name)
  }

  /** What follows the value of a member; after a comment any token passes as the separator. */
  function ReadMemberEnd(e: Env, doc: bytes, pos: nat, depth: nat, ms: seq<Member>, name: bytes): (r: Read)
    requires pos <= |doc|
    ensures Sound(r, doc, pos)
    decreases |doc| - pos, 3
  {
    var comma := Lex(e.f, doc, pos);
    if comma.kind !in {ObjectEnd, ArraySeparator, CommentToken} then
      FailAt(e, doc, comma.end, ObjectEnd, Object(ms), [ErrorInfo(MissingCommaOrBrace, comma, None)])
    else
      var t := if comma.kind == CommentToken then LexPastComments(e.f, doc, comma.end) else comma;
      if t.kind == ObjectEnd then Read(true, t.end, Object(ms), [])
      else ReadMembers(e, doc, t.end, depth, ms, name)
  }

  // ----- whole documents -----

  datatype Parsed =
    | Parsed(ok: bool, root: Value, errors: seq<ErrorInfo>)
    | ParseThrew

  const BOM: bytes := [0xEF, 0xBB, 0xBF]

  function DocumentStart(f: Features, doc: bytes): (r: nat)
    ensures r <= |doc|
  {
    if f.skipBom && OccursAt(doc, 0, BOM) then 3 else 0
  }

  /** `OurReader::parse`. */
  function Parse(e: Env, doc: bytes, root: Value): (r: Parsed)
    ensures r.Parsed? ==> (r.ok <==> r.errors == []) && |r.errors| <= 2
    ensures r.Parsed? ==> forall i | 0 <= i < |r.errors| :: Located(r.errors[i], doc, 0)
  {
    match ReadValue(e, doc, DocumentStart(e.f, doc), 1, root)
    case Thrown => ParseThrew
    case Read(ok, pos, value, errors) =>
      var t := LexValueStart(e.f, doc, pos);
      if e.f.failIfExtra && t.kind != EndOfStream then
        Parsed(false, value, errors + [ErrorInfo(ExtraAfterValue, t, None)])
      else if e.f.strictRoot && !value.Array? && !value.Object? then
        Parsed(false, value, errors + [ErrorInfo(RootNotContainer, Token(ErrorToken, 0, |doc|), None)])
      else Parsed(ok, value, errors)
  }
}
