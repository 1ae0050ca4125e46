/**
 Writers and reader put together: a value printed and parsed again.
 */
module JsonRoundTrip {
  import opened Bytes
  import opened JsonValue
  import opened JsonReader
  import opened JsonTokens
  import opened JsonSpelling
  import opened JsonSyntax
  import JsonAccepted
  import JsonDocument
  import JsonFastWriter
  import JsonStyledWriter
  import JsonOurReader
  import JsonText

  /** Parsing a text that spells the tokens of a value. */
  method ParseSpelled(e: Env, text: bytes, v: Value, ghost emitUtf8: bool, root: Value)
    returns (status: JsonOurReader.Status, result: Value)
    requires Printable(v, emitUtf8) && Spells(text, Tokens(v, emitUtf8))
    ensures status == JsonOurReader.Accepted && result == Canonical(v) <==> JsonDocument.Admits(e.f, v)
    ensures status == JsonOurReader.Threw <==> Depth(v) > e.f.stackLimit
  {
    hide Spells, Tokens, Printable, JsonReader.Parse, JsonDocument.Admits, Canonical, Depth;
    JsonDocument.RoundTripExact(e, text, v, emitUtf8, root);
    var reader := new JsonOurReader.OurReader(e, text);
    status, result := reader.Parse(root);
  }

  /** A value printed by `FastWriter` comes back exactly when the reader's settings admit it. */
  method PrintFastAndParse(e: Env, o: JsonFastWriter.Options, omitEndingLineFeed: bool, v: Value, root: Value)
    returns (status: JsonOurReader.Status, result: Value)
    requires Printable(v, false) && JsonFastWriter.InRange(v) && !o.dropNulls
    ensures status == JsonOurReader.Accepted && result == Canonical(v) <==> JsonDocument.Admits(e.f, v)
    ensures status == JsonOurReader.Threw <==> Depth(v) > e.f.stackLimit
  {
    hide Spells, Tokens, Printable, JsonDocument.Admits, Canonical, Depth, JsonFastWriter.FastText;
    var writer := new JsonFastWriter.FastWriter(o, omitEndingLineFeed);
    writer.Write(v);
    JsonFastWriter.FastDocumentSpells(o, omitEndingLineFeed, v);
    status, result := ParseSpelled(e, writer.document, v, false, root);
  }

  /** The same for `BuiltStyledStreamWriter`. */
  method PrintStyledAndParse(e: Env, s: JsonStyledWriter.Style, v: Value, root: Value)
    returns (status: JsonOurReader.Status, result: Value)
    requires Printable(v, s.emitUtf8) && JsonFastWriter.InRange(v) && s.Plain()
    ensures status == JsonOurReader.Accepted && result == Canonical(v) <==> JsonDocument.Admits(e.f, v)
    ensures status == JsonOurReader.Threw <==> Depth(v) > e.f.stackLimit
  {
    hide Spells, Tokens, Printable, JsonDocument.Admits, Canonical, Depth, JsonStyledWriter.Styled;
    var writer := new JsonStyledWriter.StyledWriter(s);
    writer.Write(v);
    JsonStyledWriter.DocumentSpells(s, v);
    status, result := ParseSpelled(e, writer.sout, v, s.emitUtf8, root);
  }

  /**
   The round trip from the text side: a document that parses without errors to a value with
   no double, printed in any plain style with raw text and parsed again, gives that value.
   */
  method ParsePrintAndParse(e: Env, s: JsonStyledWriter.Style, doc: bytes, root: Value, other: Value)
    returns (status: JsonOurReader.Status, value: Value, again: JsonOurReader.Status, result: Value)
    requires s.Plain() && s.emitUtf8
    ensures status == JsonOurReader.Accepted && JsonText.NoDoubles(value) ==>
              again == JsonOurReader.Accepted && result == value
  {
    hide Spells, Tokens, Printable, JsonReader.Parse, JsonDocument.Admits, Canonical, Depth, JsonText.NoDoubles;
    var reader := new JsonOurReader.OurReader(e, doc);
    status, value := reader.Parse(root);
    again, result := JsonOurReader.Rejected, other;
    if status == JsonOurReader.Accepted && JsonText.NoDoubles(value) {
      JsonText.ParsedTame(e, doc, root);
      again, result := PrintStyledAndParse(e, s, value, other);
    }
  }

  /** Reading any document: it is accepted exactly when it holds an admissible tree, with
      what the tree means. */
  method ReadDocument(e: Env, doc: bytes, root: Value) returns (status: JsonOurReader.Status, value: Value)
    ensures status == JsonOurReader.Accepted <==> exists n :: JsonAccepted.Document(e, doc, n)
    ensures forall n | JsonAccepted.Document(e, doc, n) :: value == Meaning(e, n)
  {
    hide JsonAccepted.Document, JsonReader.Parse, Meaning;
    var reader := new JsonOurReader.OurReader(e, doc);
    status, value := reader.Parse(root);
    forall n | JsonAccepted.Document(e, doc, n)
      ensures JsonReader.Parse(e, doc, root) == Parsed(true, Meaning(e, n), [])
    {
      JsonAccepted.DocumentParses(e, doc, n, root);
    }
    if status == JsonOurReader.Accepted {
      ghost var n := JsonAccepted.ParsedIsDocument(e, doc, root);
    }
  }
}
