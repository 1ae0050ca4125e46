/**
 The text of a configuration file: string helpers of CLI11 and what a line is.
 */
module ConfigText {
  predicate IsSpace(c: char) {
    c == ' ' || '\t' <= c <= '\r'
  }

  function LeftTrim(s: string): string {
    if s != [] && IsSpace(s[0]) then LeftTrim(s[1..]) else s
  }

  function RightTrim(s: string): string {
    if s != [] && IsSpace(s[|s| - 1]) then RightTrim(s[..|s| - 1]) else s
  }

  function Trim(s: string): string {
    LeftTrim(RightTrim(s))
  }

  function RemoveQuotes(s: string): string {
    if |s| > 1 && (s[0] == '\"' || s[0] == '\'') && s[0] == s[|s| - 1] then s[1..|s| - 1] else s
  }

  function Lower(c: char): char {
    if 'A' <= c <= 'Z' then c + ' ' else c
  }

  function ToLower(s: string): string {
    seq(|s|, i requires 0 <= i < |s| => Lower(s[i]))
  }

  /** The position of `c` in `s`, or the length of `s`. */
  function Find(s: string, c: char): (n: nat)
    ensures n <= |s|
    ensures n < |s| ==> s[n] == c
    ensures forall i | 0 <= i < n :: s[i] != c
  {
    if s == [] || s[0] == c then 0 else 1 + Find(s[1..], c)
  }

  /** The pieces that `getline` gives: nothing follows a delimiter at the end. */
  function Pieces(s: string, c: char): seq<string>
    decreases |s|
  {
    if s == [] then []
    else
      var n := Find(s, c);
      [s[..n]] + (if n < |s| then Pieces(s[n + 1..], c) else [])
  }

  function Split(s: string, c: char): (r: seq<string>)
    ensures r != []
  {
    if s == [] then [[]] else Pieces(s, c)
  }

  function JoinedWith(parts: seq<string>, c: char): string {
    if parts == [] then []
    else if |parts| == 1 then parts[0]
    else parts[0] + [c] + JoinedWith(parts[1..], c)
  }

  lemma {:induction false} PiecesJoin(s: string, c: char)
    requires s != []
    ensures Pieces(s, c) != [] && forall i | 0 <= i < |Pieces(s, c)| :: c !in Pieces(s, c)[i]
    ensures s == JoinedWith(Pieces(s, c), c) + (if s[|s| - 1] == c then [c] else [])
    decreases |s|
  {
    var n := Find(s, c);
    if n == |s| || n == |s| - 1 {
      LastPiece(s, c);
    } else {
      var head, rest := s[..n], s[n + 1..];
      assert s == head + [c] + rest && rest[|rest| - 1] == s[|s| - 1];
      PiecesJoin(rest, c);
      hide Pieces, JoinedWith, Find;
      PiecesStep(s, c);
      JoinStep(head, Pieces(rest, c), c);
      var tail := if s[|s| - 1] == c then [c] else [];
      Associate(head + [c], JoinedWith(Pieces(rest, c), c), tail);
    }
  }

  lemma LastPiece(s: string, c: char)
    requires s != [] && (Find(s, c) == |s| || Find(s, c) == |s| - 1)
    ensures Pieces(s, c) == [s[..Find(s, c)]] && c !in s[..Find(s, c)]
    ensures s == s[..Find(s, c)] + (if s[|s| - 1] == c then [c] else [])
  {
    hide Find;
  }

  lemma PiecesStep(s: string, c: char)
    requires s != [] && Find(s, c) < |s| - 1
    ensures Pieces(s, c) == [s[..Find(s, c)]] + Pieces(s[Find(s, c) + 1..], c) && c !in s[..Find(s, c)]
  {
    hide Find;
  }

  lemma JoinStep(head: string, parts: seq<string>, c: char)
    requires parts != []
    ensures JoinedWith([head] + parts, c) == head + [c] + JoinedWith(parts, c)
  {
    assert ([head] + parts)[1..] == parts;
  }

  lemma Associate(a: string, b: string, c: string)
    ensures a + (b + c) == (a + b) + c
  {
  }

  /** The pieces, joined again, are the text up to a delimiter at its end, and hold no delimiter. */
  lemma SplitJoins(s: string, c: char)
    ensures forall i | 0 <= i < |Split(s, c)| :: c !in Split(s, c)[i]
    ensures s == JoinedWith(Split(s, c), c) + (if s != [] && s[|s| - 1] == c then [c] else [])
  {
    if s != [] {
      PiecesJoin(s, c);
    }
  }

  const DEFAULT := "default"

  predicate IsDefault(section: string) {
    ToLower(section) == DEFAULT
  }

  function Unquoted(parts: seq<string>): (r: seq<string>)
    ensures |r| == |parts|
  {
    seq(|parts|, i requires 0 <= i < |parts| => RemoveQuotes(parts[i]))
  }

  /** The path of a section: its dotted parts. */
  function Path(section: string): (p: seq<string>)
    ensures p != []
  {
    Unquoted(if Find(section, '.') < |section| then Split(section, '.') else [section])
  }

  /** `generate_parents`: the path an item is in, and its name without the path. */
  function Parents(section: string, name: string): (seq<string>, string) {
    var outer := if IsDefault(section) then [] else Path(section);
    if Find(name, '.') < |name| then
      var parts := Split(name, '.');
      (outer + Unquoted(parts[..|parts| - 1]), RemoveQuotes(parts[|parts| - 1]))
    else
      (outer, name)
  }

  // ----- names -----

  /** The text without a dot at its end. */
  function WithoutLastDot(s: string): string {
    if s != [] && s[|s| - 1] == '.' then s[..|s| - 1] else s
  }

  /** The full name of an item: section and name with a dot between them. */
  function FullName(section: string, name: string): string {
    if IsDefault(section) then WithoutLastDot(name)
    else WithoutLastDot(section) + ['.'] + WithoutLastDot(name)
  }

  /**
   `path` and `own` are the parts of the full name of an item: it is cut at every dot, and
   quotation marks around a part are taken off. A name without dots is taken as it is.
   */
  ghost predicate Names(path: seq<string>, own: string, section: string, name: string) {
    exists parts: seq<string> :: FullParts(parts, section, name) && Cut(parts, path, own, name)
  }

  predicate FullParts(parts: seq<string>, section: string, name: string) {
    && parts != []
    && JoinedWith(parts, '.') == FullName(section, name)
    && forall i | 0 <= i < |parts| :: '.' !in parts[i]
  }

  predicate Cut(parts: seq<string>, path: seq<string>, own: string, name: string) {
    && parts != []
    && path == Unquoted(parts[..|parts| - 1])
    && own == if '.' in name then RemoveQuotes(parts[|parts| - 1]) else name
  }

  /** The full name leaves no choice of path and name. */
  lemma NamesUnique(path: seq<string>, own: string, path': seq<string>, own': string, section: string, name: string)
    requires Names(path, own, section, name) && Names(path', own', section, name)
    ensures path == path' && own == own'
  {
    var a :| FullParts(a, section, name) && Cut(a, path, own, name);
    var b :| FullParts(b, section, name) && Cut(b, path', own', name);
    hide JoinedWith, Unquoted, RemoveQuotes, FullName;
    PartsUnique(a, b, '.');
  }

  /** Dots are the only way to cut a text into parts without dots. */
  lemma {:induction false} PartsUnique(a: seq<string>, b: seq<string>, c: char)
    requires a != [] && b != [] && JoinedWith(a, c) == JoinedWith(b, c)
    requires forall i | 0 <= i < |a| :: c !in a[i]
    requires forall i | 0 <= i < |b| :: c !in b[i]
    ensures a == b
    decreases |a|
  {
    FirstPart(a, c);
    FirstPart(b, c);
    var s := JoinedWith(a, c);
    assert a[0] == b[0];
    assert a == [a[0]] + a[1..] && b == [b[0]] + b[1..];
    if |a| > 1 && |b| > 1 {
      assert JoinedWith(a[1..], c) == s[|a[0]| + 1..] == JoinedWith(b[1..], c);
      PartsUnique(a[1..], b[1..], c);
    }
  }

  lemma FirstPart(a: seq<string>, c: char)
    requires a != [] && forall i | 0 <= i < |a| :: c !in a[i]
    ensures var s := JoinedWith(a, c);
            && Find(s, c) == |a[0]| && s[..Find(s, c)] == a[0]
            && (|a| > 1 ==> |a[0]| < |s| && s[|a[0]| + 1..] == JoinedWith(a[1..], c))
            && (|a| == 1 ==> s == a[0])
  {
    var s := JoinedWith(a, c);
    var n := Find(s, c);
    if |a| > 1 {
      assert s == a[0] + [c] + JoinedWith(a[1..], c);
      assert s[|a[0]|] == c;
      assert forall i | 0 <= i < |a[0]| :: s[i] == a[0][i];
    }
  }

  /** The parts of a text that is cut at its dots. */
  function Parts(s: string): (r: seq<string>)
    ensures r != []
  {
    if Find(s, '.') < |s| then Split(s, '.') else [s]
  }

  lemma PartsJoin(s: string)
    ensures forall i | 0 <= i < |Parts(s)| :: '.' !in Parts(s)[i]
    ensures JoinedWith(Parts(s), '.') == WithoutLastDot(s)
  {
    if Find(s, '.') < |s| {
      SplitJoins(s, '.');
    }
  }

  lemma {:induction false} JoinAppend(a: seq<string>, b: seq<string>, c: char)
    requires a != [] && b != []
    ensures JoinedWith(a + b, c) == JoinedWith(a, c) + [c] + JoinedWith(b, c)
  {
    if |a| == 1 {
      assert a + b == [a[0]] + b;
      JoinStep(a[0], b, c);
    } else {
      assert a + b == [a[0]] + (a[1..] + b) && a == [a[0]] + a[1..];
      JoinStep(a[0], a[1..] + b, c);
      JoinStep(a[0], a[1..], c);
      JoinAppend(a[1..], b, c);
      hide JoinedWith;
      assert a[0] + [c] + (JoinedWith(a[1..], c) + [c] + JoinedWith(b, c)) ==
             (a[0] + [c] + JoinedWith(a[1..], c)) + [c] + JoinedWith(b, c);
    }
  }

  /** Path and name that `generate_parents` makes are the parts of the full name. */
  lemma ParentsName(section: string, name: string)
    ensures Names(Parents(section, name).0, Parents(section, name).1, section, name)
  {
    var outer := if IsDefault(section) then [] else Parts(section);
    PartsJoin(section);
    PartsJoin(name);
    FullNameParts(outer, section, name);
    ParentsCut(outer, section, name);
    hide *;
    assert FullParts(outer + Parts(name), section, name);
  }

  lemma FullNameParts(outer: seq<string>, section: string, name: string)
    requires outer == if IsDefault(section) then [] else Parts(section)
    requires forall i | 0 <= i < |Parts(section)| :: '.' !in Parts(section)[i]
    requires forall i | 0 <= i < |Parts(name)| :: '.' !in Parts(name)[i]
    requires JoinedWith(Parts(section), '.') == WithoutLastDot(section)
    requires JoinedWith(Parts(name), '.') == WithoutLastDot(name)
    ensures FullParts(outer + Parts(name), section, name)
  {
    hide JoinedWith, IsDefault, Parts, WithoutLastDot;
    var inner := Parts(name);
    if outer == [] {
      assert outer + inner == inner;
    } else {
      JoinAppend(outer, inner, '.');
    }
  }

  lemma ParentsCut(outer: seq<string>, section: string, name: string)
    requires outer == if IsDefault(section) then [] else Parts(section)
    ensures Cut(outer + Parts(name), Parents(section, name).0, Parents(section, name).1, name)
  {
    hide IsDefault, Split, RemoveQuotes, JoinedWith;
    var inner := Parts(name);
    var parts := outer + inner;
    assert Find(name, '.') < |name| <==> '.' in name;
    hide Find;
    assert parts[..|parts| - 1] == outer + inner[..|inner| - 1];
    UnquotedAppend(outer, inner[..|inner| - 1]);
    assert Unquoted([]) == [];
  }

  lemma UnquotedAppend(a: seq<string>, b: seq<string>)
    ensures Unquoted(a + b) == Unquoted(a) + Unquoted(b)
  {
    hide RemoveQuotes;
  }

  // ----- lines -----

  /** What `from_config` is configured with; `values` makes the inputs of an item of its text. */
  datatype Config = Config(comment: char, delimiter: char, values: string -> seq<string>)

  datatype Line =
    | Ignored
    | Header(section: string)
    | Entry(name: string, inputs: seq<string>)

  function InsideBrackets(s: string): string
    requires |s| > 1
  {
    s[1..|s| - 1]
  }

  predicate Bracketed(s: string) {
    |s| > 1 && s[0] == '[' && s[|s| - 1] == ']'
  }

  /** The name in a header line, which may have double brackets. */
  function SectionName(line: string): string
    requires Bracketed(line)
  {
    var inner := InsideBrackets(line);
    var name := if Bracketed(inner) then InsideBrackets(inner) else inner;
    if IsDefault(name) then DEFAULT else name
  }

  function Classify(config: Config, text: string): Line {
    var line := Trim(text);
    if Bracketed(line) then Header(SectionName(line))
    else if line == [] || line[0] == ';' || line[0] == '#' || line[0] == config.comment then Ignored
    else
      var pos := Find(line, config.delimiter);
      var name := Trim(line[..pos]);
      var inputs := if pos < |line| then config.values(Trim(line[pos + 1..])) else ["true"];
      Entry(if Find(name, '.') < |name| then name else RemoveQuotes(name), Unquoted(inputs))
  }

  // ----- what lines look like -----

  predicate AllSpaces(s: string) {
    forall i | 0 <= i < |s| :: IsSpace(s[i])
  }

  /** Text that neither begins nor ends with white space. */
  predicate Bare(s: string) {
    s != [] ==> !IsSpace(s[0]) && !IsSpace(s[|s| - 1])
  }

  /** A text trimmed is what is left between white space at its ends. */
  lemma TrimExact(a: string, s: string, b: string)
    requires AllSpaces(a) && AllSpaces(b) && Bare(s)
    ensures Trim(a + s + b) == s
  {
    RightTrimmed(a + s, b);
    if s == [] {
      assert a + s == a;
      RightTrimmed([], a);
      assert [] + a == a;
    } else {
      assert RightTrim(a + s) == a + s;
      LeftTrimmed(a, s);
    }
  }

  lemma {:induction false} RightTrimmed(s: string, b: string)
    requires AllSpaces(b)
    ensures RightTrim(s + b) == RightTrim(s)
  {
    if b == [] {
      assert s + b == s;
    } else {
      assert (s + b)[..|s + b| - 1] == s + b[..|b| - 1];
      RightTrimmed(s, b[..|b| - 1]);
    }
  }

  lemma {:induction false} LeftTrimmed(a: string, s: string)
    requires AllSpaces(a) && s != [] && !IsSpace(s[0])
    ensures LeftTrim(a + s) == s
  {
    if a == [] {
      assert a + s == s;
    } else {
      assert (a + s)[1..] == a[1..] + s;
      LeftTrimmed(a[1..], s);
    }
  }

  /** Quotation marks of one kind around a text come off, and nothing else does. */
  lemma QuotesExact(s: string)
    ensures forall q: char, t: string | q in "\"\'" && s == [q] + t + [q] :: RemoveQuotes(s) == t
    ensures RemoveQuotes(s) == s ||
            exists q: char :: q in "\"\'" && s == [q] + RemoveQuotes(s) + [q]
  {
    if RemoveQuotes(s) != s {
      assert s[0] in "\"\'" && s == [s[0]] + RemoveQuotes(s) + [s[0]];
    }
    forall q: char, t: string | q in "\"\'" && s == [q] + t + [q]
      ensures RemoveQuotes(s) == t
    {
      assert s[1..|s| - 1] == t;
    }
  }

  /** A name in brackets, white space around them, is a header. */
  lemma HeaderLine(config: Config, a: string, name: string, b: string)
    requires AllSpaces(a) && AllSpaces(b) && !Bracketed(name)
    ensures Classify(config, a + (['['] + name + [']']) + b) == Header(if IsDefault(name) then "default" else name)
  {
    var line := ['['] + name + [']'];
    TrimExact(a, line, b);
    assert line[1..|line| - 1] == name;
    hide Trim, IsDefault;
  }

  /** A name in double brackets is one too. */
  lemma DoubleHeaderLine(config: Config, a: string, name: string, b: string)
    requires AllSpaces(a) && AllSpaces(b)
    ensures Classify(config, a + (['[', '['] + name + [']', ']']) + b) ==
            Header(if IsDefault(name) then "default" else name)
  {
    var line := ['[', '['] + name + [']', ']'];
    TrimExact(a, line, b);
    var inner := line[1..|line| - 1];
    assert inner == ['['] + name + [']'];
    assert inner[1..|inner| - 1] == name;
    hide Trim, IsDefault;
  }

  /** Blank lines and lines that begin with a comment character say nothing. */
  lemma CommentLine(config: Config, a: string, line: string, b: string)
    requires AllSpaces(a) && AllSpaces(b) && Bare(line) && !Bracketed(line)
    requires line == [] || line[0] == ';' || line[0] == '#' || line[0] == config.comment
    ensures Classify(config, a + line + b) == Ignored
  {
    TrimExact(a, line, b);
    hide Trim;
  }

  /** Lines that are neither headers nor comments. */
  predicate IsItem(config: Config, line: string) {
    && line != [] && Bare(line) && !Bracketed(line)
    && line[0] != ';' && line[0] != '#' && line[0] != config.comment
  }

  /** The text in front of the first delimiter names an item, the text behind it is its value. */
  lemma ValueLine(config: Config, a: string, head: string, tail: string, b: string)
    requires AllSpaces(a) && AllSpaces(b) && config.delimiter !in head
    requires IsItem(config, head + [config.delimiter] + tail)
    ensures var name := Trim(head);
            Classify(config, a + (head + [config.delimiter] + tail) + b) ==
            Entry(if '.' in name then name else RemoveQuotes(name), Unquoted(config.values(Trim(tail))))
  {
    var line := head + [config.delimiter] + tail;
    TrimExact(a, line, b);
    var pos := Find(line, config.delimiter);
    assert line[|head|] == config.delimiter;
    assert forall i | 0 <= i < |head| :: line[i] == head[i];
    assert pos == |head|;
    assert line[..pos] == head && line[pos + 1..] == tail;
    var name := Trim(head);
    assert Find(name, '.') < |name| <==> '.' in name;
    hide Trim, Find, RemoveQuotes, Unquoted;
  }

  /** A line without a delimiter names an item that is true. */
  lemma FlagLine(config: Config, a: string, line: string, b: string)
    requires AllSpaces(a) && AllSpaces(b) && IsItem(config, line) && config.delimiter !in line
    ensures Classify(config, a + line + b) ==
            Entry(if '.' in line then line else RemoveQuotes(line), ["true"])
  {
    TrimExact(a, line, b);
    assert Find(line, config.delimiter) == |line|;
    assert line[..|line|] == line;
    TrimExact([], line, []);
    assert [] + line + [] == line;
    assert Find(line, '.') < |line| <==> '.' in line;
    assert Unquoted(["true"]) == ["true"];
    hide Trim, Find, RemoveQuotes, Unquoted;
  }

  lemma DefaultIsDefault()
    ensures IsDefault(DEFAULT)
  {
    var d := DEFAULT;
    assert forall i | 0 <= i < |d| :: Lower(d[i]) == d[i];
    assert ToLower(d) == d;
  }
}
