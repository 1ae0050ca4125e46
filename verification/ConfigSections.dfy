/**
 The section events of CLI11's `from_config`: an item named `++` opens a section, one named
 `--` closes it. Replaying them on a path shows whether they are well bracketed.
 */
module ConfigSections {
  import opened Bytes
  import opened ConfigText

  datatype ConfigItem = ConfigItem(parents: seq<string>, name: string, inputs: seq<string>)

  const OPEN := "++"
  const CLOSE := "--"

  function Opening(path: seq<string>): ConfigItem {
    ConfigItem(path, OPEN, [])
  }

  function Closing(path: seq<string>): ConfigItem {
    ConfigItem(path, CLOSE, [])
  }

  function Init(path: seq<string>): seq<string>
    requires path != []
  {
    path[..|path| - 1]
  }

  /** An opening must extend the current path by one step, a closing must name it. */
  function Step(item: ConfigItem, path: seq<string>): Option<seq<string>> {
    if item.name == OPEN then
      if item.parents != [] && Init(item.parents) == path then Some(item.parents) else None
    else if item.name == CLOSE then
      if item.parents != [] && item.parents == path then Some(Init(path)) else None
    else Some(path)
  }

  function Replay(output: seq<ConfigItem>): Option<seq<string>> {
    if output == [] then Some([])
    else
      match Replay(output[..|output| - 1])
      case None => None
      case Some(path) => Step(output[|output| - 1], path)
  }

  lemma ReplayPush(output: seq<ConfigItem>, item: ConfigItem)
    ensures Replay(output + [item]) ==
            match Replay(output) { case None => None case Some(path) => Step(item, path) }
  {
    assert (output + [item])[..|output|] == output;
  }

  /** The values of the items, in order, each with its path and name. */
  function Values(output: seq<ConfigItem>): seq<(seq<string>, string, string)> {
    if output == [] then []
    else
      var last := output[|output| - 1];
      Values(output[..|output| - 1]) +
      (if last.name == OPEN || last.name == CLOSE then [] else Tagged(last.parents, last.name, last.inputs))
  }

  function Tagged(parents: seq<string>, name: string, inputs: seq<string>): seq<(seq<string>, string, string)> {
    seq(|inputs|, i requires 0 <= i < |inputs| => (parents, name, inputs[i]))
  }

  lemma ValuesPush(output: seq<ConfigItem>, item: ConfigItem)
    ensures Values(output + [item]) ==
            Values(output) +
            (if item.name == OPEN || item.name == CLOSE then [] else Tagged(item.parents, item.name, item.inputs))
  {
    assert (output + [item])[..|output|] == output;
  }

  // ----- the state of a run -----

  predicate BackCloses(output: seq<ConfigItem>) {
    output != [] && output[|output| - 1].name == CLOSE
  }

  /** The last event has just closed `path`. */
  predicate JustClosed(output: seq<ConfigItem>, path: seq<string>) {
    && output != [] && path != []
    && output[|output| - 1] == Closing(path)
    && Replay(output[..|output| - 1]) == Some(path)
  }

  lemma JustClosedReplay(output: seq<ConfigItem>, path: seq<string>)
    requires JustClosed(output, path)
    ensures Replay(output) == Some(Init(path)) && BackCloses(output)
  {
  }

  lemma CloseNow(output: seq<ConfigItem>, path: seq<string>)
    requires Replay(output) == Some(path) && path != []
    ensures JustClosed(output + [Closing(path)], path)
  {
    assert (output + [Closing(path)])[..|output|] == output;
  }

  /** No replay can succeed any more, not even when a closing at the end is taken back. */
  predicate Failed(output: seq<ConfigItem>) {
    Replay(output).None? && (BackCloses(output) ==> Replay(output[..|output| - 1]).None?)
  }

  lemma FailedPush(output: seq<ConfigItem>, item: ConfigItem)
    requires Replay(output).None?
    ensures Failed(output + [item])
  {
    assert (output + [item])[..|output|] == output;
  }

  // ----- opening and closing several -----

  /** Whether the run so far is in order with `path` just closed, or beyond repair. */
  ghost predicate ClosedOrFailed(output: seq<ConfigItem>, path: seq<string>, ok: bool) {
    BackCloses(output) && if ok then JustClosed(output, path) else Failed(output)
  }

  lemma CloseOuter(output: seq<ConfigItem>, path: seq<string>, ok: bool)
    requires ClosedOrFailed(output, path, ok) && |output[|output| - 1].parents| > 1
    ensures ok ==> path == output[|output| - 1].parents
    ensures var last := output[|output| - 1];
            var up := last.(parents := Init(last.parents));
            ClosedOrFailed(output + [up], if ok then Init(path) else path, ok)
  {
    var last := output[|output| - 1];
    var up := last.(parents := Init(last.parents));
    if ok {
      JustClosedReplay(output, path);
      CloseNow(output, Init(path));
    } else {
      FailedPush(output, up);
    }
  }

  /**
   Closes the sections around the one just closed as long as they have `size` parts. What
   it makes of the events is known unless an item was named like one.
   */
  method CloseDown(output: seq<ConfigItem>, size: nat, ghost path: seq<string>, ghost ok: bool, ghost known: bool)
    returns (r: seq<ConfigItem>, ghost left: seq<string>)
    requires size > 1 && BackCloses(output) && (known ==> ClosedOrFailed(output, path, ok))
    ensures BackCloses(r) && Values(r) == Values(output) && |r[|r| - 1].parents| < size
    ensures known ==> ClosedOrFailed(r, left, ok)
    ensures known && ok ==> left <= path && |left| == if |path| < size then |path| else size - 1
    ensures known && ok ==> |r| == |output| + |path| - |left|
  {
    hide Replay, Values;
    r, left := output, path;
    while |r[|r| - 1].parents| >= size
      invariant BackCloses(r) && Values(r) == Values(output)
      invariant known ==> ClosedOrFailed(r, left, ok)
      invariant known && ok ==> left <= path && (|left| == |path| || |left| >= size - 1)
      invariant known && ok ==> |r| == |output| + |path| - |left|
      decreases |r[|r| - 1].parents|
    {
      if known {
        CloseOuter(r, left, ok);
        left := if ok then Init(left) else left;
      }
      var last := r[|r| - 1];
      ValuesPush(r, last.(parents := Init(last.parents)));
      r := r + [last.(parents := Init(last.parents))];
    }
  }

  /** Opens `path[..k]` for each `k` above `from`, but not `path` itself. */
  method OpenUp(output: seq<ConfigItem>, path: seq<string>, from: nat) returns (r: seq<ConfigItem>)
    requires from < |path|
    ensures Values(r) == Values(output)
    ensures Replay(output) == Some(path[..from]) ==> Replay(r) == Some(Init(path))
    ensures Replay(output).None? ==> Replay(r).None?
    ensures Replay(output) != Some(path[..from]) && from == 0 && |path| > 1 ==> Replay(r).None?
    ensures |path| == from + 1 ==> r == output
    ensures |r| == |output| + |path| - 1 - from
  {
    hide Replay, Values;
    r := output;
    for k := from to |path| - 1
      invariant Values(r) == Values(output)
      invariant Replay(output) == Some(path[..from]) ==> Replay(r) == Some(path[..k])
      invariant Replay(output).None? ==> Replay(r).None?
      invariant Replay(output) != Some(path[..from]) && from == 0 && k > 0 ==> Replay(r).None?
      invariant k == from ==> r == output
      invariant |r| == |output| + k - from
    {
      var item := Opening(path[..k + 1]);
      ReplayPush(r, item);
      ValuesPush(r, item);
      assert Init(item.parents) == path[..k];
      r := r + [item];
    }
  }

  /** How many parts two paths begin with in common, of the first `n`. */
  method CommonParts(a: seq<string>, b: seq<string>, n: nat) returns (common: nat)
    requires n <= |a| && n <= |b|
    ensures common <= n && a[..common] == b[..common]
    ensures common < n ==> a[common] != b[common]
  {
    common := 0;
    while common < n && a[common] == b[common]
      invariant common <= n && a[..common] == b[..common]
    {
      common := common + 1;
    }
  }

  /** How many parts two paths begin with in common. */
  function Shared(a: seq<string>, b: seq<string>): (n: nat)
    ensures n <= |a| && n <= |b| && a[..n] == b[..n]
    ensures n < |a| && n < |b| ==> a[n] != b[n]
  {
    if a != [] && b != [] && a[0] == b[0] then 1 + Shared(a[1..], b[1..]) else 0
  }

  lemma SharedIs(a: seq<string>, b: seq<string>, n: nat)
    requires n <= |a| && n <= |b| && a[..n] == b[..n]
    requires n == |a| || n == |b| || a[n] != b[n]
    ensures Shared(a, b) == n
  {
    hide Shared;
    var m := Shared(a, b);
    assert forall i | 0 <= i < n :: a[i] == a[..n][i] == b[..n][i] == b[i];
    assert forall i | 0 <= i < m :: a[i] == a[..m][i] == b[..m][i] == b[i];
  }

  /** What `checkParentSegments` makes of the current path when a section is entered. */
  predicate Entered(r: seq<ConfigItem>, path: seq<string>, ok: bool) {
    && !BackCloses(r)
    && if ok then Replay(r) == Some(path) else Replay(r).None?
  }

  lemma EnterLast(output: seq<ConfigItem>, path: seq<string>, ok: bool, known: bool)
    requires path != []
    requires known ==> if ok then Replay(output) == Some(Init(path))
                       else Replay(output).None? || (|path| == 1 && Replay(output) != Some([]))
    ensures known ==> Entered(output + [Opening(path)], path, ok)
    ensures Values(output + [Opening(path)]) == Values(output)
  {
    ReplayPush(output, Opening(path));
    ValuesPush(output, Opening(path));
    assert |path| == 1 ==> Init(path) == [];
  }

  /** The part of `checkParentSegments` for a section that follows one just closed. */
  method Reenter(output: seq<ConfigItem>, path: seq<string>, ghost closed: seq<string>, ghost ok: bool,
                 ghost known: bool) returns (r: seq<ConfigItem>)
    requires path != [] && BackCloses(output) && (known ==> ClosedOrFailed(output, closed, ok))
    ensures Values(r) == Values(output)
    ensures known ==> if ok then Replay(r) == Some(Init(path)) else Replay(r).None?
    ensures known && ok ==>
              var kept := Shared(closed, Init(path));
              |r| == |output| - 1 + (|closed| - kept) + (|path| - 1 - kept)
  {
    hide Replay, Values, ClosedOrFailed, Shared;
    ghost var left;
    r, left := CloseDown(output, if |path| > 1 then |path| else 2, closed, ok, known);
    ClosedBack(r, left, ok, known);
    if |path| > 1 {
      var back := r[|r| - 1].parents;
      var pairs := if |back| < |path| - 1 then |back| else |path| - 1;
      var common := CommonParts(back, path, pairs);
      if common == pairs {
        TakeBack(r, left, ok, known);
        r := r[..|r| - 1];
        assert known && ok ==> path[..common] == left;
      } else {
        r, left := CloseDown(r, common + 2, left, ok, known);
        ClosedBack(r, left, ok, known);
        assert known && ok ==> Init(left) == path[..common];
      }
      if known && ok {
        KeptOpen(closed, back, path, common);
      }
      r := OpenUp(r, path, common);
    } else {
      assert known && ok ==> Init(left) == Init(path);
      assert Shared(closed, Init(path)) == 0;
    }
  }

  /** The sections that stay open are all that the two paths share. */
  lemma KeptOpen(closed: seq<string>, back: seq<string>, path: seq<string>, common: nat)
    requires |path| > 1 && back <= closed
    requires |back| == if |closed| < |path| then |closed| else |path| - 1
    requires var pairs := if |back| < |path| - 1 then |back| else |path| - 1;
             && common <= pairs && back[..common] == path[..common]
             && (common < pairs ==> back[common] != path[common])
    ensures Shared(closed, Init(path)) == common
  {
    assert closed[..common] == back[..common];
    assert Init(path)[..common] == path[..common];
    SharedIs(closed, Init(path), common);
  }

  lemma ClosedBack(output: seq<ConfigItem>, path: seq<string>, ok: bool, known: bool)
    requires BackCloses(output) && (known ==> ClosedOrFailed(output, path, ok))
    ensures known && ok ==>
              path != [] && output[|output| - 1].parents == path && Replay(output) == Some(Init(path))
    ensures known && !ok ==> Replay(output).None?
  {
    if known && ok {
      JustClosedReplay(output, path);
    }
  }

  /** Taking the closing back leaves the section open. */
  lemma TakeBack(output: seq<ConfigItem>, path: seq<string>, ok: bool, known: bool)
    requires BackCloses(output) && (known ==> ClosedOrFailed(output, path, ok))
    ensures Values(output[..|output| - 1]) == Values(output)
    ensures known ==> if ok then Replay(output[..|output| - 1]) == Some(path)
                      else Replay(output[..|output| - 1]).None?
  {
    hide Values;
    var front, last := output[..|output| - 1], output[|output| - 1];
    assert output == front + [last];
    ValuesPush(front, last);
    assert Values(front) + [] == Values(front);
  }

  /**
   The events that lead to a section: from the one just closed, which has its closing
   already, only what the two do not share is closed and opened; else all of it is opened.
   */
  function Detour(output: seq<ConfigItem>, closed: seq<string>, path: seq<string>): int
    requires path != []
  {
    if BackCloses(output) then
      var kept := Shared(closed, Init(path));
      (|closed| - kept) + (|path| - kept) - 1
    else |path|
  }

  /** `checkParentSegments`: enters a section from wherever the events left off. */
  method CheckParentSegments(output: seq<ConfigItem>, section: string, ghost closed: seq<string>, ghost ok: bool,
                             ghost known: bool) returns (r: seq<ConfigItem>)
    requires !IsDefault(section)
    requires known && BackCloses(output) ==> ClosedOrFailed(output, closed, ok)
    requires known && !BackCloses(output) ==> (ok <==> Replay(output) == Some([]))
    ensures Values(r) == Values(output)
    ensures known ==> Entered(r, Path(section), ok)
    ensures known && ok ==> |r| == |output| + Detour(output, closed, Path(section))
  {
    hide Replay, Values, ClosedOrFailed, Path, IsDefault, Entered, Shared;
    var path := Path(section);
    if BackCloses(output) {
      r := Reenter(output, path, closed, ok, known);
    } else if |path| > 1 {
      assert path[..0] == [];
      r := OpenUp(output, path, 0);
    } else {
      r := output;
    }
    EnterLast(r, path, ok, known);
    r := r + [Opening(path)];
  }

  // ----- whole texts -----

  /**
   Where a text has got to; after leaving a section for the default one, its outer sections
   are open. Nothing is known behind an item that is named like an event.
   */
  datatype Mode = Outside | Inside(path: seq<string>) | Left(path: seq<string>) | Stranded | Lost | Unknown

  function NextMode(line: Line, mode: Mode): Mode {
    if mode.Unknown? || !PlainLine(line) then Unknown
    else
    match line
    case Ignored => mode
    case Header(section) =>
      if section == DEFAULT then
        if mode.Inside? then (if |mode.path| > 1 then Left(mode.path) else Outside) else mode
      else if mode.Stranded? || mode.Lost? then Lost
      else Inside(Path(section))
    case Entry(_, _) => if mode.Left? then Stranded else mode
  }

  function ModeAfter(config: Config, lines: seq<string>): Mode {
    if lines == [] then Outside
    else NextMode(Classify(config, lines[|lines| - 1]), ModeAfter(config, lines[..|lines| - 1]))
  }

  /** The section the text is in. */
  function SectionAfter(config: Config, lines: seq<string>): string {
    if lines == [] then DEFAULT
    else
      match Classify(config, lines[|lines| - 1])
      case Header(section) => section
      case _ => SectionAfter(config, lines[..|lines| - 1])
  }

  predicate Named(line: Line) {
    line.Header? && line.section != DEFAULT
  }

  /** Line `i` returns to the default section from a section with more than one part. */
  predicate Returns(config: Config, lines: seq<string>, i: nat): (r: bool)
    ensures r ==> i < |lines|
  {
    && i < |lines| && Classify(config, lines[i]) == Header(DEFAULT)
    && var section := SectionAfter(config, lines[..i]);
       section != DEFAULT && |Path(section)| > 1
  }

  /** A named section follows line `i`, before any item. */
  predicate Answered(config: Config, lines: seq<string>, i: nat) {
    exists j | i < j < |lines| ::
      Named(Classify(config, lines[j])) && NoEntries(config, lines, i, j)
  }

  predicate NoEntries(config: Config, lines: seq<string>, i: nat, j: nat) {
    forall k | i < k < j && k < |lines| :: !Classify(config, lines[k]).Entry?
  }

  /**
   The condition for well bracketed events: each return to the default section from a
   section with more than one part is followed by a named section, before any item and
   before the end of the text.
   */
  predicate Balanced(config: Config, lines: seq<string>) {
    forall i | 0 <= i < |lines| && Returns(config, lines, i) :: Answered(config, lines, i)
  }

  /** Every value of the text with the path and the name it is given under. */
  function Given(config: Config, lines: seq<string>): seq<(seq<string>, string, string)> {
    if lines == [] then []
    else
      var before := lines[..|lines| - 1];
      Given(config, before) +
      match Classify(config, lines[|lines| - 1]) {
        case Entry(name, inputs) =>
          var (parents, own) := Parents(SectionAfter(config, before), name);
          Tagged(parents, own, inputs)
        case _ => []
      }
  }

  /** The values of the text as they stand there: the section they are in, their name and the value. */
  function Entries(config: Config, lines: seq<string>): seq<(string, string, string)> {
    if lines == [] then []
    else
      var before := lines[..|lines| - 1];
      Entries(config, before) +
      match Classify(config, lines[|lines| - 1]) {
        case Entry(name, inputs) => EntriesOf(SectionAfter(config, before), name, inputs)
        case _ => []
      }
  }

  function EntriesOf(section: string, name: string, inputs: seq<string>): seq<(string, string, string)> {
    seq(|inputs|, i requires 0 <= i < |inputs| => (section, name, inputs[i]))
  }

  /** The values kept are those of the text, in order, each under the parts of its full name. */
  ghost predicate Kept(values: seq<(seq<string>, string, string)>, entries: seq<(string, string, string)>) {
    && |values| == |entries|
    && forall k | 0 <= k < |values| ::
         Names(values[k].0, values[k].1, entries[k].0, entries[k].1) && values[k].2 == entries[k].2
  }

  lemma {:induction false} GivenKept(config: Config, lines: seq<string>)
    ensures Kept(Given(config, lines), Entries(config, lines))
  {
    hide Names, Classify, Parents;
    if lines != [] {
      var before := lines[..|lines| - 1];
      GivenKept(config, before);
      var line := Classify(config, lines[|lines| - 1]);
      if line.Entry? {
        ParentsName(SectionAfter(config, before), line.name);
      }
    }
  }

  /** No item has the name of an event. */
  predicate PlainNames(config: Config, lines: seq<string>) {
    forall i | 0 <= i < |lines| :: PlainLine(Classify(config, lines[i]))
  }

  predicate PlainLine(line: Line) {
    line.Entry? ==> Parents(DEFAULT, line.name).1 != OPEN && Parents(DEFAULT, line.name).1 != CLOSE
  }

  lemma NameAlone(section: string, name: string)
    ensures Parents(section, name).1 == Parents(DEFAULT, name).1
  {
  }

  predicate InMode(output: seq<ConfigItem>, section: string, mode: Mode) {
    && (section == DEFAULT || !IsDefault(section))
    && match mode
       case Outside =>
         && section == DEFAULT && Replay(output) == Some([])
         && (BackCloses(output) ==> JustClosed(output, output[|output| - 1].parents))
       case Inside(path) =>
         && section != DEFAULT && path == Path(section) && Replay(output) == Some(path) && !BackCloses(output)
       case Left(path) =>
         section == DEFAULT && |path| > 1 && JustClosed(output, path)
       case Stranded =>
         section == DEFAULT && Replay(output).Some? && Replay(output).value != [] && !BackCloses(output)
       case Lost =>
         Failed(output)
       case Unknown =>
         true
  }

  lemma HeaderName(config: Config, text: string)
    requires Classify(config, text).Header?
    ensures var section := Classify(config, text).section;
            section == DEFAULT || !IsDefault(section)
  {
    DefaultIsDefault();
  }

  /** The closing event of the section that a header ends. */
  method EndSection(output: seq<ConfigItem>, section: string, ghost mode: Mode) returns (r: seq<ConfigItem>)
    requires InMode(output, section, mode)
    ensures Values(r) == Values(output)
    ensures mode.Inside? ==> JustClosed(r, mode.path)
    ensures mode.Lost? ==> Failed(r)
    ensures mode.Outside? || mode.Left? || mode.Stranded? ==> r == output
    ensures section != DEFAULT ==> BackCloses(r)
  {
    hide Replay, Values;
    r := output;
    if section != DEFAULT {
      var path := Parents(section, "").0;
      assert path == Path(section);
      ValuesPush(output, Closing(path));
      r := output + [Closing(path)];
      if mode.Inside? {
        CloseNow(output, path);
      } else if mode.Lost? {
        FailedPush(output, Closing(path));
      }
    }
  }

  /** A header line. */
  method TakeHeader(output: seq<ConfigItem>, section: string, next: string, ghost mode: Mode)
    returns (r: seq<ConfigItem>)
    requires InMode(output, section, mode) && (next == DEFAULT || !IsDefault(next))
    ensures Values(r) == Values(output)
    ensures InMode(r, next, NextMode(Header(next), mode))
  {
    hide Replay, Values, Path, IsDefault, Parents;
    r := EndSection(output, section, mode);
    DefaultIsDefault();
    if next == DEFAULT {
      if mode.Inside? {
        JustClosedReplay(r, mode.path);
        assert |mode.path| == 1 ==> Init(mode.path) == [];
      }
    } else {
      ghost var ok := !mode.Stranded? && !mode.Lost?;
      ghost var closed := if BackCloses(r) then r[|r| - 1].parents else [];
      r := CheckParentSegments(r, next, closed, ok, !mode.Unknown?);
    }
  }

  lemma MergeInputs(front: seq<ConfigItem>, item: ConfigItem, inputs: seq<string>)
    requires item.name != OPEN && item.name != CLOSE
    ensures var merged := item.(inputs := item.inputs + inputs);
            && Replay(front + [merged]) == Replay(front + [item])
            && Values(front + [merged]) == Values(front + [item]) + Tagged(item.parents, item.name, inputs)
  {
    hide Replay, Values;
    var merged := item.(inputs := item.inputs + inputs);
    ReplayPush(front, item);
    ReplayPush(front, merged);
    ValuesPush(front, item);
    ValuesPush(front, merged);
    assert Tagged(item.parents, item.name, item.inputs + inputs) ==
           Tagged(item.parents, item.name, item.inputs) + Tagged(item.parents, item.name, inputs);
  }

  /** A line with an item: joined to the one before it if that has the same name and place. */
  method TakeEntry(output: seq<ConfigItem>, section: string, name: string, inputs: seq<string>, ghost mode: Mode)
    returns (r: seq<ConfigItem>)
    requires InMode(output, section, mode)
    ensures InMode(r, section, NextMode(Entry(name, inputs), mode))
    ensures Names(Parents(section, name).0, Parents(section, name).1, section, name)
    ensures !NextMode(Entry(name, inputs), mode).Unknown? ==>
              Values(r) == Values(output) + Tagged(Parents(section, name).0, Parents(section, name).1, inputs)
  {
    hide Values, Path, IsDefault, Replay;
    NameAlone(section, name);
    ParentsName(section, name);
    hide Names;
    var (parents, own) := Parents(section, name);
    hide Parents;
    if output != [] && own == output[|output| - 1].name && parents == output[|output| - 1].parents {
      var last := output[|output| - 1];
      ghost var front := output[..|output| - 1];
      assert output == front + [last];
      if PlainLine(Entry(name, inputs)) {
        MergeInputs(front, last, inputs);
      }
      r := output[|output| - 1 := last.(inputs := last.inputs + inputs)];
      assert r == front + [last.(inputs := last.inputs + inputs)];
      EntryMode(output, r, section, mode, name, inputs);
    } else {
      var item := ConfigItem(parents, own, inputs);
      ReplayPush(output, item);
      ValuesPush(output, item);
      r := output + [item];
      EntryMode(output, r, section, mode, name, inputs);
    }
  }

  lemma EntryMode(output: seq<ConfigItem>, r: seq<ConfigItem>, section: string, mode: Mode,
                  name: string, inputs: seq<string>)
    requires InMode(output, section, mode)
    requires PlainLine(Entry(name, inputs)) ==> !BackCloses(r) && Replay(r) == Replay(output)
    ensures InMode(r, section, NextMode(Entry(name, inputs), mode))
  {
    if mode.Left? {
      JustClosedReplay(output, mode.path);
    }
    hide Replay, PlainLine, IsDefault, Path;
  }

  /** The closings at the end of the text. */
  method CloseAll(output: seq<ConfigItem>, section: string, ghost mode: Mode) returns (r: seq<ConfigItem>)
    requires InMode(output, section, mode)
    ensures Values(r) == Values(output)
    ensures !mode.Unknown? ==> (Replay(r) == Some([]) <==> mode.Outside? || mode.Inside?)
  {
    hide Values, Path, IsDefault;
    r := EndSection(output, section, mode);
    if section != DEFAULT {
      ghost var ok, left := mode.Inside?, if mode.Inside? then mode.path else [];
      r, left := CloseDown(r, 2, left, ok, !mode.Unknown?);
      ClosedBack(r, left, ok, !mode.Unknown?);
    } else if mode.Left? {
      JustClosedReplay(r, mode.path);
    }
  }

  lemma NextLine(config: Config, lines: seq<string>, i: nat)
    requires i < |lines|
    ensures lines[..i + 1][..|lines[..i + 1]| - 1] == lines[..i] && lines[..i + 1][i] == lines[i]
    ensures ModeAfter(config, lines[..i + 1]) == NextMode(Classify(config, lines[i]), ModeAfter(config, lines[..i]))
    ensures var line := Classify(config, lines[i]);
            SectionAfter(config, lines[..i + 1]) ==
            if line.Header? then line.section else SectionAfter(config, lines[..i])
    ensures Given(config, lines[..i + 1]) ==
            Given(config, lines[..i]) + GivenBy(Classify(config, lines[i]), SectionAfter(config, lines[..i]))
  {
    hide Classify;
    assert lines[..i + 1][..i] == lines[..i];
  }

  function GivenBy(line: Line, section: string): seq<(seq<string>, string, string)> {
    match line
    case Entry(name, inputs) => Tagged(Parents(section, name).0, Parents(section, name).1, inputs)
    case _ => []
  }

  /**
   `from_config`: unless an item is named like an event, it keeps every value under its
   path and name, and its events are well bracketed exactly for balanced texts.
   */
  method FromConfig(config: Config, lines: seq<string>) returns (output: seq<ConfigItem>)
    ensures PlainNames(config, lines) ==> (Replay(output) == Some([]) <==> Balanced(config, lines))
    ensures PlainNames(config, lines) ==> Kept(Values(output), Entries(config, lines))
  {
    hide Replay, Values, Classify, Path, Parents, NextMode;
    DefaultIsDefault();
    output := [];
    var section := DEFAULT;
    NothingYet();
    for i := 0 to |lines|
      invariant section == SectionAfter(config, lines[..i])
      invariant InMode(output, section, ModeAfter(config, lines[..i]))
      invariant !ModeAfter(config, lines[..i]).Unknown? ==> Values(output) == Given(config, lines[..i])
    {
      NextLine(config, lines, i);
      ghost var mode := ModeAfter(config, lines[..i]);
      UnknownStays(Classify(config, lines[i]), mode);
      match Classify(config, lines[i]) {
        case Header(next) =>
          HeaderName(config, lines[i]);
          output := TakeHeader(output, section, next, mode);
          section := next;
        case Entry(name, inputs) =>
          output := TakeEntry(output, section, name, inputs, mode);
        case Ignored =>
          IgnoredKeeps(mode);
      }
    }
    assert lines[..|lines|] == lines;
    if PlainNames(config, lines) {
      PlainKnown(config, lines);
      ModeBalanced(config, lines);
    }
    GivenKept(config, lines);
    hide Balanced, Kept;
    output := CloseAll(output, section, ModeAfter(config, lines));
  }

  lemma NothingYet()
    ensures Replay([]) == Some([]) && Values([]) == []
  {
  }

  lemma UnknownStays(line: Line, mode: Mode)
    ensures mode.Unknown? ==> NextMode(line, mode).Unknown?
  {
  }

  lemma {:induction false} PlainKnown(config: Config, lines: seq<string>)
    requires PlainNames(config, lines)
    ensures !ModeAfter(config, lines).Unknown?
  {
    hide Classify, PlainLine;
    if lines != [] {
      var front := lines[..|lines| - 1];
      assert forall i | 0 <= i < |front| :: front[i] == lines[i];
      PlainKnown(config, front);
    }
  }

  lemma IgnoredKeeps(mode: Mode)
    ensures NextMode(Ignored, mode) == mode
  {
  }

  // ----- which texts are balanced -----

  /** What has become of a return to the default section. */
  datatype Fate = Open | Closed | Broken

  function NextFate(line: Line, fate: Fate): Fate {
    if !fate.Open? then fate
    else if Named(line) then Closed
    else if line.Entry? then Broken
    else Open
  }

  function FateOf(config: Config, lines: seq<string>, i: nat): Fate
    requires i < |lines|
    decreases |lines|
  {
    if i == |lines| - 1 then Open
    else NextFate(Classify(config, lines[|lines| - 1]), FateOf(config, lines[..|lines| - 1], i))
  }

  predicate Quiet(config: Config, lines: seq<string>, i: nat) {
    forall k | i < k < |lines| :: !Classify(config, lines[k]).Entry? && !Named(Classify(config, lines[k]))
  }

  lemma {:induction false} FateExact(config: Config, lines: seq<string>, i: nat)
    requires i < |lines|
    ensures FateOf(config, lines, i).Open? <==> Quiet(config, lines, i)
    ensures FateOf(config, lines, i).Closed? <==> Answered(config, lines, i)
    decreases |lines|
  {
    hide Classify;
    var last := |lines| - 1;
    if i < last {
      var front := lines[..last];
      FateExact(config, front, i);
      QuietStep(config, lines, i);
      AnsweredStep(config, lines, i);
    }
  }

  lemma QuietStep(config: Config, lines: seq<string>, i: nat)
    requires i < |lines| - 1
    ensures var last := |lines| - 1;
            var line := Classify(config, lines[last]);
            Quiet(config, lines, i) <==> Quiet(config, lines[..last], i) && !line.Entry? && !Named(line)
  {
    hide Classify, Named;
    var front := lines[..|lines| - 1];
    assert forall k | 0 <= k < |front| :: front[k] == lines[k];
  }

  lemma AnsweredStep(config: Config, lines: seq<string>, i: nat)
    requires i < |lines| - 1
    ensures var last := |lines| - 1;
            var front := lines[..last];
            Answered(config, lines, i) <==>
              Answered(config, front, i) || (Named(Classify(config, lines[last])) && Quiet(config, front, i))
  {
    hide Classify, Named;
    var last := |lines| - 1;
    var front := lines[..last];
    assert forall k | 0 <= k < last :: front[k] == lines[k];
    if Answered(config, front, i) {
      var j :| i < j < last && Named(Classify(config, front[j])) && NoEntries(config, front, i, j);
      assert Named(Classify(config, lines[j])) && NoEntries(config, lines, i, j);
    }
    if Named(Classify(config, lines[last])) && Quiet(config, front, i) {
      assert NoEntries(config, lines, i, last);
    }
    if Answered(config, lines, i) {
      var j :| i < j < |lines| && Named(Classify(config, lines[j])) && NoEntries(config, lines, i, j);
      if k :| i < k < last && k <= j && Named(Classify(config, front[k])) {
        assert NoEntries(config, front, i, k);
      } else {
        assert j == last;
      }
    }
  }

  /** The mode of a text that has no item named like an event, in terms of its returns. */
  ghost predicate ModeTells(config: Config, lines: seq<string>) {
    match ModeAfter(config, lines)
    case Unknown => true
    case Outside => forall i: nat | Returns(config, lines, i) :: FateOf(config, lines, i).Closed?
    case Inside(_) => forall i: nat | Returns(config, lines, i) :: FateOf(config, lines, i).Closed?
    case Left(_) =>
      && (exists i: nat | Returns(config, lines, i) :: FateOf(config, lines, i).Open?)
      && forall i: nat | Returns(config, lines, i) :: !FateOf(config, lines, i).Broken?
    case Stranded => exists i: nat | Returns(config, lines, i) :: FateOf(config, lines, i).Broken?
    case Lost => exists i: nat | Returns(config, lines, i) :: FateOf(config, lines, i).Broken?
  }

  lemma {:induction false} ModeSection(config: Config, lines: seq<string>)
    ensures var mode, section := ModeAfter(config, lines), SectionAfter(config, lines);
            && (mode.Inside? ==> section != DEFAULT && mode.path == Path(section))
            && (mode.Outside? || mode.Left? || mode.Stranded? ==> section == DEFAULT)
  {
    hide Classify, Path, PlainLine;
    if lines != [] {
      ModeSection(config, lines[..|lines| - 1]);
    }
  }

  lemma ReturnsStep(config: Config, lines: seq<string>, i: nat)
    requires lines != []
    ensures i < |lines| - 1 ==>
              var front := lines[..|lines| - 1];
              && (Returns(config, lines, i) <==> Returns(config, front, i))
              && FateOf(config, lines, i) ==
                 NextFate(Classify(config, lines[|lines| - 1]), FateOf(config, front, i))
  {
    hide Classify, Path;
    if i < |lines| - 1 {
      assert lines[..|lines| - 1][..i] == lines[..i];
    }
  }

  lemma {:induction false} ModeFates(config: Config, lines: seq<string>)
    ensures ModeTells(config, lines)
  {
    hide Classify, Path, PlainLine, FateOf, Returns;
    if lines == [] {
      NoLines(config);
    } else {
      var front := lines[..|lines| - 1];
      ModeFates(config, front);
      ModeSection(config, front);
      LastReturns(config, lines);
      var mode := ModeAfter(config, lines);
      if mode.Outside? || mode.Inside? {
        AllClosed(config, lines);
      } else if mode.Left? {
        SomeOpen(config, lines);
      } else if mode.Stranded? || mode.Lost? {
        SomeBroken(config, lines);
      }
    }
  }

  lemma AllClosed(config: Config, lines: seq<string>)
    requires lines != [] && ModeTells(config, lines[..|lines| - 1])
    requires ModeAfter(config, lines).Outside? || ModeAfter(config, lines).Inside?
    ensures forall i: nat | Returns(config, lines, i) :: FateOf(config, lines, i).Closed?
  {
    hide Classify, Path, PlainLine, FateOf, Returns;
    LastStays(config, lines);
    forall i: nat | Returns(config, lines, i)
      ensures FateOf(config, lines, i).Closed?
    {
      ReturnsStep(config, lines, i);
    }
  }

  /** A text that is outside, or in a section, does not end in a return. */
  lemma LastStays(config: Config, lines: seq<string>)
    requires lines != [] && (ModeAfter(config, lines).Outside? || ModeAfter(config, lines).Inside?)
    ensures !Returns(config, lines, |lines| - 1)
  {
    hide Classify, Path, PlainLine, FateOf, Returns;
    ModeSection(config, lines[..|lines| - 1]);
    LastReturns(config, lines);
  }

  lemma SomeOpen(config: Config, lines: seq<string>)
    requires lines != [] && ModeTells(config, lines[..|lines| - 1]) && ModeAfter(config, lines).Left?
    ensures ModeTells(config, lines)
  {
    hide Classify, Path, PlainLine, FateOf, Returns;
    var last := |lines| - 1;
    var front := lines[..last];
    ModeSection(config, front);
    LastReturns(config, lines);
    forall i: nat | Returns(config, lines, i)
      ensures !FateOf(config, lines, i).Broken?
    {
      ReturnsStep(config, lines, i);
    }
    if ModeAfter(config, front).Left? {
      var i: nat :| Returns(config, front, i) && FateOf(config, front, i).Open?;
      ReturnsStep(config, lines, i);
      assert Returns(config, lines, i);
    } else {
      assert Returns(config, lines, last);
    }
  }

  lemma SomeBroken(config: Config, lines: seq<string>)
    requires lines != [] && ModeTells(config, lines[..|lines| - 1])
    requires ModeAfter(config, lines).Stranded? || ModeAfter(config, lines).Lost?
    ensures exists i: nat | Returns(config, lines, i) :: FateOf(config, lines, i).Broken?
  {
    hide Classify, Path, PlainLine, FateOf, Returns;
    var front := lines[..|lines| - 1];
    var i: nat :| Returns(config, front, i) &&
                  (if ModeAfter(config, front).Left? then FateOf(config, front, i).Open?
                   else FateOf(config, front, i).Broken?);
    ReturnsStep(config, lines, i);
    assert Returns(config, lines, i);
  }

  /** Unless an item is named like an event, the mode tells whether the text is balanced. */
  lemma ModeBalanced(config: Config, lines: seq<string>)
    requires !ModeAfter(config, lines).Unknown?
    ensures Balanced(config, lines) <==> ModeAfter(config, lines).Outside? || ModeAfter(config, lines).Inside?
  {
    hide Classify, FateOf, Returns, Answered, ModeAfter;
    ModeFates(config, lines);
    forall i: nat | Returns(config, lines, i)
      ensures FateOf(config, lines, i).Closed? <==> Answered(config, lines, i)
    {
      FateExact(config, lines, i);
    }
  }

  lemma NoLines(config: Config)
    ensures ModeTells(config, [])
  {
  }

  lemma LastReturns(config: Config, lines: seq<string>)
    requires lines != []
    ensures var last := |lines| - 1;
            var section := SectionAfter(config, lines[..last]);
            && FateOf(config, lines, last).Open?
            && (Returns(config, lines, last) <==>
                Classify(config, lines[last]) == Header(DEFAULT) && section != DEFAULT && |Path(section)| > 1)
  {
  }

  /** A section that is not the default one was named by a header. */
  lemma {:induction false} SectionNamed(config: Config, lines: seq<string>)
    requires SectionAfter(config, lines) != DEFAULT
    ensures exists i | 0 <= i < |lines| :: Classify(config, lines[i]) == Header(SectionAfter(config, lines))
  {
    hide Classify;
    if lines != [] {
      var last := |lines| - 1;
      var front := lines[..last];
      if Classify(config, lines[last]).Header? {
        assert Classify(config, lines[last]) == Header(SectionAfter(config, lines));
      } else {
        SectionNamed(config, front);
        var i :| 0 <= i < |front| && Classify(config, front[i]) == Header(SectionAfter(config, front));
        assert Classify(config, lines[i]) == Header(SectionAfter(config, lines));
      }
    }
  }

  /** The text does not return to the default section after a named one. */
  predicate NoReturn(config: Config, lines: seq<string>) {
    forall i, j | 0 <= i < j < |lines| ::
      Named(Classify(config, lines[i])) ==> Classify(config, lines[j]) != Header(DEFAULT)
  }

  /** What a return returns from. */
  lemma ReturnFrom(config: Config, lines: seq<string>, j: nat) returns (i: nat)
    requires Returns(config, lines, j)
    ensures i < j && Named(Classify(config, lines[i])) && |Path(Classify(config, lines[i]).section)| > 1
    ensures Classify(config, lines[j]) == Header(DEFAULT)
  {
    hide Classify, Path;
    SectionNamed(config, lines[..j]);
    i :| i < j && Classify(config, lines[..j][i]) == Header(SectionAfter(config, lines[..j]));
    assert lines[..j][i] == lines[i];
  }

  lemma NoReturnBalanced(config: Config, lines: seq<string>)
    requires NoReturn(config, lines)
    ensures Balanced(config, lines)
  {
    hide Classify, Path, Answered, Returns;
    if j: nat :| Returns(config, lines, j) {
      var i := ReturnFrom(config, lines, j);
      assert false;
    }
  }

  /** Sections of one part are always closed. */
  lemma ShallowBalanced(config: Config, lines: seq<string>)
    requires forall i | 0 <= i < |lines| ::
               Named(Classify(config, lines[i])) ==> |Path(Classify(config, lines[i]).section)| == 1
    ensures Balanced(config, lines)
  {
    hide Classify, Path, Answered, Returns;
    if j: nat :| Returns(config, lines, j) {
      var i := ReturnFrom(config, lines, j);
      assert false;
    }
  }

  lemma UnbalancedExample(config: Config)
    ensures !Balanced(config, ["[a.b]", "[default]"])
  {
    TwoParts();
    ExampleLines(config);
    hide Classify, Path;
    var lines := ["[a.b]", "[default]"];
    assert lines[..1] == [lines[0]];
    assert SectionAfter(config, lines[..1]) == "a.b";
    assert Returns(config, lines, 1);
    assert !Answered(config, lines, 1);
  }

  lemma ExampleLines(config: Config)
    ensures Classify(config, "[a.b]") == Header("a.b") && Classify(config, "[default]") == Header(DEFAULT)
  {
    DefaultIsDefault();
    NotDefault();
    hide Classify, IsDefault;
    BareHeader(config, "[a.b]", "a.b");
    BareHeader(config, "[default]", DEFAULT);
  }

  lemma NotDefault()
    ensures !IsDefault("a.b")
  {
    assert ToLower("a.b")[1] == '.';
  }

  lemma BareHeader(config: Config, line: string, name: string)
    requires |line| > 1 && line[0] == '[' && line[|line| - 1] == ']'
    requires name == line[1..|line| - 1] && !Bracketed(name)
    ensures Classify(config, line) == Header(if IsDefault(name) then DEFAULT else name)
  {
    hide Classify, IsDefault;
    HeaderLine(config, [], name, []);
    var whole := ['['] + name + [']'];
    assert |whole| == |line| && forall i | 0 <= i < |line| :: whole[i] == line[i];
    assert [] + whole + [] == line;
  }

  lemma TwoParts()
    ensures |Path("a.b")| == 2 && "a.b" != DEFAULT
  {
    var s := "a.b";
    assert Find(s, '.') == 1;
    assert s[2..] == "b" && s[..1] == "a" && "b"[..1] == "b";
    assert Find("b", '.') == 1;
    assert Pieces("b", '.') == ["b"];
    assert Pieces(s, '.') == ["a", "b"];
  }
}
