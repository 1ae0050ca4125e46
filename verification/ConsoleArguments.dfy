/**
 The command line of the console host. The tokens are read as a list of options and an
 ending; what the options mean is defined on that reading, and the parser, which erases
 tokens from the front of its vector while it sets fields, is shown to do just that.
 */
module ConsoleArguments {
  import opened Bytes
  import opened Escape
  import opened Short

  /** Number parsing of the C and C++ libraries: `stoi` gives a value and how far it read. */
  datatype Library = Library(stoi: string -> Option<(int, nat)>, wcstoul: string -> bv32)

  const SERVER := "--server"
  const SIGNAL := "--signal"
  const VT_MODE := "--vtmode"
  const WIDTH := "--width"
  const HEIGHT := "--height"
  const FEATURE := "--feature"
  const PTY := "pty"
  const CLIENT := "--"
  const HANDLE_PREFIX := "0x"
  const PATH_PREFIX := "\\??\\"

  datatype Flag =
    | ForceV1 | ForceNoHandoff | ComServer | Passthrough
    | Headless | InheritCursor | ResizeQuirk | Win32Input

  function FlagText(f: Flag): string {
    match f
    case ForceV1 => "-ForceV1"
    case ForceNoHandoff => "-ForceNoHandoff"
    case ComServer => "-Embedding"
    case Passthrough => "--passthrough"
    case Headless => "--headless"
    case InheritCursor => "--inheritcursor"
    case ResizeQuirk => "--resizeQuirk"
    case Win32Input => "--win32input"
  }

  predicate HasPrefix(s: string, p: string) {
    |p| <= |s| && s[..|p|] == p
  }

  // ----- reading -----

  datatype Item =
    | LegacyServer(text: string)
    | Server(text: string)
    | Signal(text: string)
    | Switch(flag: Flag)
    | Path(text: string)
    | VtMode(text: string)
    | Width(text: string)
    | Height(text: string)
    | Feature(text: string)

  datatype Ending =
    | Complete
    | Explicit(tokens: seq<string>)
    | Implicit(tokens: seq<string>)
    | NoValue(option: string)

  datatype Step = Take(item: Item) | Stop(ending: Ending)

  function FlagOf(arg: string): Option<Flag> {
    if arg == FlagText(ForceV1) then Some(ForceV1)
    else if arg == FlagText(ForceNoHandoff) then Some(ForceNoHandoff)
    else if arg == FlagText(ComServer) then Some(ComServer)
    else if arg == FlagText(Passthrough) then Some(Passthrough)
    else if arg == FlagText(Headless) then Some(Headless)
    else if arg == FlagText(InheritCursor) then Some(InheritCursor)
    else if arg == FlagText(ResizeQuirk) then Some(ResizeQuirk)
    else if arg == FlagText(Win32Input) then Some(Win32Input)
    else None
  }

  predicate TakesValue(arg: string) {
    arg in {SERVER, SIGNAL, VT_MODE, WIDTH, HEIGHT, FEATURE}
  }

  function WithValue(option: string, value: string): Item
    requires TakesValue(option)
  {
    if option == SERVER then Server(value)
    else if option == SIGNAL then Signal(value)
    else if option == VT_MODE then VtMode(value)
    else if option == WIDTH then Width(value)
    else if option == HEIGHT then Height(value)
    else Feature(value)
  }

  /** The first option of `args`, or the reason why there is none. */
  function Next(args: seq<string>): Step {
    if args == [] then Stop(Complete)
    else
      var arg := args[0];
      if HasPrefix(arg, HANDLE_PREFIX) then Take(LegacyServer(arg))
      else if TakesValue(arg) then
        if |args| > 1 then Take(WithValue(arg, args[1])) else Stop(NoValue(arg))
      else if FlagOf(arg).Some? then Take(Switch(FlagOf(arg).value))
      else if HasPrefix(arg, PATH_PREFIX) then Take(Path(arg))
      else if arg == CLIENT then Stop(Explicit(args[1..]))
      else Stop(Implicit(args))
  }

  /** The tokens an option is written with. */
  function Spelling(item: Item): (s: seq<string>)
    ensures 1 <= |s| <= 2
  {
    match item
    case LegacyServer(text) => [text]
    case Server(text) => [SERVER, text]
    case Signal(text) => [SIGNAL, text]
    case Switch(flag) => [FlagText(flag)]
    case Path(text) => [text]
    case VtMode(text) => [VT_MODE, text]
    case Width(text) => [WIDTH, text]
    case Height(text) => [HEIGHT, text]
    case Feature(text) => [FEATURE, text]
  }

  function EndingSpelling(ending: Ending): seq<string> {
    match ending
    case Complete => []
    case Explicit(tokens) => [CLIENT] + tokens
    case Implicit(tokens) => tokens
    case NoValue(option) => [option]
  }

  function Spelled(items: seq<Item>): seq<string> {
    if items == [] then [] else Spelling(items[0]) + Spelled(items[1..])
  }

  lemma NextSpells(args: seq<string>)
    ensures Next(args).Take? ==> Spelling(Next(args).item) <= args
    ensures Next(args).Stop? ==> EndingSpelling(Next(args).ending) == args
  {
    if args != [] {
      var arg := args[0];
      if FlagOf(arg).Some? {
        assert FlagText(FlagOf(arg).value) == arg;
      }
      assert args == [arg] + args[1..];
    }
  }

  function Items(args: seq<string>): (seq<Item>, Ending)
    decreases |args|
  {
    NextSpells(args);
    match Next(args)
    case Stop(ending) => ([], ending)
    case Take(item) =>
      var (items, ending) := Items(args[|Spelling(item)|..]);
      ([item] + items, ending)
  }

  lemma ItemsStep(args: seq<string>)
    ensures Next(args).Stop? ==> Items(args) == ([], Next(args).ending)
    ensures Next(args).Take? ==>
              var n := |Spelling(Next(args).item)|;
              && n <= |args|
              && args[..n] == Spelling(Next(args).item)
              && Items(args) == ([Next(args).item] + Items(args[n..]).0, Items(args[n..]).1)
    ensures Next(args).Stop? ==> EndingSpelling(Next(args).ending) == args
  {
    NextSpells(args);
    hide Next, Spelling, EndingSpelling;
  }

  lemma SpelledStep(item: Item, items: seq<Item>)
    ensures Spelled([item] + items) == Spelling(item) + Spelled(items)
  {
    hide Spelling;
    assert ([item] + items)[1..] == items;
  }

  /** No token is lost: the reading, spelled out, is the command line. */
  lemma {:induction false} ReadingSpells(args: seq<string>)
    ensures Spelled(Items(args).0) + EndingSpelling(Items(args).1) == args
    decreases |args|
  {
    hide *;
    ItemsStep(args);
    if Next(args).Take? {
      var item := Next(args).item;
      var rest := args[|Spelling(item)|..];
      ReadingSpells(rest);
      SpelledStep(item, Items(rest).0);
      assert args == Spelling(item) + rest;
    } else {
      NothingSpelled();
      assert [] + args == args;
    }
  }

  lemma NothingSpelled()
    ensures Spelled([]) == []
  {
  }

  predicate Unrecognised(arg: string) {
    && !HasPrefix(arg, HANDLE_PREFIX) && !TakesValue(arg) && FlagOf(arg).None?
    && !HasPrefix(arg, PATH_PREFIX) && arg != CLIENT
  }

  /** Items and endings that a command line can have. */
  predicate WellFormed(item: Item) {
    && (item.LegacyServer? ==> HasPrefix(item.text, HANDLE_PREFIX))
    && (item.Path? ==> HasPrefix(item.text, PATH_PREFIX))
  }

  predicate WellEnded(ending: Ending) {
    && (ending.Implicit? ==> ending.tokens != [] && Unrecognised(ending.tokens[0]))
    && (ending.NoValue? ==> TakesValue(ending.option))
  }

  lemma FlagTexts(f: Flag)
    ensures FlagOf(FlagText(f)) == Some(f) && FlagText(f)[0] == '-' && !TakesValue(FlagText(f))
  {
    var t := FlagText(f);
    match f {
      case ForceV1 => assert |t| == 8;
      case ForceNoHandoff => assert |t| == 15;
      case ComServer => assert t[1] == 'E';
      case Passthrough => assert |t| == 13;
      case Headless => assert |t| == 10 && t[2] == 'h';
      case InheritCursor => assert |t| == 15 && t[2] == 'i';
      case ResizeQuirk => assert t[2] == 'r';
      case Win32Input => assert t[2] == 'w' && t[3] == 'i' && t[4] == 'n';
    }
  }

  lemma NextOfItem(item: Item, rest: seq<string>)
    requires WellFormed(item)
    ensures Next(Spelling(item) + rest) == Take(item)
  {
    var args := Spelling(item) + rest;
    if item.Switch? {
      FlagTexts(item.flag);
      assert !HasPrefix(args[0], HANDLE_PREFIX) by {
        assert HANDLE_PREFIX[0] == '0';
      }
    } else if item.Path? {
      PathText(item.text);
    } else if !item.LegacyServer? {
      assert args[0][0] == '-';
      assert !HasPrefix(args[0], HANDLE_PREFIX) by {
        assert HANDLE_PREFIX[0] == '0';
      }
      assert TakesValue(args[0]) && args[1] == item.text;
      OptionTexts();
    }
  }

  lemma PathText(t: string)
    requires HasPrefix(t, PATH_PREFIX)
    ensures !HasPrefix(t, HANDLE_PREFIX) && !TakesValue(t) && FlagOf(t).None?
  {
    assert t[0] == t[..|PATH_PREFIX|][0] == '\\';
    assert HANDLE_PREFIX[0] == '0';
    if FlagOf(t).Some? {
      FlagTexts(FlagOf(t).value);
    }
  }

  lemma OptionTexts()
    ensures |SERVER| == 8 && |SIGNAL| == 8 && SERVER[3] != SIGNAL[3]
    ensures |VT_MODE| == 8 && VT_MODE[2] == 'v' && |WIDTH| == 7 && |HEIGHT| == 8 && HEIGHT[2] == 'h'
    ensures |FEATURE| == 9 && SERVER[2] == 's' && SIGNAL[2] == 's'
  {
  }

  lemma NextOfEnding(ending: Ending)
    requires WellEnded(ending)
    ensures Next(EndingSpelling(ending)) == Stop(ending)
  {
    if ending.Explicit? {
      var args := [CLIENT] + ending.tokens;
      assert args[1..] == ending.tokens;
      assert CLIENT[0] == '-' && HANDLE_PREFIX[0] == '0' && PATH_PREFIX[0] == '\\' && |CLIENT| == 2;
      OptionTexts();
      assert FlagOf(CLIENT).None?;
    } else if ending.NoValue? {
      assert ending.option[0] == '-' && HANDLE_PREFIX[0] == '0';
    }
  }

  /** A reading that can be had is had from its spelling: options are never confused. */
  lemma {:induction false} ReadSpelled(items: seq<Item>, ending: Ending)
    requires (forall i | 0 <= i < |items| :: WellFormed(items[i])) && WellEnded(ending)
    ensures Items(Spelled(items) + EndingSpelling(ending)) == (items, ending)
  {
    hide *;
    if items == [] {
      NothingSpelled();
      assert [] + EndingSpelling(ending) == EndingSpelling(ending);
      NextOfEnding(ending);
      ItemsStep(EndingSpelling(ending));
    } else {
      var item, more := items[0], items[1..];
      var rest := Spelled(more) + EndingSpelling(ending);
      assert items == [item] + more;
      SpelledStep(item, more);
      var args := Spelling(item) + rest;
      assert Spelled(items) + EndingSpelling(ending) == args;
      NextOfItem(item, rest);
      ItemsStep(args);
      assert args[|Spelling(item)|..] == rest;
      ReadSpelled(more, ending);
    }
  }

  // ----- meaning -----

  datatype Settings = Settings(
    flags: set<Flag>,
    vtMode: string,
    width: int,
    height: int,
    serverHandle: bv32,
    signalHandle: bv32,
    createServerHandle: bool,
    clientCommandline: string)

  const INITIAL := Settings({}, "", 0, 0, 0, 0, true, "")

  function ShortValue(lib: Library, text: string): Option<int> {
    match lib.stoi(text)
    case None => None
    case Some((value, pos)) => if value > SHORT_MAX || pos != |text| then None else Some(ToShort(value))
  }

  function HandleValue(lib: Library, text: string): Option<bv32> {
    if !HasPrefix(text, HANDLE_PREFIX) || lib.wcstoul(text) == 0 then None else Some(lib.wcstoul(text))
  }

  predicate IsServer(item: Item) {
    item.LegacyServer? || item.Server?
  }

  /** Whether an option has a usable value, whatever came before it. */
  predicate Usable(lib: Library, item: Item) {
    match item
    case LegacyServer(text) => HandleValue(lib, text).Some?
    case Server(text) => HandleValue(lib, text).Some?
    case Signal(text) => HandleValue(lib, text).Some?
    case Width(text) => ShortValue(lib, text).Some?
    case Height(text) => ShortValue(lib, text).Some?
    case Feature(text) => text == PTY
    case _ => true
  }

  /** Whether an option may be given: a handle may be set only once. */
  predicate Allowed(lib: Library, item: Item, st: Settings) {
    && Usable(lib, item)
    && (IsServer(item) ==> st.serverHandle == 0)
    && (item.Signal? ==> st.signalHandle == 0)
  }

  function Effect(lib: Library, item: Item, st: Settings): Settings
    requires Usable(lib, item)
  {
    match item
    case LegacyServer(text) => st.(serverHandle := HandleValue(lib, text).value, createServerHandle := false)
    case Server(text) => st.(serverHandle := HandleValue(lib, text).value, createServerHandle := false)
    case Signal(text) => st.(signalHandle := HandleValue(lib, text).value)
    case Switch(flag) => st.(flags := st.flags + {flag})
    case Path(_) => st
    case VtMode(text) => st.(vtMode := text)
    case Width(text) => st.(width := ShortValue(lib, text).value)
    case Height(text) => st.(height := ShortValue(lib, text).value)
    case Feature(_) => st
  }

  /** Options taken one after another, up to the first that is not allowed. */
  function Run(lib: Library, items: seq<Item>, st: Settings): (bool, Settings) {
    if items == [] then (true, st)
    else if !Allowed(lib, items[0], st) then (false, st)
    else Run(lib, items[1..], Effect(lib, items[0], st))
  }

  function Finish(ending: Ending, st: Settings): Settings {
    match ending
    case Explicit(tokens) => st.(clientCommandline := Joined(tokens))
    case Implicit(tokens) => st.(clientCommandline := Joined(tokens))
    case _ => st
  }

  function Parsed(lib: Library, args: seq<string>, st: Settings): (bool, Settings) {
    var (items, ending) := Items(args);
    var (ok, after) := Run(lib, items, st);
    if !ok || ending.NoValue? then (false, after) else (true, Finish(ending, after))
  }

  // ----- what runs of options do -----

  function Servers(items: seq<Item>): nat {
    if items == [] then 0 else (if IsServer(items[0]) then 1 else 0) + Servers(items[1..])
  }

  function Signals(items: seq<Item>): nat {
    if items == [] then 0 else (if items[0].Signal? then 1 else 0) + Signals(items[1..])
  }

  function Given(handle: bv32): nat {
    if handle == 0 then 0 else 1
  }

  lemma EffectOnHandles(lib: Library, item: Item, st: Settings)
    requires Allowed(lib, item, st)
    ensures var after := Effect(lib, item, st);
            && Given(after.serverHandle) == Given(st.serverHandle) + (if IsServer(item) then 1 else 0)
            && Given(after.signalHandle) == Given(st.signalHandle) + (if item.Signal? then 1 else 0)
  {
  }

  /** All options are taken exactly when each is usable and no handle is given twice. */
  lemma {:induction false} TakenExact(lib: Library, items: seq<Item>, st: Settings)
    ensures Run(lib, items, st).0 <==>
            && (forall i | 0 <= i < |items| :: Usable(lib, items[i]))
            && Servers(items) + Given(st.serverHandle) <= 1
            && Signals(items) + Given(st.signalHandle) <= 1
  {
    hide Usable, Effect;
    if items != [] {
      var item := items[0];
      assert forall i | 0 < i < |items| :: items[i] == items[1..][i - 1];
      if Allowed(lib, item, st) {
        EffectOnHandles(lib, item, st);
        TakenExact(lib, items[1..], Effect(lib, item, st));
      }
    }
  }

  /** A server handle has been set exactly when none has to be created. */
  predicate HandlesAgree(st: Settings) {
    st.createServerHandle <==> st.serverHandle == 0
  }

  lemma {:induction false} RunKeeps(lib: Library, items: seq<Item>, st: Settings)
    requires HandlesAgree(st)
    ensures HandlesAgree(Run(lib, items, st).1)
    ensures Run(lib, items, st).1.clientCommandline == st.clientCommandline
  {
    if items != [] && Allowed(lib, items[0], st) {
      EffectKeeps(lib, items[0], st);
      hide Allowed, Effect, HandlesAgree;
      RunKeeps(lib, items[1..], Effect(lib, items[0], st));
    }
  }

  lemma EffectKeeps(lib: Library, item: Item, st: Settings)
    requires HandlesAgree(st) && Allowed(lib, item, st)
    ensures HandlesAgree(Effect(lib, item, st)) && Effect(lib, item, st).clientCommandline == st.clientCommandline
  {
  }

  lemma {:induction false} RunAppend(lib: Library, a: seq<Item>, b: seq<Item>, st: Settings)
    requires Run(lib, a, st).0
    ensures Run(lib, a + b, st) == Run(lib, b, Run(lib, a, st).1)
  {
    if a == [] {
      assert a + b == b;
    } else {
      assert (a + b)[1..] == a[1..] + b;
      hide Allowed, Effect;
      RunAppend(lib, a[1..], b, Effect(lib, a[0], st));
    }
  }

  /** Options of one kind, of which the last one counts. */
  datatype Kind = VtKind | WidthKind | HeightKind | ServerKind | SignalKind

  predicate IsKind(kind: Kind, item: Item) {
    match kind
    case VtKind => item.VtMode?
    case WidthKind => item.Width?
    case HeightKind => item.Height?
    case ServerKind => item.LegacyServer? || item.Server?
    case SignalKind => item.Signal?
  }

  predicate SameSetting(kind: Kind, a: Settings, b: Settings) {
    match kind
    case VtKind => a.vtMode == b.vtMode
    case WidthKind => a.width == b.width
    case HeightKind => a.height == b.height
    case ServerKind => a.serverHandle == b.serverHandle && a.createServerHandle == b.createServerHandle
    case SignalKind => a.signalHandle == b.signalHandle
  }

  /** The setting has the value of the text, as the library reads it. */
  predicate HasValue(lib: Library, kind: Kind, st: Settings, text: string) {
    match kind
    case VtKind => st.vtMode == text
    case WidthKind => lib.stoi(text).Some? && st.width == ToShort(lib.stoi(text).value.0)
    case HeightKind => lib.stoi(text).Some? && st.height == ToShort(lib.stoi(text).value.0)
    case ServerKind => st.serverHandle == lib.wcstoul(text) && !st.createServerHandle
    case SignalKind => st.signalHandle == lib.wcstoul(text)
  }

  /** Options of other kinds leave a setting alone. */
  lemma {:induction false} OthersKeep(lib: Library, kind: Kind, items: seq<Item>, st: Settings)
    requires forall i | 0 <= i < |items| :: !IsKind(kind, items[i])
    ensures SameSetting(kind, Run(lib, items, st).1, st)
  {
    if items != [] && Allowed(lib, items[0], st) {
      OtherKeeps(lib, kind, items[0], st);
      hide Allowed, Effect, IsKind;
      OthersKeep(lib, kind, items[1..], Effect(lib, items[0], st));
    }
  }

  lemma OtherKeeps(lib: Library, kind: Kind, item: Item, st: Settings)
    requires !IsKind(kind, item) && Allowed(lib, item, st)
    ensures SameSetting(kind, Effect(lib, item, st), st)
  {
  }

  lemma KindTakes(lib: Library, kind: Kind, item: Item, st: Settings)
    requires IsKind(kind, item) && Allowed(lib, item, st)
    ensures HasValue(lib, kind, Effect(lib, item, st), item.text)
  {
  }

  lemma SameValue(lib: Library, kind: Kind, a: Settings, b: Settings, text: string)
    requires SameSetting(kind, a, b) && HasValue(lib, kind, a, text)
    ensures HasValue(lib, kind, b, text)
  {
  }

  /** Of several options of a kind the last one decides; a handle is given by one option only. */
  lemma LastCounts(lib: Library, kind: Kind, items: seq<Item>, k: nat, st: Settings)
    requires Run(lib, items, st).0 && k < |items| && IsKind(kind, items[k])
    requires forall i | k < i < |items| :: !IsKind(kind, items[i])
    ensures HasValue(lib, kind, Run(lib, items, st).1, items[k].text)
  {
    var text := items[k].text;
    hide Effect, Usable, IsKind, HasValue, SameSetting;
    var a, b := items[..k], items[k..];
    assert items == a + b;
    RunPrefix(lib, a, b, st);
    RunAppend(lib, a, b, st);
    var mid := Run(lib, a, st).1;
    assert b[0] == items[k];
    KindTakes(lib, kind, items[k], mid);
    var after := Effect(lib, items[k], mid);
    assert forall i | 0 <= i < |b[1..]| :: b[1..][i] == items[k + 1 + i];
    OthersKeep(lib, kind, b[1..], after);
    SameFlipped(kind, Run(lib, b[1..], after).1, after);
    SameValue(lib, kind, after, Run(lib, b[1..], after).1, text);
  }

  lemma SameFlipped(kind: Kind, a: Settings, b: Settings)
    requires SameSetting(kind, a, b)
    ensures SameSetting(kind, b, a)
  {
  }

  lemma {:induction false} RunPrefix(lib: Library, a: seq<Item>, b: seq<Item>, st: Settings)
    requires Run(lib, a + b, st).0
    ensures Run(lib, a, st).0
  {
    if a != [] {
      assert (a + b)[1..] == a[1..] + b;
      hide Allowed, Effect;
      RunPrefix(lib, a[1..], b, Effect(lib, a[0], st));
    }
  }

  /** The switches that are on are those given. */
  lemma {:induction false} FlagsExact(lib: Library, items: seq<Item>, st: Settings, f: Flag)
    requires Run(lib, items, st).0
    ensures f in Run(lib, items, st).1.flags <==> f in st.flags || Switch(f) in items
  {
    if items != [] {
      var after := Effect(lib, items[0], st);
      assert f in after.flags <==> f in st.flags || Switch(f) == items[0];
      hide Allowed, Effect;
      FlagsExact(lib, items[1..], after, f);
      assert items == [items[0]] + items[1..];
    }
  }

  // ----- whole command lines -----

  /** A handle: a prefixed text that the library reads as a number other than zero. */
  predicate IsHandle(lib: Library, text: string) {
    |text| >= 2 && text[0] == '0' && text[1] == 'x' && lib.wcstoul(text) != 0
  }

  /** A number that the library reads to its end and that is not above the largest short. */
  predicate IsNumber(lib: Library, text: string) {
    && lib.stoi(text).Some?
    && lib.stoi(text).value.0 <= 32767 && lib.stoi(text).value.1 == |text|
  }

  /**
   A command line is accepted exactly when every option has its value, handles and sizes are
   handles and numbers, the feature asked for is `pty`, and no handle is given twice.
   */
  lemma AcceptedExact(lib: Library, args: seq<string>)
    ensures Parsed(lib, args, INITIAL).0 <==>
            var (items, ending) := Items(args);
            && !ending.NoValue?
            && (forall i | 0 <= i < |items| ::
                  && (items[i].LegacyServer? || items[i].Server? || items[i].Signal? ==> IsHandle(lib, items[i].text))
                  && (items[i].Width? || items[i].Height? ==> IsNumber(lib, items[i].text))
                  && (items[i].Feature? ==> items[i].text == "pty"))
            && Servers(items) <= 1 && Signals(items) <= 1
  {
    hide Items, Run, Usable;
    var items := Items(args).0;
    TakenExact(lib, items, INITIAL);
    forall i | 0 <= i < |items|
      ensures Usable(lib, items[i]) <==>
              && (items[i].LegacyServer? || items[i].Server? || items[i].Signal? ==> IsHandle(lib, items[i].text))
              && (items[i].Width? || items[i].Height? ==> IsNumber(lib, items[i].text))
              && (items[i].Feature? ==> items[i].text == "pty")
    {
      UsableExact(lib, items[i]);
    }
  }

  lemma UsableExact(lib: Library, item: Item)
    ensures Usable(lib, item) <==>
            && (item.LegacyServer? || item.Server? || item.Signal? ==> IsHandle(lib, item.text))
            && (item.Width? || item.Height? ==> IsNumber(lib, item.text))
            && (item.Feature? ==> item.text == "pty")
  {
    if item.LegacyServer? || item.Server? || item.Signal? {
      PrefixExact(item.text);
    }
  }

  lemma PrefixExact(text: string)
    ensures HasPrefix(text, HANDLE_PREFIX) <==> |text| >= 2 && text[0] == '0' && text[1] == 'x'
  {
    if |text| >= 2 {
      assert text[..2] == [text[0], text[1]];
    }
  }

  /** Where in the command line the tokens of option `k` begin. */
  function PlaceOf(items: seq<Item>, k: nat): nat
    requires k <= |items|
  {
    |Spelled(items[..k])|
  }

  lemma {:induction false} SpelledAppend(a: seq<Item>, b: seq<Item>)
    ensures Spelled(a + b) == Spelled(a) + Spelled(b)
  {
    hide Spelling;
    if a == [] {
      assert a + b == b;
    } else {
      assert (a + b)[1..] == a[1..] + b;
      SpelledAppend(a[1..], b);
    }
  }

  /** The tokens of option `k` are those at its place. */
  lemma TokensAt(args: seq<string>, k: nat)
    requires k < |Items(args).0|
    ensures var items := Items(args).0;
            && PlaceOf(items, k) + |Spelling(items[k])| <= |args|
            && args[PlaceOf(items, k)..][..|Spelling(items[k])|] == Spelling(items[k])
  {
    hide Items, Spelling;
    ReadingSpells(args);
    var items := Items(args).0;
    assert items == items[..k] + ([items[k]] + items[k + 1..]);
    SpelledAppend(items[..k], [items[k]] + items[k + 1..]);
    SpelledStep(items[k], items[k + 1..]);
  }

  /** The value token of the option at `i`: the one behind it, or the token itself for a bare handle. */
  function ValueAt(args: seq<string>, i: nat): string
    requires i < |args|
  {
    if args[i] in {"--server", "--signal", "--vtmode", "--width", "--height"} && i + 1 < |args| then args[i + 1]
    else args[i]
  }

  lemma OptionAt(args: seq<string>, k: nat, kind: Kind)
    requires k < |Items(args).0| && IsKind(kind, Items(args).0[k])
    ensures var i := PlaceOf(Items(args).0, k);
            && i < |args| && ValueAt(args, i) == Items(args).0[k].text
            && match kind {
              case VtKind => args[i] == "--vtmode"
              case WidthKind => args[i] == "--width"
              case HeightKind => args[i] == "--height"
              case ServerKind => args[i] == "--server" || args[i] == Items(args).0[k].text
              case SignalKind => args[i] == "--signal"
            }
  {
    TokensAt(args, k);
    ItemsWellFormed(args, k);
    hide Items, Spelled, PlaceOf;
    var items := Items(args).0;
    var i, s := PlaceOf(items, k), Spelling(items[k]);
    assert args[i] == args[i..][..|s|][0] == s[0];
    if |s| == 2 {
      assert args[i + 1] == args[i..][..|s|][1] == s[1];
    }
  }

  /** A bare handle is not an option that takes a value. */
  lemma {:induction false} ItemsWellFormed(args: seq<string>, k: nat)
    requires k < |Items(args).0|
    ensures Items(args).0[k].LegacyServer? ==> !TakesValue(Items(args).0[k].text)
    decreases |args|
  {
    ItemsStep(args);
    var item := Next(args).item;
    if k > 0 {
      ItemsWellFormed(args[|Spelling(item)|..], k - 1);
    } else if item.LegacyServer? {
      PrefixExact(item.text);
      OptionTexts();
    }
  }

  /**
   What an accepted command line makes of each setting: the value token of the last option
   of its kind, or what it was without one.
   */
  lemma ParsedSetting(lib: Library, args: seq<string>, st: Settings, kind: Kind)
    requires Parsed(lib, args, st).0
    ensures SettingGiven(lib, args, st, Parsed(lib, args, st).1, kind)
  {
    hide Items, Run, HasValue, SameSetting, IsKind, ValueAt, PlaceOf;
    var items := Items(args).0;
    var end := Run(lib, items, st).1;
    FinishKeeps(lib, kind, Items(args).1, end);
    if forall i | 0 <= i < |items| :: !IsKind(kind, items[i]) {
      OthersKeep(lib, kind, items, st);
      SameFinished(kind, Items(args).1, end, st);
    } else {
      forall k: nat | k < |items| && IsKind(kind, items[k]) && LastOfKind(items, k, kind)
        ensures PlaceOf(items, k) < |args|
        ensures HasValue(lib, kind, Finish(Items(args).1, end), ValueAt(args, PlaceOf(items, k)))
      {
        OptionAt(args, k, kind);
        LastCounts(lib, kind, items, k, st);
      }
    }
  }

  predicate LastOfKind(items: seq<Item>, k: nat, kind: Kind) {
    forall i | k < i < |items| :: !IsKind(kind, items[i])
  }

  ghost predicate SettingGiven(lib: Library, args: seq<string>, before: Settings, after: Settings, kind: Kind) {
    var items := Items(args).0;
    && ((forall i | 0 <= i < |items| :: !IsKind(kind, items[i])) ==> SameSetting(kind, after, before))
    && (forall k: nat | k < |items| && IsKind(kind, items[k]) && LastOfKind(items, k, kind) ::
          PlaceOf(items, k) < |args| && HasValue(lib, kind, after, ValueAt(args, PlaceOf(items, k))))
  }

  /** The switches that are on after an accepted command line are those given and those on before. */
  lemma ParsedFlags(lib: Library, args: seq<string>, st: Settings, f: Flag)
    requires Parsed(lib, args, st).0
    ensures f in Parsed(lib, args, st).1.flags <==> f in st.flags || Switch(f) in Items(args).0
  {
    hide Items, Run, Joined;
    FlagsExact(lib, Items(args).0, st, f);
  }

  lemma FinishKeeps(lib: Library, kind: Kind, ending: Ending, st: Settings)
    ensures forall text | HasValue(lib, kind, st, text) :: HasValue(lib, kind, Finish(ending, st), text)
  {
    hide Joined;
  }

  lemma SameFinished(kind: Kind, ending: Ending, a: Settings, b: Settings)
    requires SameSetting(kind, a, b)
    ensures SameSetting(kind, Finish(ending, a), b)
  {
    hide Joined;
  }

  /** After any command line: no handle is created exactly when one was given. */
  lemma ParsedHandles(lib: Library, args: seq<string>, st: Settings)
    requires HandlesAgree(st)
    ensures HandlesAgree(Parsed(lib, args, st).1)
  {
    hide Items, Run, Joined;
    RunKeeps(lib, Items(args).0, st);
  }

  /** The client's command line, tokenised, is what was left of the tokens. */
  lemma ClientTokens(lib: Library, args: seq<string>, st: Settings)
    requires Parsed(lib, args, st).0
    ensures var (items, ending) := Items(args);
            match ending {
              case Explicit(tokens) =>
                && Tokenise(Parsed(lib, args, st).1.clientCommandline) == tokens
                && args == Spelled(items) + [CLIENT] + tokens
              case Implicit(tokens) =>
                && Tokenise(Parsed(lib, args, st).1.clientCommandline) == tokens
                && args == Spelled(items) + tokens
              case _ => args == Spelled(items)
            }
  {
    hide Items, Run, Joined, Tokenise, Spelled;
    ReadingSpells(args);
    var (items, ending) := Items(args);
    match ending {
      case Explicit(tokens) =>
        TokeniseJoined(tokens);
        assert Spelled(items) + ([CLIENT] + tokens) == Spelled(items) + [CLIENT] + tokens;
      case Implicit(tokens) => TokeniseJoined(tokens);
      case Complete => assert Spelled(items) + [] == Spelled(items);
      case NoValue(_) =>
    }
  }

  lemma ParsedStep(lib: Library, args: seq<string>, st: Settings)
    ensures Next(args).Stop? ==>
              Parsed(lib, args, st) ==
              (var ending := Next(args).ending; if ending.NoValue? then (false, st) else (true, Finish(ending, st)))
    ensures Next(args).Take? && !Allowed(lib, Next(args).item, st) ==> Parsed(lib, args, st) == (false, st)
    ensures Next(args).Take? && Allowed(lib, Next(args).item, st) ==>
              var item := Next(args).item;
              && |Spelling(item)| <= |args|
              && Parsed(lib, args, st) == Parsed(lib, args[|Spelling(item)|..], Effect(lib, item, st))
  {
    ItemsStep(args);
    hide Items, Next, Allowed, Effect, Finish, Spelling;
    if Next(args).Take? {
      var item := Next(args).item;
      var more := Items(args[|Spelling(item)|..]).0;
      assert ([item] + more)[1..] == more;
    }
  }
}
