/**
 `ConsoleArguments::ParseCommandline`: takes tokens off the front of a vector and sets
 fields, with the meaning that the reading of the command line has.
 */
module CommandlineParser {
  import opened Bytes
  import opened Escape
  import opened Short
  import opened ConsoleArguments

  /** `s_ConsumeArg`: one token fewer, those behind it move up, the others stay. */
  method ConsumeArg(args: seq<string>, index: nat) returns (rest: seq<string>)
    requires index < |args|
    ensures |rest| == |args| - 1
    ensures forall i | 0 <= i < index :: rest[i] == args[i]
    ensures forall i | index <= i < |rest| :: rest[i] == args[i + 1]
  {
    rest := args[..index] + args[index + 1..];
  }

  /** `s_GetArgumentValue` for text: an option and its value are taken off together or not at all. */
  method GetArgumentValue(args: seq<string>, index: nat) returns (ok: bool, rest: seq<string>, value: string)
    requires index < |args|
    ensures ok <==> index + 1 < |args|
    ensures ok ==> value == args[index + 1] && rest == args[..index] + args[index + 2..]
    ensures !ok ==> rest == args
  {
    ok, rest, value := index + 1 < |args|, args, "";
    if ok {
      rest := ConsumeArg(rest, index);
      value := rest[index];
      rest := ConsumeArg(rest, index);
    }
  }

  /** `s_GetArgumentValue` for a `short`: the tokens are taken off even if the value is no good. */
  method GetShortValue(lib: Library, args: seq<string>, index: nat, setting: int)
    returns (ok: bool, rest: seq<string>, result: int)
    requires index < |args|
    ensures index + 1 >= |args| ==> !ok && rest == args && result == setting
    ensures index + 1 < |args| ==>
              && rest == args[..index] + args[index + 2..]
              && (ok <==> ShortValue(lib, args[index + 1]).Some?)
              && result == if ok then ShortValue(lib, args[index + 1]).value else setting
  {
    ok, rest, result := index + 1 < |args|, args, setting;
    if ok {
      rest := ConsumeArg(rest, index);
      var text := rest[index];
      match lib.stoi(text) {
        case None =>
          ok := false;
        case Some(r) =>
          if r.0 > SHORT_MAX || r.1 != |text| {
            ok := false;
          } else {
            result := ToShort(r.0);
          }
      }
      rest := ConsumeArg(rest, index);
    }
  }

  /** `s_HandleFeatureValue`. */
  method HandleFeatureValue(args: seq<string>, index: nat) returns (ok: bool, rest: seq<string>)
    requires index < |args|
    ensures index + 1 >= |args| ==> !ok && rest == args
    ensures index + 1 < |args| ==>
              rest == args[..index] + args[index + 2..] && (ok <==> args[index + 1] == PTY)
  {
    ok, rest := false, args;
    if index + 1 < |args| {
      rest := ConsumeArg(rest, index);
      ok := rest[index] == PTY;
      rest := ConsumeArg(rest, index);
    }
  }

  /** `s_ParseHandleArg`: a handle is set once, to a value other than zero. */
  method ParseHandleArg(lib: Library, text: string, handle: bv32) returns (ok: bool, result: bv32)
    ensures ok <==> handle == 0 && HandleValue(lib, text).Some?
    ensures result == if ok then HandleValue(lib, text).value else handle
  {
    ok, result := true, handle;
    if !HasPrefix(text, HANDLE_PREFIX) {
      ok := false;
    } else if handle == 0 {
      result := lib.wcstoul(text);
      if result == 0 {
        ok := false;
      }
    } else {
      ok := false;
    }
  }

  /** An option with its tokens taken off, and what it does when it is allowed. */
  predicate Took(lib: Library, args: seq<string>, rest: seq<string>, ok: bool, before: Settings, after: Settings) {
    match Next(args)
    case Take(item) =>
      && |Spelling(item)| <= |args| && rest == args[|Spelling(item)|..]
      && (ok <==> Allowed(lib, item, before))
      && after == if ok then Effect(lib, item, before) else before
    case Stop(ending) =>
      ending.NoValue? && !ok && rest == args && after == before
  }

  /** The tokens of the client taken off, all that were left. */
  predicate Finished(args: seq<string>, rest: seq<string>, ok: bool, before: Settings, after: Settings) {
    && Next(args).Stop? && (Next(args).ending.Explicit? || Next(args).ending.Implicit?)
    && ok && rest == [] && after == Finish(Next(args).ending, before)
  }

  lemma AfterStep(lib: Library, args: seq<string>, rest: seq<string>, ok: bool, before: Settings, after: Settings)
    requires Took(lib, args, rest, ok, before, after) || Finished(args, rest, ok, before, after)
    requires args != []
    ensures ok ==> |rest| < |args| && Parsed(lib, rest, after) == Parsed(lib, args, before)
    ensures !ok ==> Parsed(lib, args, before) == (false, after)
  {
    ParsedStep(lib, args, before);
    NothingLeft(lib, after);
    hide Parsed, Next, Effect, Allowed, Spelling;
  }

  lemma NothingLeft(lib: Library, st: Settings)
    ensures Parsed(lib, [], st) == (true, st)
  {
  }

  class Arguments {
    var flags: set<Flag>
    var vtMode: string
    var width: int
    var height: int
    var serverHandle: bv32
    var signalHandle: bv32
    var createServerHandle: bool
    var clientCommandline: string

    ghost function State(): Settings
      reads this
    {
      Settings(flags, vtMode, width, height, serverHandle, signalHandle, createServerHandle, clientCommandline)
    }

    constructor ()
      ensures State() == INITIAL
    {
      flags := {};
      vtMode, width, height, clientCommandline := "", 0, 0, "";
      serverHandle, signalHandle, createServerHandle := 0, 0, true;
    }

    method TakeServer(lib: Library, args: seq<string>) returns (ok: bool, rest: seq<string>)
      requires args != [] && (HasPrefix(args[0], HANDLE_PREFIX) || args[0] == SERVER)
      modifies this`serverHandle, this`createServerHandle
      ensures Took(lib, args, rest, ok, old(State()), State())
    {
      ValueNext(args);
      hide Next, TakesValue, FlagOf, HasPrefix, HandleValue;
      var text := args[0];
      if args[0] == SERVER {
        ok, rest, text := GetArgumentValue(args, 0);
      } else {
        rest := ConsumeArg(args, 0);
        ok := true;
      }
      if ok {
        ok, serverHandle := ParseHandleArg(lib, text, serverHandle);
        if ok {
          createServerHandle := false;
        }
      }
    }

    method TakeSignal(lib: Library, args: seq<string>) returns (ok: bool, rest: seq<string>)
      requires args != [] && args[0] == SIGNAL
      modifies this`signalHandle
      ensures Took(lib, args, rest, ok, old(State()), State())
    {
      ValueNext(args);
      hide Next, TakesValue, FlagOf, HasPrefix, HandleValue;
      var text;
      ok, rest, text := GetArgumentValue(args, 0);
      if ok {
        ok, signalHandle := ParseHandleArg(lib, text, signalHandle);
      }
    }

    method TakeSetting(lib: Library, args: seq<string>) returns (ok: bool, rest: seq<string>)
      requires args != [] && (args[0] == VT_MODE || args[0] == WIDTH || args[0] == HEIGHT || args[0] == FEATURE)
      modifies this`vtMode, this`width, this`height
      ensures Took(lib, args, rest, ok, old(State()), State())
    {
      ValueNext(args);
      hide Next, TakesValue, FlagOf, HasPrefix, ShortValue;
      var arg := args[0];
      if arg == VT_MODE {
        var text;
        ok, rest, text := GetArgumentValue(args, 0);
        if ok {
          vtMode := text;
        }
      } else if arg == WIDTH {
        ok, rest, width := GetShortValue(lib, args, 0, width);
      } else if arg == HEIGHT {
        ok, rest, height := GetShortValue(lib, args, 0, height);
      } else {
        ok, rest := HandleFeatureValue(args, 0);
      }
    }

    /** `_GetClientCommandline`. */
    method GetClientCommandline(args: seq<string>, skipFirst: bool) returns (rest: seq<string>)
      requires skipFirst ==> args != [] && args[0] == CLIENT
      modifies this`clientCommandline
      ensures rest == []
      ensures clientCommandline == Joined(if skipFirst then args[1..] else args)
    {
      hide Escaped;
      rest := args;
      if skipFirst {
        rest := args[1..];
      }
      clientCommandline := "";
      for j := 0 to |rest|
        invariant clientCommandline + Joined(rest[j..]) == Joined(rest)
      {
        JoinedStep(clientCommandline, rest[j..]);
        assert rest[j..][1..] == rest[j + 1..];
        var text := EscapeArgument(rest[j]);
        clientCommandline := clientCommandline + text;
        if j + 1 < |rest| {
          clientCommandline := clientCommandline + " ";
        }
      }
      assert clientCommandline + [] == clientCommandline;
      rest := [];
    }

    /** The body of the parsing loop: handles the first token. */
    method HandleArg(lib: Library, args: seq<string>) returns (ok: bool, rest: seq<string>, done: bool)
      requires args != []
      modifies this
      ensures !done ==> Took(lib, args, rest, ok, old(State()), State())
      ensures done ==> Finished(args, rest, ok, old(State()), State())
    {
      done := false;
      var arg := args[0];
      if HasPrefix(arg, HANDLE_PREFIX) || arg == SERVER {
        ok, rest := TakeServer(lib, args);
      } else if arg == SIGNAL {
        ok, rest := TakeSignal(lib, args);
      } else if arg == VT_MODE || arg == WIDTH || arg == HEIGHT || arg == FEATURE {
        ok, rest := TakeSetting(lib, args);
      } else {
        hide HasPrefix, FlagOf, Joined, Took, Finished;
        OtherNext(lib, args, State());
        if FlagOf(arg).Some? {
          flags := flags + {FlagOf(arg).value};
          rest := ConsumeArg(args, 0);
          ok := true;
        } else if HasPrefix(arg, PATH_PREFIX) {
          rest := ConsumeArg(args, 0);
          ok := true;
        } else {
          done, ok := true, true;
          rest := GetClientCommandline(args, arg == CLIENT);
        }
      }
    }

    /**
     `ParseCommandline`, given the tokens that `CommandLineToArgvW` made of the command
     line, or nothing if it failed.
     */
    method ParseCommandline(lib: Library, commandline: string, argv: Option<seq<string>>)
      returns (ok: bool, left: seq<string>)
      modifies this
      ensures commandline == "" ==> ok && State() == old(State())
      ensures commandline != "" && argv.None? ==> !ok && State() == old(State())
      ensures commandline != "" && argv.Some? ==>
                (ok, State()) == Parsed(lib, if argv.value == [] then [] else argv.value[1..], old(State()))
      ensures ok ==> left == []
      ensures ok && commandline != "" ==>
                var args := if argv.value == [] then [] else argv.value[1..];
                && (forall kind :: SettingGiven(lib, args, old(State()), State(), kind))
                && (forall f: Flag :: f in flags <==> f in old(flags) || Switch(f) in Items(args).0)
      ensures old(HandlesAgree(State())) ==> HandlesAgree(State())
    {
      left := [];
      if commandline == "" {
        return true, left;
      }
      if argv.None? {
        return false, left;
      }
      if argv.value != [] {
        left := argv.value[1..];
      }
      ghost var args, st := left, State();
      ok := true;
      hide *;
      if HandlesAgree(st) {
        ParsedHandles(lib, args, st);
      }
      MeansGiven(lib, args, st);
      while left != []
        invariant ok && Parsed(lib, left, State()) == Parsed(lib, args, st)
        decreases |left|
      {
        ghost var before := State();
        var done, rest;
        ok, rest, done := HandleArg(lib, left);
        AfterStep(lib, left, rest, ok, before, State());
        left := rest;
        if !ok {
          return;
        }
      }
      NothingLeft(lib, State());
    }
  }

  lemma MeansGiven(lib: Library, args: seq<string>, st: Settings)
    ensures Parsed(lib, args, st).0 ==>
              && (forall kind :: SettingGiven(lib, args, st, Parsed(lib, args, st).1, kind))
              && (forall f: Flag :: f in Parsed(lib, args, st).1.flags <==> f in st.flags || Switch(f) in Items(args).0)
  {
    hide *;
    if Parsed(lib, args, st).0 {
      forall kind
        ensures SettingGiven(lib, args, st, Parsed(lib, args, st).1, kind)
      {
        ParsedSetting(lib, args, st, kind);
      }
      forall f: Flag
        ensures f in Parsed(lib, args, st).1.flags <==> f in st.flags || Switch(f) in Items(args).0
      {
        ParsedFlags(lib, args, st, f);
      }
    }
  }

  lemma ValueNext(args: seq<string>)
    requires args != [] && (HasPrefix(args[0], HANDLE_PREFIX) || TakesValue(args[0]))
    ensures !(HasPrefix(args[0], HANDLE_PREFIX) && TakesValue(args[0]))
    ensures HasPrefix(args[0], HANDLE_PREFIX) ==> Next(args) == Take(LegacyServer(args[0]))
    ensures TakesValue(args[0]) && |args| > 1 ==> Next(args) == Take(WithValue(args[0], args[1]))
    ensures TakesValue(args[0]) && |args| == 1 ==> Next(args) == Stop(NoValue(args[0]))
    ensures TakesValue(SERVER) && TakesValue(SIGNAL) && TakesValue(VT_MODE)
    ensures TakesValue(WIDTH) && TakesValue(HEIGHT) && TakesValue(FEATURE)
  {
    assert HANDLE_PREFIX[0] == '0';
    var arg := args[0];
    if HasPrefix(arg, HANDLE_PREFIX) {
      assert arg[0] == arg[..|HANDLE_PREFIX|][0];
    } else {
      assert arg[0] == '-';
    }
  }

  /** Tokens that are not followed by a value. */
  lemma OtherNext(lib: Library, args: seq<string>, st: Settings)
    requires args != [] && !HasPrefix(args[0], HANDLE_PREFIX) && !TakesValue(args[0])
    ensures var arg := args[0];
            if FlagOf(arg).Some? then
              Took(lib, args, args[1..], true, st, st.(flags := st.flags + {FlagOf(arg).value}))
            else if HasPrefix(arg, PATH_PREFIX) then
              Took(lib, args, args[1..], true, st, st)
            else
              var tokens := if arg == CLIENT then args[1..] else args;
              Finished(args, [], true, st, st.(clientCommandline := Joined(tokens)))
  {
    hide FlagOf, HasPrefix, TakesValue, Joined;
  }

  lemma JoinedStep(text: string, rest: seq<string>)
    requires rest != []
    ensures text + Joined(rest) == (text + Escaped(rest[0]) + (if |rest| > 1 then " " else [])) + Joined(rest[1..])
  {
    hide Escaped;
    var e := Escaped(rest[0]);
    if |rest| == 1 {
      assert rest[1..] == [];
      assert text + e == (text + e + []) + [];
    } else {
      Associate(text, e, " ", Joined(rest[1..]));
    }
  }

  lemma Associate(a: string, b: string, c: string, d: string)
    ensures a + (b + c + d) == (a + b + c) + d
  {
  }
}
