/**
 `EscapeArgument` and the documented argument rules of `CommandLineToArgvW`, its inverse:
 blanks separate arguments outside quotation marks, and backslashes are literal unless a
 quotation mark follows them, when each pair of them stands for one and an odd one makes
 the quotation mark literal.
 */
module Escape {
  const SLASH: char := '\\'
  const QUOTE: char := '\"'

  predicate IsBlank(c: char) {
    c == ' ' || c == '\t'
  }

  predicate HasBlank(s: string) {
    exists i | 0 <= i < |s| :: IsBlank(s[i])
  }

  predicate IsPlain(s: string) {
    forall i | 0 <= i < |s| :: !IsBlank(s[i]) && s[i] != SLASH && s[i] != QUOTE
  }

  function Slashes(n: nat): (s: string)
    ensures |s| == n
    ensures forall i | 0 <= i < n :: s[i] == SLASH
  {
    seq(n, _ => SLASH)
  }

  // ----- tokenising -----

  /**
   The arguments in `s`, read on from a state: inside quotation marks or not, a run of
   backslashes that have not been interpreted yet, and the argument read so far, if one
   has begun.
   */
  function Scan(s: string, quoted: bool, slashes: nat, begun: bool, arg: string): seq<string>
  {
    if s == [] then
      if begun then [arg + Slashes(slashes)] else []
    else if s[0] == SLASH then
      Scan(s[1..], quoted, slashes + 1, true, arg)
    else if s[0] == QUOTE then
      if slashes % 2 == 1 then
        Scan(s[1..], quoted, 0, true, arg + Slashes(slashes / 2) + [QUOTE])
      else
        Scan(s[1..], !quoted, 0, true, arg + Slashes(slashes / 2))
    else if IsBlank(s[0]) && !quoted then
      (if begun then [arg + Slashes(slashes)] else []) + Scan(s[1..], false, 0, false, [])
    else
      Scan(s[1..], quoted, 0, true, arg + Slashes(slashes) + [s[0]])
  }

  function Tokenise(s: string): seq<string> {
    Scan(s, false, 0, false, [])
  }

  // ----- escaping -----

  /** The characters of an argument, backslashes doubled where a quotation mark follows. */
  function Body(s: string, slashes: nat): string {
    if s == [] then []
    else if s[0] == SLASH then [SLASH] + Body(s[1..], slashes + 1)
    else if s[0] == QUOTE then Slashes(slashes + 1) + [QUOTE] + Body(s[1..], 0)
    else [s[0]] + Body(s[1..], 0)
  }

  /** The backslashes at the end of `s`, after `slashes` of them. */
  function Tail(s: string, slashes: nat): (t: nat)
    ensures t <= slashes + |s|
  {
    if s == [] then slashes else Tail(s[1..], if s[0] == SLASH then slashes + 1 else 0)
  }

  function Escaped(s: string): string {
    if s == [] then [QUOTE, QUOTE]
    else if HasBlank(s) then [QUOTE] + Body(s, 0) + Slashes(Tail(s, 0)) + [QUOTE]
    else Body(s, 0)
  }

  /** The escaped arguments, a space between each two. */
  function Joined(args: seq<string>): string {
    if args == [] then []
    else if |args| == 1 then Escaped(args[0])
    else Escaped(args[0]) + [' '] + Joined(args[1..])
  }

  lemma {:induction false} PlainBody(s: string)
    requires forall i | 0 <= i < |s| :: s[i] != SLASH && s[i] != QUOTE
    ensures Body(s, 0) == s
  {
    if s != [] {
      PlainBody(s[1..]);
      assert s == [s[0]] + s[1..];
    }
  }

  /** Nothing is escaped without need: plain text stays, and only blanks and nothing are put in quotation marks. */
  lemma EscapedShape(s: string)
    ensures IsPlain(s) && s != [] ==> Escaped(s) == s
    ensures Escaped(s)[0] == QUOTE <==> s == [] || HasBlank(s)
  {
    if IsPlain(s) && s != [] {
      PlainBody(s);
    }
  }

  // ----- the inverse -----

  lemma {:induction false} ScanSlashes(n: nat, rest: string, quoted: bool, slashes: nat, arg: string)
    ensures Scan(Slashes(n) + rest, quoted, slashes, true, arg) == Scan(rest, quoted, slashes + n, true, arg)
  {
    if n == 0 {
      assert Slashes(0) + rest == rest;
    } else {
      assert (Slashes(n) + rest)[1..] == Slashes(n - 1) + rest;
      ScanSlashes(n - 1, rest, quoted, slashes + 1, arg);
    }
  }

  /** What has been interpreted of `s` when its last backslashes are still waiting. */
  function Settled(s: string, slashes: nat): string {
    (Slashes(slashes) + s)[..slashes + |s| - Tail(s, slashes)]
  }

  lemma SettledStep(s: string, slashes: nat)
    requires s != []
    ensures s[0] == SLASH ==> Settled(s, slashes) == Settled(s[1..], slashes + 1)
    ensures s[0] != SLASH ==> Settled(s, slashes) == Slashes(slashes) + [s[0]] + Settled(s[1..], 0)
  {
    if s[0] == SLASH {
      assert Slashes(slashes) + s == Slashes(slashes + 1) + s[1..];
    } else {
      assert Slashes(slashes) + s == Slashes(slashes) + [s[0]] + (Slashes(0) + s[1..]);
    }
  }

  lemma {:induction false} SettledAll(s: string, slashes: nat)
    ensures Settled(s, slashes) + Slashes(Tail(s, slashes)) == Slashes(slashes) + s
  {
    if s == [] {
      assert Slashes(slashes) + s == Slashes(slashes);
    } else {
      SettledStep(s, slashes);
      SettledAll(s[1..], if s[0] == SLASH then slashes + 1 else 0);
      var k := if s[0] == SLASH then slashes + 1 else 0;
      if s[0] == SLASH {
        assert Slashes(slashes + 1) + s[1..] == Slashes(slashes) + s;
      } else {
        assert Slashes(0) + s[1..] == s[1..];
        assert Slashes(slashes) + s == Slashes(slashes) + [s[0]] + s[1..];
        SettledJoin(Slashes(slashes) + [s[0]], Settled(s[1..], 0), Slashes(Tail(s[1..], 0)));
      }
    }
  }

  lemma SettledJoin(a: string, b: string, c: string)
    ensures (a + b) + c == a + (b + c)
  {
  }

  /** Reading an escaped body puts the argument itself together. */
  lemma {:induction false} ScanBody(s: string, slashes: nat, rest: string, quoted: bool, arg: string)
    requires quoted || !HasBlank(s)
    ensures Scan(Body(s, slashes) + rest, quoted, slashes, true, arg) ==
            Scan(rest, quoted, Tail(s, slashes), true, arg + Settled(s, slashes))
  {
    if s == [] {
      assert Body(s, slashes) + rest == rest;
      assert Settled(s, slashes) == [];
      assert arg + [] == arg;
    } else {
      assert !quoted ==> !HasBlank(s[1..]) by {
        assert forall i | 0 <= i < |s[1..]| :: s[1..][i] == s[i + 1];
      }
      SettledStep(s, slashes);
      var c := s[0];
      if c == SLASH {
        BodyRest([SLASH], s[1..], slashes + 1, rest);
        ScanBody(s[1..], slashes + 1, rest, quoted, arg);
      } else if c == QUOTE {
        ScanQuote(s, slashes, rest, quoted, arg);
        ScanBody(s[1..], 0, rest, quoted, arg + Slashes(slashes) + [QUOTE]);
        SettledJoin(arg, Slashes(slashes) + [QUOTE], Settled(s[1..], 0));
        assert arg + Slashes(slashes) + [QUOTE] == arg + (Slashes(slashes) + [QUOTE]);
      } else {
        BodyRest([c], s[1..], 0, rest);
        assert quoted || !IsBlank(c);
        ScanBody(s[1..], 0, rest, quoted, arg + Slashes(slashes) + [c]);
        SettledJoin(arg, Slashes(slashes) + [c], Settled(s[1..], 0));
        assert arg + Slashes(slashes) + [c] == arg + (Slashes(slashes) + [c]);
      }
    }
  }

  lemma BodyRest(a: string, s: string, slashes: nat, rest: string)
    requires |a| == 1
    ensures (a + Body(s, slashes)) + rest == a + (Body(s, slashes) + rest)
    ensures ((a + Body(s, slashes)) + rest)[1..] == Body(s, slashes) + rest
    ensures ((a + Body(s, slashes)) + rest)[0] == a[0]
  {
  }

  /** A quotation mark behind `n` backslashes is written behind `2n + 1` of them. */
  lemma ScanQuote(s: string, n: nat, rest: string, quoted: bool, arg: string)
    requires s != [] && s[0] == QUOTE
    ensures Scan(Body(s, n) + rest, quoted, n, true, arg) ==
            Scan(Body(s[1..], 0) + rest, quoted, 0, true, arg + Slashes(n) + [QUOTE])
  {
    var tail := Body(s[1..], 0) + rest;
    assert Body(s, n) + rest == Slashes(n + 1) + ([QUOTE] + tail);
    ScanSlashes(n + 1, [QUOTE] + tail, quoted, n, arg);
    assert ([QUOTE] + tail)[1..] == tail;
    assert (n + (n + 1)) % 2 == 1 && (n + (n + 1)) / 2 == n;
  }

  lemma BeginsAnyway(s: string, arg: string)
    requires s != [] && !IsBlank(s[0])
    ensures Scan(s, false, 0, false, arg) == Scan(s, false, 0, true, arg)
  {
  }

  /** An escaped argument, followed by the end or by a blank, is read as that argument. */
  lemma ScanEscaped(s: string, rest: string)
    requires rest == [] || IsBlank(rest[0])
    ensures Scan(Escaped(s) + rest, false, 0, false, []) ==
            [s] + (if rest == [] then [] else Scan(rest[1..], false, 0, false, []))
  {
    if s == [] {
      ScanEmpty(rest);
    } else if HasBlank(s) {
      ScanQuoted(s, rest);
    } else {
      ScanUnquoted(s, rest);
    }
    ScanEnd(s, rest);
  }

  /** The argument ends at a blank. */
  lemma ScanEnd(arg: string, rest: string)
    requires rest == [] || IsBlank(rest[0])
    ensures Scan(rest, false, 0, true, arg) ==
            [arg] + (if rest == [] then [] else Scan(rest[1..], false, 0, false, []))
  {
    assert arg + Slashes(0) == arg;
  }

  lemma ScanEmpty(rest: string)
    ensures Scan([QUOTE, QUOTE] + rest, false, 0, false, []) == Scan(rest, false, 0, true, [])
  {
    assert ([QUOTE, QUOTE] + rest)[1..] == [QUOTE] + rest;
    assert ([QUOTE] + rest)[1..] == rest;
    assert [] + Slashes(0) == [];
  }

  lemma ScanQuoted(s: string, rest: string)
    requires HasBlank(s)
    ensures Scan(Escaped(s) + rest, false, 0, false, []) == Scan(rest, false, 0, true, s)
  {
    hide Settled;
    var t := Tail(s, 0);
    var close := Slashes(t) + ([QUOTE] + rest);
    var inner := Body(s, 0) + close;
    assert Escaped(s) + rest == [QUOTE] + inner;
    assert ([QUOTE] + inner)[1..] == inner;
    assert [] + Slashes(0) == [];
    assert Scan([QUOTE] + inner, false, 0, false, []) == Scan(inner, true, 0, true, []);
    ScanBody(s, 0, close, true, []);
    ScanSlashes(t, [QUOTE] + rest, true, t, [] + Settled(s, 0));
    SettledAll(s, 0);
    assert Slashes(0) + s == s;
    assert [] + Settled(s, 0) == Settled(s, 0);
    assert ([QUOTE] + rest)[1..] == rest;
    assert (t + t) % 2 == 0 && (t + t) / 2 == t;
  }

  lemma ScanUnquoted(s: string, rest: string)
    requires s != [] && !HasBlank(s) && (rest == [] || IsBlank(rest[0]))
    ensures Scan(Escaped(s) + rest, false, 0, false, []) == Scan(rest, false, 0, true, s)
  {
    hide Settled;
    var text := Body(s, 0) + rest;
    assert !IsBlank(s[0]);
    assert s[0] != QUOTE ==> Body(s, 0)[0] == s[0];
    assert s[0] == QUOTE ==> Body(s, 0)[0] == SLASH;
    assert !IsBlank(text[0]);
    BeginsAnyway(text, []);
    ScanBody(s, 0, rest, false, []);
    SettledAll(s, 0);
    assert Slashes(0) + s == s;
    assert [] + Settled(s, 0) == Settled(s, 0);
    assert s + Slashes(0) == s;
  }

  /** Tokenising the joined escaped arguments gives the arguments back, whatever they are. */
  lemma {:induction false} TokeniseJoined(args: seq<string>)
    ensures Tokenise(Joined(args)) == args
  {
    hide Scan, Escaped;
    if args == [] {
      ScanNothing();
    } else if |args| == 1 {
      ScanEscaped(args[0], []);
      assert Escaped(args[0]) + [] == Escaped(args[0]);
      assert args == [args[0]] + [];
    } else {
      var rest := [' '] + Joined(args[1..]);
      assert rest[1..] == Joined(args[1..]);
      ScanEscaped(args[0], rest);
      assert Escaped(args[0]) + [' '] + Joined(args[1..]) == Escaped(args[0]) + rest;
      TokeniseJoined(args[1..]);
    }
  }

  lemma ScanNothing()
    ensures Scan([], false, 0, false, []) == []
  {
  }

  // ----- the code -----

  /** Whether the argument has a blank, and its size once the rest is escaped. */
  method Measure(ac: string) returns (hasSpace: bool, n: nat)
    ensures hasSpace <==> HasBlank(ac)
    ensures n == |ac| <==> IsPlain(ac)
    ensures n >= |ac|
  {
    hasSpace, n := false, |ac|;
    for i := 0 to |ac|
      invariant hasSpace <==> HasBlank(ac[..i])
      invariant n >= |ac|
      invariant n == |ac| <==> forall k | 0 <= k < i :: ac[k] != SLASH && ac[k] != QUOTE
    {
      var c := ac[i];
      assert ac[..i + 1] == ac[..i] + [c];
      assert ac[..i + 1][i] == c;
      assert forall k | 0 <= k < i :: ac[..i + 1][k] == ac[..i][k];
      if c == QUOTE || c == SLASH {
        n := n + 1;
      } else if IsBlank(c) {
        hasSpace := true;
      }
    }
    assert ac[..|ac|] == ac;
    assert IsPlain(ac) <==> n == |ac| && !HasBlank(ac);
    if hasSpace {
      n := n + 2;
    }
  }

  method PushSlashes(buf: string, slashes: nat) returns (r: string)
    ensures r == buf + Slashes(slashes)
  {
    r := buf;
    var left := slashes;
    while left > 0
      invariant 0 <= left <= slashes && r == buf + Slashes(slashes - left)
    {
      r := r + [SLASH];
      left := left - 1;
    }
  }

  /** `EscapeArgument`. */
  method EscapeArgument(ac: string) returns (buf: string)
    ensures buf == Escaped(ac)
  {
    if ac == [] {
      return [QUOTE, QUOTE];
    }
    var hasSpace, n := Measure(ac);
    if n == |ac| {
      PlainBody(ac);
      return ac;
    }
    buf := [];
    if hasSpace {
      buf := buf + [QUOTE];
    }
    var slashes;
    buf, slashes := EscapeBody(buf, ac);
    if hasSpace {
      buf := PushSlashes(buf, slashes);
      buf := buf + [QUOTE];
    }
  }

  method EscapeBody(opening: string, ac: string) returns (buf: string, slashes: nat)
    ensures buf == opening + Body(ac, 0) && slashes == Tail(ac, 0)
  {
    hide Body, Tail;
    buf, slashes := opening, 0;
    assert ac[0..] == ac;
    for i := 0 to |ac|
      invariant buf + Body(ac[i..], slashes) == opening + Body(ac, 0)
      invariant Tail(ac[i..], slashes) == Tail(ac, 0)
    {
      var c := ac[i];
      assert ac[i..][1..] == ac[i + 1..];
      BodyStep(ac[i..], slashes, buf);
      if c == SLASH {
        slashes := slashes + 1;
        buf := buf + [SLASH];
      } else if c == QUOTE {
        buf := PushSlashes(buf, slashes);
        slashes := 0;
        buf := buf + [SLASH] + [c];
      } else {
        slashes := 0;
        buf := buf + [c];
      }
    }
    BodyEnd(ac[|ac|..], slashes);
    assert buf + [] == buf;
  }

  lemma BodyStep(s: string, slashes: nat, buf: string)
    requires s != []
    ensures buf + Body(s, slashes) ==
            if s[0] == SLASH then (buf + [SLASH]) + Body(s[1..], slashes + 1)
            else if s[0] == QUOTE then (buf + Slashes(slashes) + [SLASH] + [QUOTE]) + Body(s[1..], 0)
            else (buf + [s[0]]) + Body(s[1..], 0)
    ensures Tail(s, slashes) == Tail(s[1..], if s[0] == SLASH then slashes + 1 else 0)
  {
    assert Slashes(slashes + 1) == Slashes(slashes) + [SLASH];
  }

  lemma BodyEnd(s: string, slashes: nat)
    requires s == []
    ensures Body(s, slashes) == [] && Tail(s, slashes) == slashes
  {
  }
}
