/**
 Command-line quoting (src/debug_run.rs) against its inverse: the parsing rules in the
 Remarks section of the Win32 `CommandLineToArgvW` reference, with space and tab as white
 space.
 */
module CommandLine {
  function Slashes(n: nat): string {
    if n == 0 then [] else "\\" + Slashes(n - 1)
  }

  predicate IsSpace(c: char) {
    c == ' ' || c == '\t'
  }

  // ---------- the printer ----------

  predicate NeedsQuotes(arg: string) {
    arg == [] || ' ' in arg || '\t' in arg || '"' in arg
  }

  /** What follows the opening quote, with `slashes` backslashes read and not yet written. */
  function QuoteFrom(arg: string, slashes: nat): string {
    if arg == [] then Slashes(2 * slashes) + "\""
    else if arg[0] == '\\' then QuoteFrom(arg[1..], slashes + 1)
    else if arg[0] == '"' then Slashes(2 * slashes + 1) + "\"" + QuoteFrom(arg[1..], 0)
    else Slashes(slashes) + [arg[0]] + QuoteFrom(arg[1..], 0)
  }

  function Quote(arg: string): string {
    if NeedsQuotes(arg) then "\"" + QuoteFrom(arg, 0) else arg
  }

  /** `quote_cmd_arg` */
  method QuoteCmdArg(arg: string) returns (out: string)
    ensures out == Quote(arg)
  {
    if arg != [] && ' ' !in arg && '\t' !in arg && '"' !in arg {
      return arg;
    }
    out := "\"";
    var slashes := 0;
    for i := 0 to |arg|
      invariant slashes >= 0
      invariant out + QuoteFrom(arg[i..], slashes) == "\"" + QuoteFrom(arg, 0)
    {
      var c := arg[i];
      assert arg[i..][0] == c && arg[i..][1..] == arg[i + 1..];
      if c == '\\' {
        slashes := slashes + 1;
        continue;
      }
      if c == '"' {
        out := out + Slashes(slashes * 2 + 1);
        out := out + "\"";
        slashes := 0;
        continue;
      }
      if slashes > 0 {
        out := out + Slashes(slashes);
        slashes := 0;
      }
      out := out + [c];
    }
    assert arg[|arg|..] == [];
    if slashes > 0 {
      out := out + Slashes(slashes * 2);
    }
    out := out + "\"";
  }

  lemma {:induction false} QuotedIsLonger(arg: string, slashes: nat)
    ensures |QuoteFrom(arg, slashes)| > |arg| + slashes
  {
    SlashesLength(slashes);
    SlashesLength(2 * slashes);
    SlashesLength(2 * slashes + 1);
    if arg != [] {
      if arg[0] == '\\' { QuotedIsLonger(arg[1..], slashes + 1); } else { QuotedIsLonger(arg[1..], 0); }
    }
  }

  lemma {:induction false} SlashesLength(n: nat)
    ensures |Slashes(n)| == n
  {
    if n > 0 { SlashesLength(n - 1); }
  }

  /** Exactly the arguments that have characters, and no blank, tab or quote, are left as they are. */
  lemma PlainIsLeftAlone(arg: string)
    ensures Quote(arg) == arg <==> arg != [] && forall c :: c in arg ==> c !in " \t\""
  {
    QuotedIsLonger(arg, 0);
  }

  function Arguments(args: seq<string>): string {
    if args == [] then [] else Arguments(args[..|args| - 1]) + (" " + Quote(args[|args| - 1]))
  }

  /** `build_command_line` */
  function Build(exe: string, args: seq<string>): string {
    Quote(exe) + Arguments(args)
  }

  method BuildCommandLine(exe: string, args: seq<string>) returns (line: string)
    ensures line == Build(exe, args)
  {
    line := QuoteCmdArg(exe);
    for i := 0 to |args|
      invariant line == Build(exe, args[..i])
    {
      var part := QuoteCmdArg(args[i]);
      assert args[..i + 1][..|args[..i + 1]| - 1] == args[..i];
      Assoc(Quote(exe), Arguments(args[..i]), " " + part);
      line := line + (" " + part);
    }
    assert args[..|args|] == args;
  }

  // ---------- the parser ----------

  /** The rest of one argument and what follows it. Backslashes count only in front of a
      quote: an even run halves and the quote opens or closes, an odd run halves and the quote
      is literal. White space ends the argument outside quotes. */
  function ParseArg(s: string, quoted: bool, slashes: nat): (r: (string, string))
    ensures |r.1| <= |s|
    ensures s != [] && (quoted || !IsSpace(s[0])) ==> |r.1| < |s|
  {
    if s == [] then (Slashes(slashes), [])
    else if s[0] == '\\' then ParseArg(s[1..], quoted, slashes + 1)
    else if s[0] == '"' then
      if slashes % 2 == 0 then
        var (text, rest) := ParseArg(s[1..], !quoted, 0);
        (Slashes(slashes / 2) + text, rest)
      else
        var (text, rest) := ParseArg(s[1..], quoted, 0);
        (Slashes(slashes / 2) + "\"" + text, rest)
    else if IsSpace(s[0]) && !quoted then (Slashes(slashes), s)
    else
      var (text, rest) := ParseArg(s[1..], quoted, 0);
      (Slashes(slashes) + [s[0]] + text, rest)
  }

  function SkipSpace(s: string): (r: string)
    ensures |r| <= |s|
    ensures r != [] ==> !IsSpace(r[0])
  {
    if s != [] && IsSpace(s[0]) then SkipSpace(s[1..]) else s
  }

  function ParseArgs(s: string): seq<string>
    decreases |s|
  {
    var start := SkipSpace(s);
    if start == [] then []
    else
      var (arg, rest) := ParseArg(start, false, 0);
      [arg] + ParseArgs(rest)
  }

  /** The program name has no escapes: quoted, it runs to the next quote; otherwise to white space. */
  function UpToQuote(s: string): (string, string) {
    if s == [] then ([], [])
    else if s[0] == '"' then ([], s[1..])
    else
      var (text, rest) := UpToQuote(s[1..]);
      ([s[0]] + text, rest)
  }

  function UpToSpace(s: string): (string, string) {
    if s == [] || IsSpace(s[0]) then ([], s)
    else
      var (text, rest) := UpToSpace(s[1..]);
      ([s[0]] + text, rest)
  }

  function Parse(line: string): seq<string> {
    var (program, rest) := if line != [] && line[0] == '"' then UpToQuote(line[1..]) else UpToSpace(line);
    [program] + ParseArgs(rest)
  }

  // ---------- one argument ----------

  lemma {:induction false} ParseRun(n: nat, s: string, quoted: bool, slashes: nat)
    ensures ParseArg(Slashes(n) + s, quoted, slashes) == ParseArg(s, quoted, slashes + n)
  {
    if n == 0 {
      assert Slashes(0) + s == s;
    } else {
      assert (Slashes(n) + s)[1..] == Slashes(n - 1) + s;
      ParseRun(n - 1, s, quoted, slashes + 1);
    }
  }

  lemma {:induction false} SlashesPush(n: nat)
    ensures Slashes(n + 1) == Slashes(n) + "\\"
  {
    if n > 0 { SlashesPush(n - 1); }
  }

  /** An argument is followed by nothing or by white space. */
  predicate IsTail(tail: string) {
    tail == [] || IsSpace(tail[0])
  }

  lemma Assoc(a: string, b: string, c: string)
    ensures a + b + c == a + (b + c)
  {
  }

  lemma Front(c: char, s: string)
    ensures [c] + s != [] && ([c] + s)[0] == c && ([c] + s)[1..] == s
  {
  }

  /** A backslash moves from the text to the pending count. */
  lemma SlashMoves(rest: string, k: nat)
    ensures Slashes(k + 1) + rest == Slashes(k) + ("\\" + rest)
  {
    SlashesPush(k);
    Assoc(Slashes(k), "\\", rest);
  }

  /** The parser meets `k` backslashes and then the ordinary character `c`. */
  lemma OrdinaryStep(k: nat, c: char, more: string, quoted: bool, rest: string, tail: string)
    requires c != '\\' && c != '"' && (quoted || !IsSpace(c))
    requires ParseArg(more, quoted, 0) == (rest, tail)
    ensures ParseArg([c] + more, quoted, k) == (Slashes(k) + ([c] + rest), tail)
  {
    Front(c, more);
    Assoc(Slashes(k), [c], rest);
  }

  lemma LiteralQuote(n: nat, more: string, rest: string, tail: string)
    requires n % 2 == 1
    requires ParseArg(more, true, 0) == (rest, tail)
    ensures ParseArg("\"" + more, true, n) == (Slashes(n / 2) + ("\"" + rest), tail)
  {
    Front('"', more);
    Assoc(Slashes(n / 2), "\"", rest);
  }

  /** The quote that closes the argument. */
  lemma ClosingQuote(n: nat, tail: string)
    requires IsTail(tail) && n % 2 == 0
    ensures ParseArg("\"" + tail, true, n) == (Slashes(n / 2), tail)
  {
    Front('"', tail);
    assert ParseArg(tail, false, 0) == ([], tail);
    assert Slashes(n / 2) + [] == Slashes(n / 2);
  }

  lemma QuoteFromUnfold(c: char, rest: string, k: nat, tail: string)
    ensures c == '\\' ==> QuoteFrom([c] + rest, k) == QuoteFrom(rest, k + 1)
    ensures c == '"' ==> QuoteFrom([c] + rest, k) + tail == Slashes(2 * k + 1) + ("\"" + (QuoteFrom(rest, 0) + tail))
    ensures c != '\\' && c != '"' ==>
              QuoteFrom([c] + rest, k) + tail == Slashes(k) + ([c] + (QuoteFrom(rest, 0) + tail))
  {
    Front(c, rest);
    var q, lead := QuoteFrom(rest, 0), if c == '"' then Slashes(2 * k + 1) else Slashes(k);
    Assoc(lead + [c], q, tail);
    Assoc(lead, [c], q + tail);
  }

  lemma {:induction false} QuotedParsesBack(arg: string, k: nat, tail: string)
    requires IsTail(tail)
    ensures ParseArg(QuoteFrom(arg, k) + tail, true, 0) == (Slashes(k) + arg, tail)
    decreases |arg|
  {
    if arg == [] {
      Assoc(Slashes(2 * k), "\"", tail);
      ParseRun(2 * k, "\"" + tail, true, 0);
      ClosingQuote(2 * k, tail);
      assert Slashes(k) + arg == Slashes(k);
    } else {
      var c, rest := arg[0], arg[1..];
      assert arg == [c] + rest;
      QuoteFromUnfold(c, rest, k, tail);
      if c == '\\' {
        QuotedParsesBack(rest, k + 1, tail);
        SlashMoves(rest, k);
      } else {
        QuotedParsesBack(rest, 0, tail);
        assert Slashes(0) + rest == rest;
        var more := QuoteFrom(rest, 0) + tail;
        if c == '"' {
          ParseRun(2 * k + 1, "\"" + more, true, 0);
          LiteralQuote(2 * k + 1, more, rest, tail);
        } else {
          ParseRun(k, [c] + more, true, 0);
          OrdinaryStep(k, c, more, true, rest, tail);
        }
      }
    }
  }

  predicate IsPlain(arg: string) {
    ' ' !in arg && '\t' !in arg && '"' !in arg
  }

  lemma PlainFront(c: char, rest: string)
    requires IsPlain([c] + rest)
    ensures !IsSpace(c) && c != '"' && IsPlain(rest)
  {
    assert c in [c] + rest;
  }

  lemma {:induction false} PlainParsesBack(arg: string, k: nat, tail: string)
    requires IsTail(tail) && IsPlain(arg)
    ensures ParseArg(arg + tail, false, k) == (Slashes(k) + arg, tail)
    decreases |arg|
  {
    if arg == [] {
      assert arg + tail == tail && Slashes(k) + arg == Slashes(k);
    } else {
      var c, rest := arg[0], arg[1..];
      assert arg == [c] + rest;
      PlainFront(c, rest);
      Assoc([c], rest, tail);
      if c == '\\' {
        PlainParsesBack(rest, k + 1, tail);
        SlashMoves(rest, k);
        Front(c, rest + tail);
      } else {
        PlainParsesBack(rest, 0, tail);
        assert Slashes(0) + rest == rest;
        OrdinaryStep(k, c, rest + tail, false, rest, tail);
      }
    }
  }

  /** Any argument at all is read back as itself. */
  lemma ArgRoundTrip(arg: string, tail: string)
    requires IsTail(tail)
    ensures Quote(arg) != [] && !IsSpace(Quote(arg)[0])
    ensures ParseArg(Quote(arg) + tail, false, 0) == (arg, tail)
  {
    if NeedsQuotes(arg) {
      QuotedParsesBack(arg, 0, tail);
      Assoc("\"", QuoteFrom(arg, 0), tail);
      Front('"', QuoteFrom(arg, 0) + tail);
      assert Slashes(0) + arg == arg && Slashes(0) + arg == [] + arg;
    } else {
      PlainParsesBack(arg, 0, tail);
      assert arg == [arg[0]] + arg[1..];
      PlainFront(arg[0], arg[1..]);
      assert Slashes(0) + arg == arg;
    }
  }

  // ---------- the argument list ----------

  /** The arguments from the front, as the parser meets them. */
  function ArgumentsFrom(args: seq<string>): string {
    if args == [] then [] else " " + (Quote(args[0]) + ArgumentsFrom(args[1..]))
  }

  lemma {:induction false} ArgumentsFromFront(args: seq<string>)
    ensures Arguments(args) == ArgumentsFrom(args)
    decreases |args|
  {
    if |args| > 1 {
      var init, last := args[..|args| - 1], args[|args| - 1];
      ArgumentsFromFront(init);
      ArgumentsFromFront(args[1..]);
      ArgumentsFromFront(args[1..][..|args| - 2]);
      assert init[1..] == args[1..][..|args| - 2];
      assert args[1..][|args| - 2] == last;
      var first, middle, end := Quote(args[0]), Arguments(init[1..]), " " + Quote(last);
      calc {
        Arguments(args);
        " " + (first + middle) + end;
        { Assoc(" ", first + middle, end); Assoc(first, middle, end); }
        " " + (first + (middle + end));
        ArgumentsFrom(args);
      }
    } else if |args| == 1 {
      assert args[..0] == [] && args[1..] == [];
      assert [] + (" " + Quote(args[0])) == " " + (Quote(args[0]) + []);
    }
  }

  /** One argument off the front. */
  lemma FirstArg(arg: string, tail: string)
    requires IsTail(tail)
    ensures ParseArgs(" " + (Quote(arg) + tail)) == [arg] + ParseArgs(tail)
  {
    ArgRoundTrip(arg, tail);
    var s := Quote(arg) + tail;
    Front(' ', s);
    assert s[0] == Quote(arg)[0];
    assert SkipSpace(" " + s) == SkipSpace(s) == s;
  }

  lemma {:induction false} ArgsRoundTrip(args: seq<string>)
    ensures IsTail(ArgumentsFrom(args)) && ParseArgs(ArgumentsFrom(args)) == args
  {
    if args != [] {
      ArgsRoundTrip(args[1..]);
      FirstArg(args[0], ArgumentsFrom(args[1..]));
      assert args == [args[0]] + args[1..];
    }
  }

  // ---------- the program name ----------

  /** How many backslashes are pending at the end. */
  function Pending(s: string, k: nat): nat {
    if s == [] then k else if s[0] == '\\' then Pending(s[1..], k + 1) else Pending(s[1..], 0)
  }

  lemma {:induction false} PendingMeaning(s: string, k: nat)
    ensures s != [] ==> (Pending(s, k) > 0 <==> s[|s| - 1] == '\\')
    ensures s == [] ==> Pending(s, k) == k
  {
    if s != [] { PendingMeaning(s[1..], if s[0] == '\\' then k + 1 else 0); }
  }

  /** Without quotes inside, quoting only repeats the backslashes at the end. */
  lemma {:induction false} QuoteFromPlain(s: string, k: nat)
    requires '"' !in s
    ensures QuoteFrom(s, k) == Slashes(k) + (s + (Slashes(Pending(s, k)) + "\""))
    decreases |s|
  {
    if s == [] {
      SlashesSum(k, k);
      Assoc(Slashes(k), Slashes(k), "\"");
      assert s + (Slashes(k) + "\"") == Slashes(k) + "\"";
    } else {
      var c, rest := s[0], s[1..];
      assert s == [c] + rest;
      if c == '\\' {
        QuoteFromPlain(rest, k + 1);
        PlainTail(c, rest, k, Slashes(Pending(s, k)) + "\"");
      } else {
        QuoteFromPlain(rest, 0);
        PlainTail(c, rest, k, Slashes(Pending(s, k)) + "\"");
      }
    }
  }

  lemma PlainTail(c: char, rest: string, k: nat, end: string)
    ensures c == '\\' ==> Slashes(k + 1) + (rest + end) == Slashes(k) + ([c] + rest + end)
    ensures Slashes(k) + [c] + (Slashes(0) + (rest + end)) == Slashes(k) + ([c] + rest + end)
  {
    Assoc([c], rest, end);
    assert Slashes(0) + (rest + end) == rest + end;
    Assoc(Slashes(k), [c], rest + end);
    if c == '\\' { SlashMoves(rest + end, k); }
  }

  lemma {:induction false} SlashesSum(a: nat, b: nat)
    ensures Slashes(a + b) == Slashes(a) + Slashes(b)
  {
    if a > 0 { SlashesSum(a - 1, b); }
  }

  lemma {:induction false} SlashesPlain(n: nat)
    ensures |Slashes(n)| == n && '"' !in Slashes(n)
  {
    if n > 0 { SlashesPlain(n - 1); }
  }

  lemma {:induction false} UpToQuoteStops(text: string, rest: string)
    requires '"' !in text
    ensures UpToQuote(text + "\"" + rest) == (text, rest)
  {
    var s := text + "\"" + rest;
    if text == [] {
      assert s[1..] == rest;
    } else {
      assert text[0] in text && text == [text[0]] + text[1..];
      assert s[0] == text[0] && s[1..] == text[1..] + "\"" + rest;
      UpToQuoteStops(text[1..], rest);
    }
  }

  lemma {:induction false} UpToQuotePlain(s: string)
    ensures '"' !in UpToQuote(s).0
  {
    if s != [] && s[0] != '"' { UpToQuotePlain(s[1..]); }
  }

  lemma {:induction false} UpToSpaceStops(text: string, tail: string)
    requires IsTail(tail) && ' ' !in text && '\t' !in text
    ensures UpToSpace(text + tail) == (text, tail)
  {
    if text == [] {
      assert text + tail == tail;
    } else {
      assert text[0] in text && text == [text[0]] + text[1..];
      assert (text + tail)[0] == text[0] && (text + tail)[1..] == text[1..] + tail;
      UpToSpaceStops(text[1..], tail);
    }
  }

  /** A program name survives when it holds no quote and, if it has to be quoted, does not end
      in a backslash (which the quoting doubles, and the parser does not halve). */
  predicate ProgramSurvives(exe: string) {
    '"' !in exe && !(NeedsQuotes(exe) && exe != [] && exe[|exe| - 1] == '\\')
  }

  lemma QuotedProgram(exe: string, tail: string)
    requires NeedsQuotes(exe) && '"' !in exe
    ensures var line := Quote(exe) + tail;
            && line != [] && line[0] == '"'
            && UpToQuote(line[1..]) == (exe + Slashes(Pending(exe, 0)), tail)
  {
    var p := Slashes(Pending(exe, 0));
    QuoteFromPlain(exe, 0);
    SlashesPlain(Pending(exe, 0));
    Assoc(exe, p, "\"");
    assert QuoteFrom(exe, 0) == exe + p + "\"";
    Assoc("\"", QuoteFrom(exe, 0), tail);
    Front('"', QuoteFrom(exe, 0) + tail);
    UpToQuoteStops(exe + p, tail);
  }

  /** The command line round trip. Parsing what is built gives back the program and the
      arguments, for every argument list whatsoever, exactly when the program name survives. */
  lemma CommandLineRoundTrip(exe: string, args: seq<string>)
    ensures Parse(Build(exe, args)) == [exe] + args <==> ProgramSurvives(exe)
  {
    var tail := ArgumentsFrom(args);
    ArgumentsFromFront(args);
    ArgsRoundTrip(args);
    var line := Build(exe, args);
    assert line == Quote(exe) + tail;
    if '"' in exe {
      UpToQuotePlain(line[1..]);
      assert Parse(line)[0] != exe;
    } else if NeedsQuotes(exe) {
      QuotedProgram(exe, tail);
      PendingMeaning(exe, 0);
      SlashesPlain(Pending(exe, 0));
      var p := Slashes(Pending(exe, 0));
      assert Parse(line) == [exe + p] + args;
      if Pending(exe, 0) == 0 {
        assert exe + p == exe;
      } else {
        assert |exe + p| > |exe|;
        assert Parse(line)[0] != exe;
      }
    } else {
      UpToSpaceStops(exe, tail);
      assert line[0] != '"';
    }
  }
}
