/** The command line printer of `common/BuildCommandLine.hpp`, and the parser it is
    the inverse of: `CommandLineToArgvW`, as the remarks of its documentation at
    Microsoft describe it. */
module CommandLine {

  const BACKSLASH := '\\'
  const QUOTE := '"'

  predicate IsBlank(c: char) {
    c == ' ' || c == '\t'
  }

  /** The characters that make the printer put an argument in quotes. */
  predicate ForcesQuotes(c: char) {
    IsBlank(c) || c == QUOTE
  }

  function Backslashes(n: nat): (s: string)
    ensures |s| == n
    ensures forall i :: 0 <= i < n ==> s[i] == BACKSLASH
  {
    if n == 0 then "" else [BACKSLASH] + Backslashes(n - 1)
  }

  // ----- the printer

  predicate PrintedPlain(arg: string) {
    arg != "" && forall i :: 0 <= i < |arg| ==> !ForcesQuotes(arg[i])
  }

  /** What the printer puts between the quotes for `arg`, when it has already walked
      over a run of `slashes` backslashes. */
  function Escaped(arg: string, slashes: nat): string {
    if arg == "" then Backslashes(2 * slashes)
    else if arg[0] == BACKSLASH then Escaped(arg[1..], slashes + 1)
    else if arg[0] == QUOTE then Backslashes(2 * slashes + 1) + [QUOTE] + Escaped(arg[1..], 0)
    else Backslashes(slashes) + [arg[0]] + Escaped(arg[1..], 0)
  }

  function Quoted(arg: string): string {
    if PrintedPlain(arg) then arg else [QUOTE] + Escaped(arg, 0) + [QUOTE]
  }

  function PrintedArguments(args: seq<string>): string {
    if args == [] then "" else " " + Quoted(args[0]) + PrintedArguments(args[1..])
  }

  function Printed(exe: string, args: seq<string>): string {
    Quoted(exe) + PrintedArguments(args)
  }

  /** `std::wstring::find_first_of(L" \t\"") == npos` on a non-empty text. */
  method NeedsNoQuotes(arg: string) returns (plain: bool)
    ensures plain == PrintedPlain(arg)
  {
    if arg == "" {
      return false;
    }
    for i := 0 to |arg|
      invariant forall k :: 0 <= k < i ==> !ForcesQuotes(arg[k])
    {
      if ForcesQuotes(arg[i]) {
        return false;
      }
    }
    return true;
  }

  method QuoteArgument(arg: string) returns (quoted: string)
    ensures quoted == Quoted(arg)
  {
    var plain := NeedsNoQuotes(arg);
    if plain {
      return arg;
    }

    hide Escaped, Backslashes;
    quoted := [QUOTE];
    var it := 0;
    assert arg[0..] == arg;
    while true
      invariant 0 <= it <= |arg|
      invariant quoted + Escaped(arg[it..], 0) == [QUOTE] + Escaped(arg, 0)
      decreases |arg| - it
    {
      var slashes := 0;
      while it < |arg| && arg[it] == BACKSLASH
        invariant 0 <= it <= |arg|
        invariant quoted + Escaped(arg[it..], slashes) == [QUOTE] + Escaped(arg, 0)
      {
        EscapedAt(quoted, arg, it, slashes);
        it := it + 1;
        slashes := slashes + 1;
      }

      EscapedAt(quoted, arg, it, slashes);
      if it == |arg| {
        quoted := quoted + Backslashes(slashes * 2);
        break;
      } else if arg[it] == QUOTE {
        quoted := quoted + Backslashes(slashes * 2 + 1);
        quoted := quoted + [arg[it]];
      } else {
        quoted := quoted + Backslashes(slashes);
        quoted := quoted + [arg[it]];
      }
      it := it + 1;
    }
    quoted := quoted + [QUOTE];
  }

  lemma EscapedAt(quoted: string, arg: string, it: nat, slashes: nat)
    requires it <= |arg|
    ensures quoted + Escaped(arg[it..], slashes) ==
            if it == |arg| then quoted + Backslashes(slashes * 2)
            else if arg[it] == BACKSLASH then quoted + Escaped(arg[it + 1..], slashes + 1)
            else
              var n := if arg[it] == QUOTE then slashes * 2 + 1 else slashes;
              quoted + Backslashes(n) + [arg[it]] + Escaped(arg[it + 1..], 0)
  {
    hide Backslashes;
    if it < |arg| {
      assert arg[it..][1..] == arg[it + 1..];
      var n := if arg[it] == QUOTE then slashes * 2 + 1 else slashes;
      Associates(quoted, Backslashes(n), [arg[it]], Escaped(arg[it + 1..], 0));
    }
  }

  method BuildCommandLine(exe: string, args: seq<string>) returns (cmdline: string)
    ensures cmdline == Printed(exe, args)
  {
    hide Quoted, PrintedArguments;
    cmdline := QuoteArgument(exe);
    assert args[0..] == args;
    for i := 0 to |args|
      invariant cmdline + PrintedArguments(args[i..]) == Printed(exe, args)
    {
      PrintedStep(cmdline, args, i);
      cmdline := cmdline + " ";
      var quoted := QuoteArgument(args[i]);
      cmdline := cmdline + quoted;
    }
    PrintedEnd(cmdline, args);
  }

  lemma PrintedStep(cmdline: string, args: seq<string>, i: nat)
    requires i < |args|
    ensures cmdline + PrintedArguments(args[i..]) == cmdline + " " + Quoted(args[i]) + PrintedArguments(args[i + 1..])
  {
    hide Quoted;
    assert args[i..][1..] == args[i + 1..];
    Associates(cmdline, " ", Quoted(args[i]), PrintedArguments(args[i + 1..]));
  }

  lemma Associates(a: string, b: string, c: string, d: string)
    ensures a + (b + c + d) == a + b + c + d
  {
  }

  lemma PrintedEnd(cmdline: string, args: seq<string>)
    ensures cmdline + PrintedArguments(args[|args|..]) == cmdline
  {
  }

  // ----- the parser

  /** The readings of a quote that stands inside quotes directly before another quote.
      The documented rules do not name the case, and the implementations differ. */
  datatype DoubledQuote =
    | CloseThenOpen       // two ordinary quotes
    | LiteralStayQuoted   // a literal quote, the quoted part goes on
    | LiteralEndQuoted    // a literal quote, the quoted part ends

  datatype Token = Token(arg: string, rest: string)

  /** One argument after the first. `slashes` is the run of backslashes directly before
      `text`, whose meaning the next character decides. */
  function ParseArgument(rule: DoubledQuote, text: string, quoted: bool, arg: string, slashes: nat): (t: Token)
    ensures |t.rest| <= |text|
    ensures t.rest == "" || IsBlank(t.rest[0])
    decreases |text|
  {
    if text == "" then
      Token(arg + Backslashes(slashes), "")
    else if text[0] == BACKSLASH then
      ParseArgument(rule, text[1..], quoted, arg, slashes + 1)
    else if text[0] == QUOTE then
      var halved := arg + Backslashes(slashes / 2);
      if slashes % 2 == 1 then
        ParseArgument(rule, text[1..], quoted, halved + [QUOTE], 0)
      else if quoted && |text| > 1 && text[1] == QUOTE && !rule.CloseThenOpen? then
        ParseArgument(rule, text[2..], rule.LiteralStayQuoted?, halved + [QUOTE], 0)
      else
        ParseArgument(rule, text[1..], !quoted, halved, 0)
    else if !quoted && IsBlank(text[0]) then
      Token(arg + Backslashes(slashes), text)
    else
      ParseArgument(rule, text[1..], quoted, arg + Backslashes(slashes) + [text[0]], 0)
  }

  function SkipBlanks(text: string): (rest: string)
    ensures |rest| <= |text|
    ensures text != "" && IsBlank(text[0]) ==> |rest| < |text|
  {
    if text != "" && IsBlank(text[0]) then SkipBlanks(text[1..]) else text
  }

  /** The arguments of a text that starts at the end of the previous argument. */
  function ParseArguments(rule: DoubledQuote, text: string): seq<string>
    requires text == "" || IsBlank(text[0])
    decreases |text|
  {
    var rest := SkipBlanks(text);
    if rest == "" then []
    else
      var t := ParseArgument(rule, rest, false, "", 0);
      [t.arg] + ParseArguments(rule, t.rest)
  }

  function UpTo(text: string, stop: char -> bool): (n: nat)
    ensures n <= |text|
    ensures forall i :: 0 <= i < n ==> !stop(text[i])
    ensures n < |text| ==> stop(text[n])
  {
    if text == "" || stop(text[0]) then 0 else 1 + UpTo(text[1..], stop)
  }

  /** The program name has a rule of its own: backslashes mean nothing, a quoted name ends
      at the next quote, and a plain one at the first character up to a space. */
  function ParseProgram(text: string): Token {
    if text != "" && text[0] == QUOTE then
      var n := UpTo(text[1..], c => c == QUOTE);
      if n == |text| - 1 then Token(text[1..], "") else Token(text[1..n + 1], text[n + 2..])
    else
      var n := UpTo(text, c => c <= ' ');
      Token(text[..n], text[n..])
  }

  /** Text directly behind the closing quote of the program name starts the next argument. */
  function AfterProgram(rest: string): (r: string)
    ensures r == "" || IsBlank(r[0])
  {
    if rest == "" || IsBlank(rest[0]) then rest else " " + rest
  }

  /** The text a null character ends, which is all that a `LPCWSTR` carries. */
  function CString(text: string): (s: string)
  {
    text[..UpTo(text, c => c == '\0')]
  }

  function CommandLineToArgv(rule: DoubledQuote, cmdline: string): seq<string> {
    var program := ParseProgram(CString(cmdline));
    [program.arg] + ParseArguments(rule, AfterProgram(program.rest))
  }
}
