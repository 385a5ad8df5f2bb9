/** `CommandLineToArgvW` reads back what `BuildCommandLine` prints: for every argument list,
    for every reading of a doubled quote, and for exactly the program names the rule of the
    program name can express. */
module CommandLineRoundTrip {
  import opened CommandLine
  import TextSplit

  predicate EndsArgument(rest: string) {
    rest == "" || IsBlank(rest[0])
  }

  lemma BackslashesAdd(m: nat, n: nat)
    ensures Backslashes(m) + Backslashes(n) == Backslashes(m + n)
  {
  }

  lemma {:induction false} ParseBackslashes(rule: DoubledQuote, n: nat, text: string, quoted: bool, arg: string, m: nat)
    ensures ParseArgument(rule, Backslashes(n) + text, quoted, arg, m) == ParseArgument(rule, text, quoted, arg, m + n)
  {
    if n == 0 {
      assert Backslashes(0) + text == text;
    } else {
      assert (Backslashes(n) + text)[1..] == Backslashes(n - 1) + text;
      ParseBackslashes(rule, n - 1, text, quoted, arg, m + 1);
    }
  }

  /** An argument the printer leaves alone is read as it stands. */
  lemma {:induction false} ParsePlain(rule: DoubledQuote, a: string, rest: string, arg: string, m: nat)
    requires forall i :: 0 <= i < |a| ==> !ForcesQuotes(a[i])
    requires EndsArgument(rest)
    ensures ParseArgument(rule, a + rest, false, arg, m) == Token(arg + Backslashes(m) + a, rest)
  {
    if a == "" {
      assert a + rest == rest;
      assert arg + Backslashes(m) + a == arg + Backslashes(m);
    } else {
      assert (a + rest)[1..] == a[1..] + rest;
      if a[0] == BACKSLASH {
        ParsePlain(rule, a[1..], rest, arg, m + 1);
        MoveBackslash(arg, m, a);
      } else {
        ParsePlain(rule, a[1..], rest, arg + Backslashes(m) + [a[0]], 0);
        MoveFirst(arg + Backslashes(m), a);
      }
    }
  }

  // One character of the escaped form, behind the backslashes that belong to it.

  lemma ParseClosingQuote(rule: DoubledQuote, k: nat, rest: string, arg: string)
    requires EndsArgument(rest)
    ensures ParseArgument(rule, [QUOTE] + rest, true, arg, 2 * k) == Token(arg + Backslashes(k), rest)
  {
    var halved := arg + Backslashes(k);
    assert (2 * k) / 2 == k && (2 * k) % 2 == 0;
    var text := [QUOTE] + rest;
    assert text[1..] == rest;
    assert |text| > 1 ==> text[1] != QUOTE;
    assert ParseArgument(rule, rest, false, halved, 0) == Token(halved, rest) by {
      assert halved + Backslashes(0) == halved;
    }
  }

  lemma ParseOpeningQuote(rule: DoubledQuote, text: string)
    ensures ParseArgument(rule, [QUOTE] + text, false, "", 0) == ParseArgument(rule, text, true, "", 0)
  {
    assert ([QUOTE] + text)[1..] == text;
    assert "" + Backslashes(0) == "";
  }

  lemma ParseEscapedQuote(rule: DoubledQuote, k: nat, text: string, arg: string)
    ensures ParseArgument(rule, [QUOTE] + text, true, arg, 2 * k + 1)
            == ParseArgument(rule, text, true, arg + Backslashes(k) + [QUOTE], 0)
  {
    assert ([QUOTE] + text)[1..] == text;
  }

  lemma ParseOrdinary(rule: DoubledQuote, c: char, k: nat, text: string, arg: string)
    requires c != BACKSLASH && c != QUOTE
    ensures ParseArgument(rule, [c] + text, true, arg, k)
            == ParseArgument(rule, text, true, arg + Backslashes(k) + [c], 0)
  {
    assert ([c] + text)[1..] == text;
  }

  lemma Regroup(w: string, x: string, y: string, z: string)
    ensures w + x + y + z == w + (x + (y + z))
  {
  }

  lemma MoveFirst(read: string, a: string)
    requires a != ""
    ensures read + [a[0]] + Backslashes(0) + a[1..] == read + a
  {
  }

  lemma MoveBackslash(arg: string, k: nat, a: string)
    requires a != "" && a[0] == BACKSLASH
    ensures arg + Backslashes(k + 1) + a[1..] == arg + Backslashes(k) + a
  {
    BackslashesAdd(k, 1);
    assert Backslashes(1) == [BACKSLASH];
  }

  /** The escaped form starts with the backslashes walked over and the character behind them. */
  lemma EscapedStep(a: string, k: nat, close: string)
    requires a != "" && a[0] != BACKSLASH
    ensures var n := if a[0] == QUOTE then 2 * k + 1 else k;
            Escaped(a, k) + close == Backslashes(n) + ([a[0]] + (Escaped(a[1..], 0) + close))
  {
    var n := if a[0] == QUOTE then 2 * k + 1 else k;
    Regroup(Backslashes(n), [a[0]], Escaped(a[1..], 0), close);
  }

  lemma ParseEscapedStep(rule: DoubledQuote, a: string, k: nat, close: string, arg: string)
    requires a != "" && a[0] != BACKSLASH
    ensures ParseArgument(rule, Escaped(a, k) + close, true, arg, 0)
            == ParseArgument(rule, Escaped(a[1..], 0) + close, true, arg + Backslashes(k) + [a[0]], 0)
  {
    var tail := Escaped(a[1..], 0) + close;
    var n := if a[0] == QUOTE then 2 * k + 1 else k;
    EscapedStep(a, k, close);
    ParseBackslashes(rule, n, [a[0]] + tail, true, arg, 0);
    if a[0] == QUOTE {
      ParseEscapedQuote(rule, k, tail, arg);
    } else {
      ParseOrdinary(rule, a[0], k, tail, arg);
    }
  }

  lemma EscapedEnds(a: string, k: nat)
    ensures a == "" ==> Escaped(a, k) == Backslashes(2 * k)
    ensures a != "" && a[0] == BACKSLASH ==> Escaped(a, k) == Escaped(a[1..], k + 1)
  {
  }

  /** The escaped form, read inside quotes and up to the quote that closes it. */
  lemma {:induction false} ParseEscaped(rule: DoubledQuote, a: string, k: nat, rest: string, arg: string)
    requires EndsArgument(rest)
    ensures ParseArgument(rule, Escaped(a, k) + ([QUOTE] + rest), true, arg, 0) == Token(arg + Backslashes(k) + a, rest)
    decreases |a|
  {
    hide ParseArgument, Escaped;
    EscapedEnds(a, k);
    if a == "" {
      ParseBackslashes(rule, 2 * k, [QUOTE] + rest, true, arg, 0);
      ParseClosingQuote(rule, k, rest, arg);
      assert arg + Backslashes(k) == arg + Backslashes(k) + a;
    } else if a[0] == BACKSLASH {
      ParseEscaped(rule, a[1..], k + 1, rest, arg);
      MoveBackslash(arg, k, a);
    } else {
      ParseEscapedStep(rule, a, k, [QUOTE] + rest, arg);
      var next := arg + Backslashes(k) + [a[0]];
      ParseEscaped(rule, a[1..], 0, rest, next);
      MoveFirst(arg + Backslashes(k), a);
    }
  }

  lemma ParseQuoted(rule: DoubledQuote, arg: string, rest: string)
    requires EndsArgument(rest)
    ensures ParseArgument(rule, Quoted(arg) + rest, false, "", 0) == Token(arg, rest)
  {
    if PrintedPlain(arg) {
      ParsePlain(rule, arg, rest, "", 0);
    } else {
      var body := Escaped(arg, 0) + ([QUOTE] + rest);
      assert Quoted(arg) + rest == [QUOTE] + body;
      ParseOpeningQuote(rule, body);
      ParseEscaped(rule, arg, 0, rest, "");
    }
  }

  lemma QuotedStartsAnArgument(arg: string)
    ensures Quoted(arg) != "" && !IsBlank(Quoted(arg)[0])
  {
  }

  lemma SkipOneBlank(text: string)
    requires text != "" && !IsBlank(text[0])
    ensures SkipBlanks(" " + text) == text
  {
    assert (" " + text)[1..] == text;
  }

  lemma ParseOneMore(rule: DoubledQuote, arg: string, rest: string)
    requires EndsArgument(rest)
    ensures ParseArguments(rule, " " + Quoted(arg) + rest) == [arg] + ParseArguments(rule, rest)
  {
    QuotedStartsAnArgument(arg);
    SkipOneBlank(Quoted(arg) + rest);
    assert " " + Quoted(arg) + rest == " " + (Quoted(arg) + rest);
    ParseQuoted(rule, arg, rest);
  }

  /** Any argument list survives, whatever its arguments hold. */
  lemma {:induction false} ArgumentsRoundTrip(rule: DoubledQuote, args: seq<string>)
    ensures EndsArgument(PrintedArguments(args))
    ensures ParseArguments(rule, PrintedArguments(args)) == args
  {
    if args != [] {
      ArgumentsRoundTrip(rule, args[1..]);
      ParseOneMore(rule, args[0], PrintedArguments(args[1..]));
    }
  }

  // ----- the program name

  predicate QuoteFree(text: string) {
    forall i :: 0 <= i < |text| ==> text[i] != QUOTE
  }

  /** What a caller has to know about the program name: it holds no quote, and it either needs
      quotes and does not end in a backslash, or needs none and holds no control character. */
  predicate ProgramSurvives(exe: string) {
    && QuoteFree(exe)
    && if PrintedPlain(exe) then forall i :: 0 <= i < |exe| ==> exe[i] > ' '
       else exe == "" || exe[|exe| - 1] != BACKSLASH
  }

  lemma {:induction false} UpToFirst(text: string, stop: char -> bool, n: nat)
    requires n <= |text|
    requires forall i :: 0 <= i < n ==> !stop(text[i])
    requires n < |text| ==> stop(text[n])
    ensures UpTo(text, stop) == n
  {
    assert UpTo(text, stop) >= n;
  }

  lemma {:induction false} EscapedQuoteFree(a: string, k: nat)
    requires QuoteFree(a)
    ensures QuoteFree(Escaped(a, k))
    decreases |a|
  {
    if a != "" {
      EscapedQuoteFree(a[1..], if a[0] == BACKSLASH then k + 1 else 0);
    }
  }

  lemma EscapedOrdinary(a: string, k: nat)
    requires a != "" && a[0] != BACKSLASH && a[0] != QUOTE
    ensures Escaped(a, k) == Backslashes(k) + [a[0]] + Escaped(a[1..], 0)
  {
  }

  lemma NoBackslashes(a: string)
    ensures Backslashes(0) + a == a && Escaped("", 0) == ""
  {
  }

  lemma MoreBackslashes(k: nat)
    ensures Backslashes(2 * k) == Backslashes(k) + "" <==> k == 0
  {
  }

  lemma EmptyFront(a: string, b: string)
    ensures "" + a + b == a + b
  {
  }

  /** Without a quote in it, the escaped form only doubles the trailing backslashes. */
  lemma {:induction false} EscapedWithoutQuote(a: string, k: nat)
    requires QuoteFree(a)
    ensures Escaped(a, k) == Backslashes(k) + a
            <==> if a == "" then k == 0 else a[|a| - 1] != BACKSLASH
    decreases |a|, 1
  {
    hide Escaped, Backslashes;
    EscapedEnds(a, k);
    if a == "" {
      MoreBackslashes(k);
    } else if a[0] == BACKSLASH {
      EscapedWithoutQuote(a[1..], k + 1);
      MoveBackslash("", k, a);
      EmptyFront(Backslashes(k + 1), a[1..]);
      EmptyFront(Backslashes(k), a);
    } else {
      EscapedWithoutQuoteStep(a, k);
    }
  }

  lemma {:induction false} EscapedWithoutQuoteStep(a: string, k: nat)
    requires a != "" && a[0] != BACKSLASH && QuoteFree(a)
    ensures Escaped(a, k) == Backslashes(k) + a <==> a[|a| - 1] != BACKSLASH
    decreases |a|, 0
  {
    hide Escaped, Backslashes;
    EscapedWithoutQuote(a[1..], 0);
    NoBackslashes(a[1..]);
    EscapedOrdinary(a, k);
    SameFront(Backslashes(k) + [a[0]], Escaped(a[1..], 0), a[1..]);
    assert Backslashes(k) + a == Backslashes(k) + [a[0]] + a[1..];
  }

  lemma SameFront(front: string, x: string, y: string)
    ensures front + x == front + y <==> x == y
  {
    assert x == (front + x)[|front|..] && y == (front + y)[|front|..];
  }

  lemma ParsePlainProgram(exe: string, rest: string)
    requires PrintedPlain(exe) && EndsArgument(rest)
    ensures ParseProgram(Quoted(exe) + rest).arg == exe <==> forall i :: 0 <= i < |exe| ==> exe[i] > ' '
    ensures ParseProgram(Quoted(exe) + rest).arg == exe ==> ParseProgram(Quoted(exe) + rest).rest == rest
  {
    var text := exe + rest;
    var stop := (c: char) => c <= ' ';
    var n := UpTo(text, stop);
    assert ParseProgram(text) == Token(text[..n], text[n..]);
    if forall i :: 0 <= i < |exe| ==> exe[i] > ' ' {
      UpToFirst(text, stop, |exe|);
    } else {
      var i :| 0 <= i < |exe| && exe[i] <= ' ';
      assert stop(text[i]);
    }
  }

  lemma ParseQuotedText(text: string, body: string, rest: string)
    requires text == [QUOTE] + body + [QUOTE] + rest
    ensures var t := ParseProgram(text);
            && QuoteFree(t.arg) && (QuoteFree(body) ==> t == Token(body, rest))
  {
    var stop := (c: char) => c == QUOTE;
    var tail := text[1..];
    assert tail == body + [QUOTE] + rest;
    assert stop(tail[|body|]);
    var n := UpTo(tail, stop);
    assert ParseProgram(text).arg == tail[..n];
    if QuoteFree(body) {
      UpToFirst(tail, stop, |body|);
      assert tail[..n] == body && text[n + 2..] == rest;
    }
  }

  lemma ParseQuotedProgram(exe: string, rest: string)
    requires !PrintedPlain(exe) && EndsArgument(rest)
    ensures ParseProgram(Quoted(exe) + rest).arg == exe <==> ProgramSurvives(exe)
    ensures ParseProgram(Quoted(exe) + rest).arg == exe ==> ParseProgram(Quoted(exe) + rest).rest == rest
  {
    ParseQuotedText(Quoted(exe) + rest, Escaped(exe, 0), rest);
    if QuoteFree(exe) {
      EscapedQuoteFree(exe, 0);
      EscapedWithoutQuote(exe, 0);
      assert Backslashes(0) + exe == exe;
    }
  }

  lemma ParseProgramExactly(exe: string, rest: string)
    requires EndsArgument(rest)
    ensures ParseProgram(Quoted(exe) + rest).arg == exe <==> ProgramSurvives(exe)
    ensures ProgramSurvives(exe) ==> ParseProgram(Quoted(exe) + rest) == Token(exe, rest)
  {
    if PrintedPlain(exe) {
      ParsePlainProgram(exe, rest);
    } else {
      ParseQuotedProgram(exe, rest);
    }
  }

  // ----- null characters

  predicate NulFree(text: string) {
    forall i :: 0 <= i < |text| ==> text[i] != '\0'
  }

  predicate AllNulFree(texts: seq<string>) {
    forall i :: 0 <= i < |texts| ==> NulFree(texts[i])
  }

  lemma ConcatNulFree(a: string, b: string)
    ensures NulFree(a + b) <==> NulFree(a) && NulFree(b)
  {
    assert forall i :: 0 <= i < |a| ==> (a + b)[i] == a[i];
    assert forall i :: 0 <= i < |b| ==> (a + b)[|a| + i] == b[i];
  }

  lemma HeadNulFree(a: string)
    requires a != ""
    ensures NulFree(a) <==> a[0] != '\0' && NulFree(a[1..])
  {
    assert a == [a[0]] + a[1..];
    ConcatNulFree([a[0]], a[1..]);
  }

  lemma {:induction false} EscapedNulFree(a: string, k: nat)
    ensures NulFree(Escaped(a, k)) <==> NulFree(a)
    decreases |a|
  {
    if a == "" {
    } else if a[0] == BACKSLASH {
      HeadNulFree(a);
      EscapedNulFree(a[1..], k + 1);
    } else {
      HeadNulFree(a);
      EscapedNulFree(a[1..], 0);
      var front := Backslashes(if a[0] == QUOTE then 2 * k + 1 else k) + [a[0]];
      assert Escaped(a, k) == front + Escaped(a[1..], 0);
      ConcatNulFree(front, Escaped(a[1..], 0));
      assert NulFree(front) <==> a[0] != '\0' by {
        assert front[|front| - 1] == a[0];
      }
    }
  }

  lemma QuotedNulFree(a: string)
    ensures NulFree(Quoted(a)) <==> NulFree(a)
  {
    if !PrintedPlain(a) {
      EscapedNulFree(a, 0);
      ConcatNulFree([QUOTE] + Escaped(a, 0), [QUOTE]);
      ConcatNulFree([QUOTE], Escaped(a, 0));
    }
  }

  lemma {:induction false} PrintedArgumentsNulFree(args: seq<string>)
    ensures NulFree(PrintedArguments(args)) <==> AllNulFree(args)
  {
    if args != [] {
      QuotedNulFree(args[0]);
      PrintedArgumentsNulFree(args[1..]);
      ConcatNulFree(" " + Quoted(args[0]), PrintedArguments(args[1..]));
      ConcatNulFree(" ", Quoted(args[0]));
      assert AllNulFree(args) <==> NulFree(args[0]) && AllNulFree(args[1..]) by {
        assert forall i :: 0 < i < |args| ==> args[i] == args[1..][i - 1];
      }
    }
  }

  lemma PrintedNulFree(exe: string, args: seq<string>)
    ensures NulFree(Printed(exe, args)) <==> NulFree(exe) && AllNulFree(args)
  {
    QuotedNulFree(exe);
    PrintedArgumentsNulFree(args);
    ConcatNulFree(Quoted(exe), PrintedArguments(args));
  }

  lemma CStringIsNulFree(text: string)
    ensures NulFree(CString(text))
    ensures NulFree(text) ==> CString(text) == text
  {
  }

  /** Nothing the parser returns holds a character that was not in the text. */
  lemma {:induction false} ParseArgumentNulFree(rule: DoubledQuote, text: string, quoted: bool, arg: string, slashes: nat)
    requires NulFree(text) && NulFree(arg)
    ensures NulFree(ParseArgument(rule, text, quoted, arg, slashes).arg)
    ensures NulFree(ParseArgument(rule, text, quoted, arg, slashes).rest)
    decreases |text|
  {
    if text == "" {
    } else if text[0] == BACKSLASH {
      ParseArgumentNulFree(rule, text[1..], quoted, arg, slashes + 1);
    } else if text[0] == QUOTE {
      var halved := arg + Backslashes(slashes / 2);
      if slashes % 2 == 1 {
        ParseArgumentNulFree(rule, text[1..], quoted, halved + [QUOTE], 0);
      } else if quoted && |text| > 1 && text[1] == QUOTE && !rule.CloseThenOpen? {
        ParseArgumentNulFree(rule, text[2..], rule.LiteralStayQuoted?, halved + [QUOTE], 0);
      } else {
        ParseArgumentNulFree(rule, text[1..], !quoted, halved, 0);
      }
    } else if !quoted && IsBlank(text[0]) {
    } else {
      ParseArgumentNulFree(rule, text[1..], quoted, arg + Backslashes(slashes) + [text[0]], 0);
    }
  }

  lemma {:induction false} SkipBlanksNulFree(text: string)
    requires NulFree(text)
    ensures NulFree(SkipBlanks(text))
  {
    if text != "" && IsBlank(text[0]) {
      SkipBlanksNulFree(text[1..]);
    }
  }

  lemma {:induction false} ParseArgumentsNulFree(rule: DoubledQuote, text: string)
    requires EndsArgument(text) && NulFree(text)
    ensures AllNulFree(ParseArguments(rule, text))
    decreases |text|
  {
    SkipBlanksNulFree(text);
    var rest := SkipBlanks(text);
    if rest != "" {
      ParseArgumentNulFree(rule, rest, false, "", 0);
      ParseArgumentsNulFree(rule, ParseArgument(rule, rest, false, "", 0).rest);
    }
  }

  lemma ParseProgramNulFree(text: string)
    requires NulFree(text)
    ensures NulFree(ParseProgram(text).arg) && NulFree(AfterProgram(ParseProgram(text).rest))
  {
  }

  lemma ArgvIsNulFree(rule: DoubledQuote, cmdline: string)
    ensures AllNulFree(CommandLineToArgv(rule, cmdline))
  {
    var program := ParseProgram(CString(cmdline));
    CStringIsNulFree(cmdline);
    ParseProgramNulFree(CString(cmdline));
    ParseArgumentsNulFree(rule, AfterProgram(program.rest));
  }

  // ----- the main results

  /** The parser gives back the program and the arguments exactly when the program name is one
      its rule can express and no text holds a null character. */
  lemma CommandLineRoundTripsExactly(rule: DoubledQuote, exe: string, args: seq<string>)
    ensures CommandLineToArgv(rule, Printed(exe, args)) == [exe] + args
            <==> ProgramSurvives(exe) && NulFree(exe) && AllNulFree(args)
  {
    var cmdline := Printed(exe, args);
    PrintedNulFree(exe, args);
    CStringIsNulFree(cmdline);
    if NulFree(exe) && AllNulFree(args) {
      ArgumentsRoundTrip(rule, args);
      ParseProgramExactly(exe, PrintedArguments(args));
      assert CommandLineToArgv(rule, cmdline)[0] == ParseProgram(cmdline).arg;
      if ProgramSurvives(exe) {
        assert AfterProgram(PrintedArguments(args)) == PrintedArguments(args);
      } else {
        assert ([exe] + args)[0] == exe;
      }
    } else {
      ArgvIsNulFree(rule, cmdline);
      assert forall i :: 0 <= i < |args| ==> ([exe] + args)[i + 1] == args[i];
      assert ([exe] + args)[0] == exe;
    }
  }

  /** No two argument lists share a command line. */
  lemma PrintedArgumentsInjective(a: seq<string>, b: seq<string>)
    requires PrintedArguments(a) == PrintedArguments(b)
    ensures a == b
  {
    ArgumentsRoundTrip(CloseThenOpen, a);
    ArgumentsRoundTrip(CloseThenOpen, b);
  }

  lemma {:induction false} EscapedLength(a: string, k: nat)
    ensures |a| + k <= |Escaped(a, k)| <= 2 * (|a| + k)
    decreases |a|
  {
    if a != "" {
      EscapedLength(a[1..], if a[0] == BACKSLASH then k + 1 else 0);
    }
  }

  /** Quoting at most doubles an argument, next to the two quotes around it. */
  lemma QuotedLength(arg: string)
    ensures |arg| <= |Quoted(arg)| <= 2 * |arg| + 2
  {
    EscapedLength(arg, 0);
  }

  // ----- program names that are not read back

  /** A quote in the name of the program, which nothing escapes for the parser. */
  lemma QuoteInProgramIsLost(rule: DoubledQuote, args: seq<string>)
    ensures CommandLineToArgv(rule, Printed("a\"b", args)) != ["a\"b"] + args
  {
    CommandLineRoundTripsExactly(rule, "a\"b", args);
    assert "a\"b"[1] == QUOTE;
  }

  /** A folder with a space in its name and a backslash behind it: the parser sees it doubled. */
  lemma TrailingBackslashIsDoubled(rule: DoubledQuote, args: seq<string>)
    ensures CommandLineToArgv(rule, Printed("a b\\", args)) != ["a b\\"] + args
  {
    CommandLineRoundTripsExactly(rule, "a b\\", args);
    assert ForcesQuotes("a b\\"[1]);
  }

  // ----- the characters of the printed text

  /** The argument list is printed with one space between its texts. */
  lemma PrintedIsJoined(exe: string, args: seq<string>)
    ensures Printed(exe, args) == TextSplit.Joined([Quoted(exe)] + QuotedAll(args), " ")
  {
    PrintedArgumentsJoin(Quoted(exe), args);
  }

  function QuotedAll(args: seq<string>): (texts: seq<string>)
    ensures |texts| == |args|
  {
    if args == [] then [] else [Quoted(args[0])] + QuotedAll(args[1..])
  }

  lemma {:induction false} PrintedArgumentsJoin(first: string, args: seq<string>)
    ensures first + PrintedArguments(args) == TextSplit.Joined([first] + QuotedAll(args), " ")
    decreases |args|
  {
    hide Quoted;
    if args == [] {
      assert [first] + QuotedAll(args) == [first];
    } else {
      PrintedArgumentsJoin(Quoted(args[0]), args[1..]);
      TextSplit.JoinedFirst(first, QuotedAll(args), " ");
      assert QuotedAll(args) == [Quoted(args[0])] + QuotedAll(args[1..]);
      assert first + (" " + Quoted(args[0]) + PrintedArguments(args[1..]))
          == first + " " + (Quoted(args[0]) + PrintedArguments(args[1..]));
    }
  }

  /** An argument is printed as it stands exactly when it is not empty and holds no space, no tab and no
      quote. */
  lemma PlainExactly(arg: string)
    ensures Quoted(arg) == arg <==> arg != "" && ' ' !in arg && '\t' !in arg && '"' !in arg
  {
    if !PrintedPlain(arg) {
      EscapedLength(arg, 0);
      assert |Quoted(arg)| > |arg|;
    }
  }

  /** Any other argument is printed between quotes. */
  lemma QuotedExactly(arg: string)
    requires Quoted(arg) != arg
    ensures Quoted(arg) == "\"" + Escaped(arg, 0) + "\""
  {
  }

  /** Between the quotes, text without a backslash or a quote stays as it is; a run of backslashes is
      doubled in front of a quote and at the end, stays as it is anywhere else, and a quote has one
      more in front of it. */
  lemma EscapedRun(run: nat, rest: string)
    requires rest == "" || rest[0] != '\\'
    ensures Escaped(Slashes(run) + rest, 0) ==
            if rest == "" then Slashes(2 * run)
            else if rest[0] == '"' then Slashes(2 * run + 1) + "\"" + Escaped(rest[1..], 0)
            else Slashes(run) + [rest[0]] + Escaped(rest[1..], 0)
  {
    EscapedSlashes(run, rest, 0);
    SlashesAreBackslashes(2 * run);
    SlashesAreBackslashes(2 * run + 1);
    SlashesAreBackslashes(run);
  }

  function Slashes(n: nat): string {
    seq(n, i => '\\')
  }

  lemma SlashesAreBackslashes(n: nat)
    ensures Slashes(n) == Backslashes(n)
  {
  }

  lemma {:induction false} EscapedSlashes(run: nat, rest: string, k: nat)
    ensures Escaped(Slashes(run) + rest, k) == Escaped(rest, k + run)
  {
    if run == 0 {
      assert Slashes(0) + rest == rest;
    } else {
      assert (Slashes(run) + rest)[1..] == Slashes(run - 1) + rest;
      EscapedSlashes(run - 1, rest, k + 1);
    }
  }
}
