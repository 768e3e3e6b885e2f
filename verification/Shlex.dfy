/**
 `ShlexQuote` (internal/infra/cast.go) against the shell's own reading of a command line:
 IEEE Std 1003.1-2017, Shell Command Language, sections 2.2 (quoting) and 2.3 (token
 recognition).
 */
module Shlex {
  import opened Strings

  predicate SafeChar(c: char) {
    || 'a' <= c <= 'z' || 'A' <= c <= 'Z' || '0' <= c <= '9'
    || c == '@' || c == '%' || c == '_' || c == '+' || c == '=' || c == ':'
    || c == ',' || c == '.' || c == '/' || c == '-'
  }

  const QUOTED_QUOTE := "'\"'\"'"

  function ShlexQuote(s: string): string {
    if s == "" then "''"
    else if exists c <- s :: !SafeChar(c) then "'" + ReplaceAll(s, "'", QUOTED_QUOTE) + "'"
    else s
  }

  /** Where the shell stands while it reads a command line. */
  datatype Mode =
    | Blank                       // between words
    | Word(cur: string)           // inside a word, unquoted
    | Single(cur: string)         // inside '...'
    | Double(cur: string)         // inside "..."
    | EscBlank                    // after an unquoted backslash that would start a word
    | EscWord(cur: string)        // after an unquoted backslash inside a word
    | EscDouble(cur: string)      // after a backslash inside "..."
    | Interpreted                 // an operator, expansion, pattern or comment was met

  datatype Shell = Shell(mode: Mode, words: seq<string>)

  /** Characters an unquoted occurrence of which the shell acts on (section 2.2). */
  predicate Active(c: char) {
    || c == '|' || c == '&' || c == ';' || c == '<' || c == '>' || c == '(' || c == ')'
    || c == '$' || c == '`' || c == '\n' || c == '*' || c == '?' || c == '[' || c == '#' || c == '~'
  }

  function Step(sh: Shell, c: char): Shell {
    match sh.mode
    case Blank =>
      if c == ' ' || c == '\t' then sh
      else if c == '\'' then sh.(mode := Single(""))
      else if c == '"' then sh.(mode := Double(""))
      else if c == '\\' then sh.(mode := EscBlank)
      else if Active(c) then sh.(mode := Interpreted)
      else sh.(mode := Word([c]))
    case Word(cur) =>
      if c == ' ' || c == '\t' then Shell(Blank, sh.words + [cur])
      else if c == '\'' then sh.(mode := Single(cur))
      else if c == '"' then sh.(mode := Double(cur))
      else if c == '\\' then sh.(mode := EscWord(cur))
      else if Active(c) then sh.(mode := Interpreted)
      else sh.(mode := Word(cur + [c]))
    case Single(cur) =>
      if c == '\'' then sh.(mode := Word(cur)) else sh.(mode := Single(cur + [c]))
    case Double(cur) =>
      if c == '"' then sh.(mode := Word(cur))
      else if c == '$' || c == '`' then sh.(mode := Interpreted)
      else if c == '\\' then sh.(mode := EscDouble(cur))
      else sh.(mode := Double(cur + [c]))
    case EscBlank =>
      if c == '\n' then sh.(mode := Blank) else sh.(mode := Word([c]))
    case EscWord(cur) =>
      if c == '\n' then sh.(mode := Word(cur)) else sh.(mode := Word(cur + [c]))
    case EscDouble(cur) =>
      if c == '\n' then sh.(mode := Double(cur))
      else if c == '$' || c == '`' || c == '"' || c == '\\' then sh.(mode := Double(cur + [c]))
      else sh.(mode := Double(cur + ['\\', c]))
    case Interpreted => sh
  }

  function Read(sh: Shell, line: string): Shell
    decreases |line|
  {
    if line == "" then sh else Read(Step(sh, line[0]), line[1..])
  }

  datatype Reading = Words(words: seq<string>) | Unterminated | Acted

  /** The fields the shell passes to the command, when it neither acts nor waits for more. */
  function ShellWords(line: string): Reading {
    var sh := Read(Shell(Blank, []), line);
    match sh.mode
    case Blank => Words(sh.words)
    case Word(cur) => Words(sh.words + [cur])
    case Interpreted => Acted
    case _ => Unterminated
  }

  lemma {:induction false} ReadConcat(sh: Shell, a: string, b: string)
    ensures Read(sh, a + b) == Read(Read(sh, a), b)
    decreases |a|
  {
    if a == "" {
      assert a + b == b;
    } else {
      assert (a + b)[1..] == a[1..] + b;
      ReadConcat(Step(sh, a[0]), a[1..], b);
    }
  }

  lemma StepSafe(words: seq<string>, cur: string, c: char)
    requires SafeChar(c)
    ensures Step(Shell(Blank, words), c) == Shell(Word([c]), words)
    ensures Step(Shell(Word(cur), words), c) == Shell(Word(cur + [c]), words)
  {
  }

  lemma {:induction false} ReadSafe(cur: string, words: seq<string>, s: string)
    requires forall c <- s :: SafeChar(c)
    ensures Read(Shell(Word(cur), words), s) == Shell(Word(cur + s), words)
    decreases |s|
  {
    hide Step, SafeChar;
    if s == "" {
      assert cur + s == cur;
    } else {
      StepSafe(words, cur, s[0]);
      ReadSafe(cur + [s[0]], words, s[1..]);
      assert cur + [s[0]] + s[1..] == cur + s;
    }
  }

  /** Inside single quotes the escaped text reads back as the text itself. */
  lemma {:induction false} ReadQuoted(cur: string, words: seq<string>, s: string)
    ensures Read(Shell(Single(cur), words), ReplaceAll(s, "'", QUOTED_QUOTE)) == Shell(Single(cur + s), words)
    decreases |s|
  {
    if s == "" {
      assert cur + s == cur;
    } else {
      var rest := ReplaceAll(s[1..], "'", QUOTED_QUOTE);
      assert s == [s[0]] + s[1..];
      assert cur + [s[0]] + s[1..] == cur + s;
      if s[0] == '\'' {
        assert "'" <= s;
        ReadConcat(Shell(Single(cur), words), QUOTED_QUOTE, rest);
        ReadEscapedQuote(cur, words);
      } else {
        assert !("'" <= s);
        ReadConcat(Shell(Single(cur), words), [s[0]], rest);
      }
      ReadQuoted(cur + [s[0]], words, s[1..]);
    }
  }

  lemma ReadEscapedQuote(cur: string, words: seq<string>)
    ensures Read(Shell(Single(cur), words), QUOTED_QUOTE) == Shell(Single(cur + "'"), words)
  {
    var q := QUOTED_QUOTE;
    var s1 := Shell(Word(cur), words);
    var s2 := Shell(Double(cur), words);
    var s3 := Shell(Double(cur + "'"), words);
    var s4 := Shell(Word(cur + "'"), words);
    var s5 := Shell(Single(cur + "'"), words);
    assert Step(Shell(Single(cur), words), q[0]) == s1 && Step(s1, q[1]) == s2;
    assert Step(s2, q[2]) == s3 && Step(s3, q[3]) == s4 && Step(s4, q[4]) == s5;
    assert q[1..][0] == q[1] && q[1..][1..][0] == q[2] && q[1..][1..][1..][0] == q[3];
    assert q[1..][1..][1..][1..] == [q[4]];
    assert Read(s4, [q[4]]) == s5;
    assert Read(s3, q[1..][1..][1..]) == s5;
    assert Read(s2, q[1..][1..]) == s5;
    assert Read(s1, q[1..]) == s5;
  }

  lemma ReadOne(sh: Shell, c: char)
    ensures Read(sh, [c]) == Step(sh, c)
  {
    assert [c][1..] == "";
  }

  lemma ReadWrapped(words: seq<string>, s: string)
    ensures Read(Shell(Blank, words), "'" + ReplaceAll(s, "'", QUOTED_QUOTE) + "'") == Shell(Word(s), words)
  {
    var body := ReplaceAll(s, "'", QUOTED_QUOTE);
    ReadConcat(Shell(Blank, words), "'" + body, "'");
    ReadConcat(Shell(Blank, words), "'", body);
    ReadOne(Shell(Blank, words), '\'');
    ReadQuoted("", words, s);
    assert "" + s == s;
    ReadOne(Shell(Single(s), words), '\'');
  }

  lemma ReadPlain(words: seq<string>, s: string)
    requires s != "" && forall c <- s :: SafeChar(c)
    ensures Read(Shell(Blank, words), s) == Shell(Word(s), words)
  {
    hide Step, SafeChar;
    StepSafe(words, "", s[0]);
    var s0, s1 := [s[0]], s[1..];
    assert s == s0 + s1;
    ReadConcat(Shell(Blank, words), s0, s1);
    ReadOne(Shell(Blank, words), s[0]);
    ReadSafe(s0, words, s1);
  }

  lemma QuoteCases(s: string)
    ensures ShlexQuote(s) == "'" + ReplaceAll(s, "'", QUOTED_QUOTE) + "'"
         || (ShlexQuote(s) == s && s != "" && forall c <- s :: SafeChar(c))
  {
  }

  /** At any point between words, one quoted string is read as one word holding that string. */
  lemma ReadShlexQuote(words: seq<string>, s: string)
    ensures Read(Shell(Blank, words), ShlexQuote(s)) == Shell(Word(s), words)
  {
    QuoteCases(s);
    if ShlexQuote(s) == s && s != "" && forall c <- s :: SafeChar(c) {
      ReadPlain(words, s);
    } else {
      ReadWrapped(words, s);
    }
  }

  function QuoteAll(args: seq<string>): (quoted: seq<string>)
    ensures |quoted| == |args| && forall i | 0 <= i < |args| :: quoted[i] == ShlexQuote(args[i])
  {
    if args == [] then [] else [ShlexQuote(args[0])] + QuoteAll(args[1..])
  }

  lemma ReadWordThenSpace(words: seq<string>, quoted: string, s: string, tail: string)
    requires Read(Shell(Blank, words), quoted) == Shell(Word(s), words)
    ensures Read(Shell(Blank, words), quoted + " " + tail) == Read(Shell(Blank, words + [s]), tail)
  {
    ReadConcat(Shell(Blank, words), quoted + " ", tail);
    ReadConcat(Shell(Blank, words), quoted, " ");
    ReadOne(Shell(Word(s), words), ' ');
  }

  /** Between any words, `quoted` is read as exactly the word `s`. */
  ghost predicate ReadsAs(quoted: string, s: string) {
    forall words :: Read(Shell(Blank, words), quoted) == Shell(Word(s), words)
  }

  lemma {:induction false} ReadJoined(words: seq<string>, quoted: seq<string>, args: seq<string>)
    requires |quoted| == |args| > 0
    requires forall i | 0 <= i < |args| :: ReadsAs(quoted[i], args[i])
    ensures Read(Shell(Blank, words), Join(quoted, " "))
         == Shell(Word(args[|args| - 1]), words + args[..|args| - 1])
    decreases |args|
  {
    var first, rest := args[0], args[1..];
    assert ReadsAs(quoted[0], first);
    if |args| == 1 {
      assert words + args[..0] == words;
    } else {
      ReadWordThenSpace(words, quoted[0], first, Join(quoted[1..], " "));
      ReadJoined(words + [first], quoted[1..], rest);
      assert words + [first] + rest[..|rest| - 1] == words + args[..|args| - 1];
    }
  }

  /** Round trip: the shell reads the space-joined quoted list back as exactly that list. */
  lemma ShellReadsBackQuotedList(args: seq<string>)
    ensures ShellWords(Join(QuoteAll(args), " ")) == Words(args)
  {
    if args != [] {
      var quoted := QuoteAll(args);
      forall i | 0 <= i < |args| ensures ReadsAs(quoted[i], args[i]) {
        forall words { ReadShlexQuote(words, args[i]); }
      }
      ReadJoined([], quoted, args);
      assert [] + args[..|args| - 1] + [args[|args| - 1]] == args;
    }
  }

  /** So two different argument lists never give the same command line. */
  lemma QuotedListInjective(a: seq<string>, b: seq<string>)
    ensures Join(QuoteAll(a), " ") == Join(QuoteAll(b), " ") <==> a == b
  {
    ShellReadsBackQuotedList(a);
    ShellReadsBackQuotedList(b);
  }
}
